/**
  The request decoder of app/http.go (Request.From): the bytes of one read are split on CRLF,
  the first line gives the request-line tokens (section 3 of RFC 9112), every non-empty line
  strictly between the first and the last is a field line split at its first colon
  (section 5 of RFC 9112), and the last piece is the body.

  Where the Go code indexes out of range it panics; the model returns that panic as a value.
*/
module HttpRequest {
  import opened Wrappers
  import opened Text
  import opened HeaderMap

  /** The index-out-of-range panics of Request.From, in the order the code can reach them. */
  datatype Panic =
    | MissingTarget        // the request line has no second token: metaSegs[1]
    | MissingVersion       // the request line has no third token: metaSegs[2]
    | NoHeaderSection      // the input holds no CRLF at all: parts[1 : len(parts)-1]
    | NoColon(line: string) // a non-empty field line without ':': kv[1]

  /** What a successful decode yields: the request-line tokens (method, target, version), the field lines in order, the body. */
  datatype RequestHead = RequestHead(
    verb: string,
    target: string,
    version: string,
    fields: seq<(string, string)>,
    body: string)

  /** One field line split at its first colon, name and value trimmed; None when it has no colon. */
  function FieldOf(line: string): (r: Option<(string, string)>)
    ensures r.None? <==> !Contains(line, ":")
  {
    var kv := SplitOnce(line, ":");
    if |kv| < 2 then None else Some((TrimSpace(kv[0]), TrimSpace(kv[1])))
  }

  /** The name is the text before the first colon and the value the text after it, both trimmed; later colons stay in the value. */
  lemma FieldOfSplitsAtFirstColon(name: string, value: string)
    requires ':' !in name
    ensures FieldOf(name + ":" + value) == Some((TrimSpace(name), TrimSpace(value)))
  {
    var line := name + ":" + value;
    FindAfterPiece(name, ":", value);
    assert line[..|name|] == name && line[|name| + 1..] == value;
  }

  /** The fields of the middle lines, skipping empty ones; the first non-empty line without a colon panics. */
  function Fields(lines: seq<string>): Result<seq<(string, string)>, Panic> {
    if lines == [] then Ok([])
    else
      var last := lines[|lines| - 1];
      match Fields(lines[..|lines| - 1])
      case Err(p) => Err(p)
      case Ok(fs) =>
        if last == "" then Ok(fs)
        else match FieldOf(last)
          case None => Err(NoColon(last))
          case Some(f) => Ok(fs + [f])
  }

  /** A middle line the decoder accepts: empty, or holding a colon. */
  predicate Acceptable(line: string) {
    line == "" || FieldOf(line).Some?
  }

  /** Every line is acceptable. */
  predicate AllAcceptable(lines: seq<string>) {
    forall k :: 0 <= k < |lines| ==> Acceptable(lines[k])
  }

  lemma AllAcceptableStep(lines: seq<string>)
    requires lines != []
    ensures AllAcceptable(lines) <==> AllAcceptable(lines[..|lines| - 1]) && Acceptable(lines[|lines| - 1])
  {
    assert forall k :: 0 <= k < |lines| - 1 ==> lines[..|lines| - 1][k] == lines[k];
  }

  /** Decoding the middle lines succeeds exactly when every one of them is acceptable. */
  lemma {:induction false} FieldsSucceed(lines: seq<string>)
    ensures Fields(lines).Ok? <==> AllAcceptable(lines)
    decreases |lines|
  {
    if lines != [] {
      FieldsSucceed(lines[..|lines| - 1]);
      FieldsStep(lines);
      AllAcceptableStep(lines);
    }
  }

  /** The lines decode when all but the last do and the last is acceptable. */
  lemma FieldsStep(lines: seq<string>)
    requires lines != []
    ensures Fields(lines).Ok? <==> Fields(lines[..|lines| - 1]).Ok? && Acceptable(lines[|lines| - 1])
  {
  }

  /** Request.From as a function of the input bytes. */
  function Parse(b: string): (r: Result<RequestHead, Panic>)
    ensures !Contains(b, CRLF) ==> r.Err?
    ensures r.Ok? ==> Trimmed(r.value.verb) && Trimmed(r.value.target) && Trimmed(r.value.version)
  {
    var parts := Split(b, CRLF);
    var tokens := Split(parts[0], " ");
    if |tokens| < 2 then Err(MissingTarget)
    else if |tokens| < 3 then Err(MissingVersion)
    else if |parts| < 2 then Err(NoHeaderSection)
    else match Fields(parts[1..|parts| - 1])
      case Err(p) => Err(p)
      case Ok(fs) =>
        Ok(RequestHead(TrimSpace(tokens[0]), TrimSpace(tokens[1]), TrimSpace(tokens[2]), fs, parts[|parts| - 1]))
  }

  /** The body is the text after the last CRLF of the input, verbatim, and holds no CRLF. */
  lemma ParseKeepsBodyVerbatim(b: string)
    requires Parse(b).Ok?
    ensures var body := Parse(b).value.body;
            |body| + 2 <= |b| && b[|b| - |body| - 2..] == CRLF + body && !Contains(body, CRLF)
  {
    LastPiece(b, CRLF);
  }

  // ---------------------------------------------------------------------------
  // Encoding a request, the partner of Parse

  /** A field line as a client writes it: name, colon, one space, value. */
  function FieldLine(f: (string, string)): string {
    f.0 + ": " + f.1
  }

  function FieldLines(fields: seq<(string, string)>): (lines: seq<string>)
    ensures |lines| == |fields|
    ensures forall k :: 0 <= k < |fields| ==> lines[k] == FieldLine(fields[k])
  {
    if fields == [] then []
    else FieldLines(fields[..|fields| - 1]) + [FieldLine(fields[|fields| - 1])]
  }

  /**
    The bytes of a request: the request line (method, target, version and any further tokens,
    separated by single spaces), one line per field, a blank line, then the body.
  */
  function RequestBytes(tokens: seq<string>, fields: seq<(string, string)>, body: string): string {
    Join([Join(tokens, " ")] + FieldLines(fields) + ["", body], CRLF)
  }

  /** A request-line token: no white space at all. */
  predicate IsToken(t: string) {
    NoSpace(t)
  }

  /** A field that reads back as itself: a trimmed name without ':' and a trimmed value, neither holding a CR. */
  predicate IsPlainField(f: (string, string)) {
    && ':' !in f.0 && '\r' !in f.0 && Trimmed(f.0)
    && '\r' !in f.1 && Trimmed(f.1)
  }

  /** A field line reads back as its name and value, whatever colons the value holds. */
  lemma FieldLineReadsBack(f: (string, string))
    requires IsPlainField(f)
    ensures FieldOf(FieldLine(f)) == Some(f)
  {
    var line := FieldLine(f);
    assert line == f.0 + ":" + (" " + f.1);
    FindAfterPiece(f.0, ":", " " + f.1);
    var kv := SplitOnce(line, ":");
    assert kv == [f.0, " " + f.1];
    TrimSpaceOfTrimmed(f.0);
    TrimSpaceAfterBlank(f.1);
  }

  /** Fields that all read back as themselves. */
  predicate AllPlain(fields: seq<(string, string)>) {
    forall k :: 0 <= k < |fields| ==> IsPlainField(fields[k])
  }

  /** One more acceptable, non-empty line adds its field at the end. */
  lemma FieldsAppend(lines: seq<string>, line: string)
    requires Fields(lines).Ok? && line != "" && FieldOf(line).Some?
    ensures Fields(lines + [line]) == Ok(Fields(lines).value + [FieldOf(line).value])
  {
    assert (lines + [line])[..|lines|] == lines;
  }

  /** The field lines of plain fields decode to those fields, in order. */
  lemma {:induction false} FieldLinesReadBack(fields: seq<(string, string)>)
    requires AllPlain(fields)
    ensures Fields(FieldLines(fields)) == Ok(fields)
    decreases |fields|
  {
    if fields != [] {
      var n := |fields| - 1;
      var init, f := fields[..n], fields[n];
      assert fields == init + [f];
      assert AllPlain(init) && IsPlainField(f) by {
        assert forall k :: 0 <= k < n ==> init[k] == fields[k];
      }
      FieldLinesReadBack(init);
      FieldLineReadsBack(f);
      FieldLinesStep(init, f);
    }
  }

  /** One more field whose line reads back extends a sequence of field lines that read back. */
  lemma FieldLinesStep(init: seq<(string, string)>, f: (string, string))
    requires Fields(FieldLines(init)) == Ok(init) && FieldOf(FieldLine(f)) == Some(f)
    ensures Fields(FieldLines(init + [f])) == Ok(init + [f])
  {
    assert (init + [f])[..|init|] == init;
    assert FieldLines(init + [f]) == FieldLines(init) + [FieldLine(f)];
    assert |FieldLine(f)| >= 2;
    FieldsAppend(FieldLines(init), FieldLine(f));
  }

  /** Tokens that may form a request line: three or more, none holding white space. */
  predicate RequestLineTokens(tokens: seq<string>) {
    |tokens| >= 3 && forall k :: 0 <= k < |tokens| ==> IsToken(tokens[k])
  }

  /** The request line of such tokens splits back into them and holds no CR. */
  lemma RequestLineSplits(tokens: seq<string>)
    requires forall k :: 0 <= k < |tokens| ==> IsToken(tokens[k])
    requires |tokens| >= 1
    ensures Split(Join(tokens, " "), " ") == tokens
    ensures '\r' !in Join(tokens, " ")
  {
    assert forall k :: 0 <= k < |tokens| ==> ' ' !in tokens[k] && '\r' !in tokens[k];
    SplitJoin(tokens, " ");
    CharNotInJoin(tokens, " ", '\r');
  }

  /** Lines without CR. */
  predicate NoCR(lines: seq<string>) {
    forall k :: 0 <= k < |lines| ==> '\r' !in lines[k]
  }

  lemma NoCRConcat(a: seq<string>, b: seq<string>)
    requires NoCR(a) && NoCR(b)
    ensures NoCR(a + b)
  {
    forall k | 0 <= k < |a + b| ensures '\r' !in (a + b)[k] {
      if k < |a| {
        assert (a + b)[k] == a[k];
      } else {
        assert (a + b)[k] == b[k - |a|];
      }
    }
  }

  /**
    Input made of a request line, middle lines that decode, and a last line decodes to the
    request-line tokens, the middle lines' fields and the last line as body.
  */
  lemma ParseJoined(tokens: seq<string>, all: seq<string>, fields: seq<(string, string)>, body: string)
    requires RequestLineTokens(tokens)
    requires |all| >= 2 && all[0] == Join(tokens, " ") && NoCR(all[1..])
    requires Fields(all[1..|all| - 1]) == Ok(fields) && all[|all| - 1] == body
    ensures Parse(Join(all, CRLF)) == Ok(RequestHead(tokens[0], tokens[1], tokens[2], fields, body))
  {
    RequestLineSplits(tokens);
    NoCRConcat([all[0]], all[1..]);
    assert [all[0]] + all[1..] == all;
    SplitJoin(all, CRLF);
    TrimSpaceOfTrimmed(tokens[0]);
    TrimSpaceOfTrimmed(tokens[1]);
    TrimSpaceOfTrimmed(tokens[2]);
  }

  /** The field lines of plain fields hold no CR. */
  lemma FieldLinesNoCR(fields: seq<(string, string)>)
    requires AllPlain(fields)
    ensures NoCR(FieldLines(fields))
  {
    forall k | 0 <= k < |fields| ensures '\r' !in FieldLine(fields[k]) {
      assert IsPlainField(fields[k]);
    }
  }

  /**
    Decoding the bytes of a request gives back its method, target and version (any further
    request-line tokens are ignored), its fields in order and its body.
  */
  lemma ParseRequestBytes(tokens: seq<string>, fields: seq<(string, string)>, body: string)
    requires RequestLineTokens(tokens) && AllPlain(fields) && '\r' !in body
    ensures Parse(RequestBytes(tokens, fields, body)) == Ok(RequestHead(tokens[0], tokens[1], tokens[2], fields, body))
  {
    FieldLinesReadBack(fields);
    FieldLinesNoCR(fields);
    ParseMiddleLines(tokens, FieldLines(fields), fields, body);
  }

  /** ParseRequestBytes for any middle lines that decode to `fields`. */
  lemma ParseMiddleLines(tokens: seq<string>, lines: seq<string>, fields: seq<(string, string)>, body: string)
    requires RequestLineTokens(tokens) && NoCR(lines) && Fields(lines) == Ok(fields) && '\r' !in body
    ensures Parse(Join([Join(tokens, " ")] + lines + ["", body], CRLF)) ==
              Ok(RequestHead(tokens[0], tokens[1], tokens[2], fields, body))
  {
    var all := [Join(tokens, " ")] + lines + ["", body];
    Middle(Join(tokens, " "), lines, ["", body]);
    assert ["", body][..1] == [""];
    assert NoCR(all[1..]) by {
      NoCRConcat(lines, ["", body]);
    }
    assert Fields(all[1..|all| - 1]) == Ok(fields) by {
      FieldsSkipEmpty(lines);
    }
    ParseJoined(tokens, all, fields, body);
  }

  /** The lines after the first of `[x] + a + b`, and those strictly between its first and its last. */
  lemma Middle(x: string, a: seq<string>, b: seq<string>)
    requires |b| >= 1
    ensures var all := [x] + a + b;
            all[1..] == a + b && all[1..|all| - 1] == a + b[..|b| - 1] && all[|all| - 1] == b[|b| - 1]
  {
    var all := [x] + a + b;
    assert all[1..] == a + b;
    assert all[1..|all| - 1] == a + b[..|b| - 1];
  }

  /** Middle for a blank line, a line and a body after `a`, with the middle written as ParseLineAfterBlank needs it. */
  lemma BlankThenLine(x: string, a: seq<string>, line: string, body: string)
    ensures var all := [x] + a + ["", line, body];
            all[1..] == a + ["", line, body] && all[1..|all| - 1] == a + [""] + [line] && all[|all| - 1] == body
  {
    Middle(x, a, ["", line, body]);
    assert ["", line, body][..2] == [""] + [line];
  }

  /** An empty middle line adds nothing. */
  lemma FieldsSkipEmpty(lines: seq<string>)
    ensures Fields(lines + [""]) == Fields(lines)
  {
    assert (lines + [""])[..|lines|] == lines;
  }

  /**
    A field line placed after the blank line is still read as a field: the blank line does not
    end the field section, only the last CRLF does, so a body holding CRLF loses all but its
    last line to the fields.
  */
  lemma FieldAfterBlankLine(tokens: seq<string>, fields: seq<(string, string)>, f: (string, string), body: string)
    requires RequestLineTokens(tokens) && AllPlain(fields) && IsPlainField(f) && '\r' !in body
    ensures Parse(Join([Join(tokens, " ")] + FieldLines(fields) + ["", FieldLine(f), body], CRLF)) ==
              Ok(RequestHead(tokens[0], tokens[1], tokens[2], fields + [f], body))
  {
    FieldLinesReadBack(fields);
    FieldLinesNoCR(fields);
    FieldLineReadsBack(f);
    ParseLineAfterBlank(tokens, FieldLines(fields), fields, FieldLine(f), f, body);
  }

  /** FieldAfterBlankLine for any middle lines that decode to `fields` and any line that decodes to `f`. */
  lemma ParseLineAfterBlank(tokens: seq<string>, lines: seq<string>, fields: seq<(string, string)>,
                            line: string, f: (string, string), body: string)
    requires RequestLineTokens(tokens) && NoCR(lines) && Fields(lines) == Ok(fields) && '\r' !in body
    requires line != "" && '\r' !in line && FieldOf(line) == Some(f)
    ensures Parse(Join([Join(tokens, " ")] + lines + ["", line, body], CRLF)) ==
              Ok(RequestHead(tokens[0], tokens[1], tokens[2], fields + [f], body))
  {
    var tail := ["", line, body];
    var all := [Join(tokens, " ")] + lines + tail;
    BlankThenLine(Join(tokens, " "), lines, line, body);
    assert Fields(all[1..|all| - 1]) == Ok(fields + [f]) by {
      FieldsSkipEmpty(lines);
      FieldsAppend(lines + [""], line);
    }
    assert NoCR(all[1..]) by { NoCRConcat(lines, tail); }
    ParseJoined(tokens, all, fields + [f], body);
  }

  /** A request line with fewer than two tokens panics at the missing target: "\r\n" is one. */
  lemma EmptyRequestLinePanics(rest: string)
    ensures Parse(CRLF + rest) == Err(MissingTarget)
  {
    SplitCons("", CRLF, rest);
    assert "" + CRLF + rest == CRLF + rest;
    NoOccurrence("", " ");
  }

  /**
    A request line of two blanks decodes: Split on " " gives three empty tokens, so method,
    target and version all come out empty and nothing panics.
  */
  lemma BlankRequestLineDecodes(b: string)
    requires b == "  " + CRLF + CRLF
    ensures Parse(b) == Ok(RequestHead("", "", "", [], ""))
  {
    var parts, tokens := ["  ", "", ""], ["", "", ""];
    assert Split(b, CRLF) == parts by { BlankLinesSplit(); }
    assert Split(parts[0], " ") == tokens by { BlankTokensSplit(); }
    assert Fields(parts[1..|parts| - 1]) == Ok([]) by { EmptyMiddleLine(parts); }
    ParseOfPieces(b, parts, tokens, []);
    assert TrimSpace("") == "";
  }

  /** Helper of BlankRequestLineDecodes: a single empty middle line gives no fields. */
  lemma EmptyMiddleLine(parts: seq<string>)
    requires |parts| == 3 && parts[1] == ""
    ensures Fields(parts[1..|parts| - 1]) == Ok([])
  {
    assert parts[1..|parts| - 1] == [""];
  }

  /** Helper of BlankRequestLineDecodes, on opaque pieces: a decode whose lines and tokens are known. */
  lemma ParseOfPieces(b: string, parts: seq<string>, tokens: seq<string>, fields: seq<(string, string)>)
    requires Split(b, CRLF) == parts && |parts| >= 2 && Split(parts[0], " ") == tokens && |tokens| >= 3
    requires Fields(parts[1..|parts| - 1]) == Ok(fields)
    ensures Parse(b) == Ok(RequestHead(TrimSpace(tokens[0]), TrimSpace(tokens[1]), TrimSpace(tokens[2]), fields, parts[|parts| - 1]))
  {
  }

  /** Helper of BlankRequestLineDecodes: the lines of "  \r\n\r\n". */
  lemma BlankLinesSplit()
    ensures Split("  " + CRLF + CRLF, CRLF) == ["  ", "", ""]
  {
    SplitCons("", CRLF, "");
    assert "" + CRLF + "" == CRLF;
    NoOccurrence("", CRLF);
    SplitCons("  ", CRLF, CRLF);
  }

  /** Helper of BlankRequestLineDecodes: the tokens of a request line of two blanks. */
  lemma BlankTokensSplit()
    ensures Split("  ", " ") == ["", "", ""]
  {
    SplitCons("", " ", " ");
    assert "" + " " + " " == "  ";
    SplitCons("", " ", "");
    assert "" + " " + "" == " ";
    NoOccurrence("", " ");
  }

  /** A request line of two tokens panics at the missing version. */
  lemma TwoTokensPanic(verb: string, target: string, rest: string)
    requires IsToken(verb) && IsToken(target)
    ensures Parse(verb + " " + target + CRLF + rest) == Err(MissingVersion)
  {
    RequestLineSplits([verb, target]);
    assert Join([verb, target], " ") == verb + " " + target;
    SplitCons(verb + " " + target, CRLF, rest);
  }

  /** Input without any CRLF panics when the middle lines are sliced, even with a full request line. */
  lemma NoCRLFPanics(tokens: seq<string>)
    requires RequestLineTokens(tokens)
    ensures Parse(Join(tokens, " ")) == Err(NoHeaderSection)
  {
    RequestLineSplits(tokens);
    NoOccurrence(Join(tokens, " "), CRLF);
  }

  /**
    The first middle line that is neither empty nor holds a colon panics instead of being
    skipped, whatever follows it.
  */
  lemma FirstBadLinePanics(tokens: seq<string>, middle: seq<string>, body: string, i: nat)
    requires RequestLineTokens(tokens) && NoCR(middle) && '\r' !in body
    requires i < |middle| && AllAcceptable(middle[..i]) && !Acceptable(middle[i])
    ensures Parse(Join([Join(tokens, " ")] + middle + [body], CRLF)) == Err(NoColon(middle[i]))
  {
    FieldsSucceed(middle[..i]);
    FieldsStopAt(middle, i);
    var all := [Join(tokens, " ")] + middle + [body];
    Middle(Join(tokens, " "), middle, [body]);
    NoCRConcat(middle, [body]);
    assert middle + [body][..0] == middle;
    ParsePanicking(tokens, all, NoColon(middle[i]));
  }

  /** Input whose middle lines panic panics the same way, once the request line is whole. */
  lemma ParsePanicking(tokens: seq<string>, all: seq<string>, p: Panic)
    requires RequestLineTokens(tokens)
    requires |all| >= 2 && all[0] == Join(tokens, " ") && NoCR(all[1..])
    requires Fields(all[1..|all| - 1]) == Err(p)
    ensures Parse(Join(all, CRLF)) == Err(p)
  {
    RequestLineSplits(tokens);
    NoCRConcat([all[0]], all[1..]);
    assert [all[0]] + all[1..] == all;
    SplitJoin(all, CRLF);
  }

  // ---------------------------------------------------------------------------
  // The Request object

  /** A decoded request (app/http.go:25-31); its body is the bytes after the last CRLF. */
  class Request {
    var verb: string  // the request method
    var target: string
    var version: string
    var headers: Headers?
    var body: string

    /** &Request{}: every field at its zero value, no header map yet. */
    constructor ()
      ensures verb == "" && target == "" && version == "" && headers == null && body == ""
    {
      verb, target, version, headers, body := "", "", "", null, "";
    }

    /**
      Request.From (app/http.go:78-106). The error it returns is always nil, so the outcome is
      only whether it panicked, and with which panic. An existing header map is reused and
      added to; a new one is made only when there is none.
    */
    method From(b: string) returns (crash: Option<Panic>)
      requires headers != null ==> headers.Valid()
      modifies this, headers
      ensures Parse(b).Err? ==> crash == Some(Parse(b).error)
      ensures Parse(b).Ok? ==> crash == None
      ensures Parse(b).Ok? ==>
        var h := Parse(b).value;
        && verb == h.verb && target == h.target && version == h.version && body == h.body
        && headers != null && headers.Valid()
        && (old(headers) != null ==> headers == old(headers))
        && (old(headers) == null ==> fresh(headers))
        && headers.entries == StoredAll(old(EntriesOf(headers)), h.fields)
    {
      var parts := Split(b, CRLF);
      var tokens := Split(parts[0], " ");
      verb := TrimSpace(tokens[0]);
      if |tokens| < 2 {
        assert Parse(b) == Err(MissingTarget);
        return Some(MissingTarget);
      }
      target := TrimSpace(tokens[1]);
      if |tokens| < 3 {
        assert Parse(b) == Err(MissingVersion);
        return Some(MissingVersion);
      }
      version := TrimSpace(tokens[2]);
      var h: Headers;
      if headers == null {
        h := new Headers();
        headers := h;
      } else {
        h := headers;
      }
      if |parts| < 2 {
        assert Parse(b) == Err(NoHeaderSection);
        return Some(NoHeaderSection);
      }
      ghost var lines := parts[1..|parts| - 1];
      assert Parse(b) == match Fields(lines)
        case Err(p) => Err(p)
        case Ok(fs) => Ok(RequestHead(verb, target, version, fs, parts[|parts| - 1]));
      crash := SetFields(h, parts[1..|parts| - 1]);
      if crash.None? {
        body := parts[|parts| - 1];
      }
    }
  }

  /**
    The loop of Request.From over the middle lines (app/http.go:93-100): empty lines are skipped,
    every other line is split at its first colon and stored with Set, and a line without a colon
    panics, leaving the lines before it stored.
  */
  method SetFields(h: Headers, lines: seq<string>) returns (crash: Option<Panic>)
    requires h.Valid()
    modifies h
    ensures h.Valid()
    ensures Fields(lines).Err? ==> crash == Some(Fields(lines).error)
    ensures Fields(lines).Ok? ==> crash == None && h.entries == StoredAll(old(h.entries), Fields(lines).value)
  {
    ghost var fs: seq<(string, string)> := [];
    for i := 0 to |lines|
      invariant h.Valid()
      invariant Fields(lines[..i]) == Ok(fs)
      invariant h.entries == StoredAll(old(h.entries), fs)
    {
      var line := lines[i];
      assert lines[..i + 1][..i] == lines[..i];
      if |line| == 0 {
        continue;
      }
      var kv := SplitOnce(line, ":");
      if |kv| < 2 {
        FieldsStopAt(lines, i);
        return Some(NoColon(line));
      }
      var name, value := TrimSpace(kv[0]), TrimSpace(kv[1]);
      h.Set(name, value);
      fs := fs + [(name, value)];
      assert StoredAll(old(h.entries), fs) == Stored(StoredAll(old(h.entries), fs[..|fs| - 1]), name, value);
    }
    assert lines[..|lines|] == lines;
    return None;
  }

  /** Once a prefix of the lines panics, so do all the lines. */
  lemma {:induction false} FieldsStopAt(lines: seq<string>, i: nat)
    requires i < |lines| && Fields(lines[..i]).Ok? && lines[i] != "" && FieldOf(lines[i]).None?
    ensures Fields(lines) == Err(NoColon(lines[i]))
    decreases |lines| - i
  {
    assert lines[..i + 1][..i] == lines[..i];
    if i + 1 < |lines| {
      FieldsKeepPanic(lines, i + 1);
    } else {
      assert lines[..i + 1] == lines;
    }
  }

  /** A panic in a prefix of the lines is the panic of all of them. */
  lemma {:induction false} FieldsKeepPanic(lines: seq<string>, j: nat)
    requires j <= |lines| && Fields(lines[..j]).Err?
    ensures Fields(lines) == Fields(lines[..j])
    decreases |lines| - j
  {
    if j < |lines| {
      assert lines[..j + 1][..j] == lines[..j];
      FieldsKeepPanic(lines, j + 1);
    } else {
      assert lines[..j] == lines;
    }
  }
}
