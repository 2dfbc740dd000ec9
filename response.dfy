/**
  The response encoder of app/http.go (httpResponse): a status line, one field line per header
  entry in map order, then, only for a non-empty body, a Content-Length field, a blank line and
  the body, all handed to the writer in a single Write. Reason phrases follow the table of
  section 15 of RFC 9110 for the codes the server uses; Content-Length is section 8.6 of RFC 9110.
  With an empty body no blank line ends the header section, unlike section 2.1 of RFC 9112.
*/
module HttpResponse {
  import opened Wrappers
  import opened Text
  import opened HeaderMap
  import opened HttpRequest

  /** http.StatusText for the codes the server sends; "" for any other code. */
  function StatusText(code: int): (r: string)
    ensures r != "" <==> code in {200, 201, 404, 500}
    ensures '\r' !in r && '\n' !in r
  {
    if code == 200 then "OK"
    else if code == 201 then "Created"
    else if code == 404 then "Not Found"
    else if code == 500 then "Internal Server Error"
    else ""
  }

  const HttpVersion := "HTTP/1.1"

  /** "HTTP/1.1 <code> <reason>\r\n" */
  function StatusLine(code: int): string {
    HttpVersion + " " + IntToString(code) + " " + StatusText(code) + CRLF
  }

  /** "<name>: <value>\r\n" */
  function HeaderLine(name: string, value: string): string {
    FieldLine((name, value)) + CRLF
  }

  /** Every name of `order` is a key of `m`. */
  predicate Listed(m: Entries, order: seq<string>) {
    forall i :: 0 <= i < |order| ==> order[i] in m
  }

  /** `order` lists every key of `m` exactly once: an iteration order of the map. */
  predicate Enumerates(order: seq<string>, m: Entries) {
    && Listed(m, order)
    && (forall k :: k in m ==> k in order)
    && (forall i, j :: 0 <= i < j < |order| ==> order[i] != order[j])
  }

  /** The field lines of the entries of `m`, in the order `order` visits them. */
  function HeaderBlock(m: Entries, order: seq<string>): string
    requires Listed(m, order)
  {
    if order == [] then ""
    else
      var k := order[|order| - 1];
      HeaderBlock(m, order[..|order| - 1]) + HeaderLine(k, m[k])
  }

  /** The Content-Length line, the blank line and the body, or nothing for an empty body. */
  function BodySection(body: string): string {
    if |body| > 0 then HeaderLine(HeaderContentLength, NatToString(|body|)) + CRLF + body else ""
  }

  /** The bytes httpResponse writes for headers `m` visited in `order`. */
  function Message(code: int, m: Entries, order: seq<string>, body: string): string
    requires Listed(m, order)
  {
    StatusLine(code) + HeaderBlock(m, order) + BodySection(body)
  }

  /** The headers after httpResponse's default: a Connection entry is added as keep-alive when none is present. */
  function WithConnection(m: Entries): Entries {
    if Folded(m, HeaderConnection) then m else Stored(m, HeaderConnection, ConnectionKeepAlive)
  }

  /**
    The default adds exactly the entry "Connection: keep-alive" when no name case-folds to
    Connection, and keeps the map, including a value such as "close", otherwise.
  */
  lemma WithConnectionDefault(m: Entries)
    ensures Folded(m, HeaderConnection) ==> WithConnection(m) == m
    ensures !Folded(m, HeaderConnection) ==> WithConnection(m) == m[HeaderConnection := ConnectionKeepAlive]
    ensures WellFormed(m) ==> WellFormed(WithConnection(m))
    ensures WellFormed(m) ==>
              Lookup(WithConnection(m), HeaderConnection) ==
              (if Folded(m, HeaderConnection) then Lookup(m, HeaderConnection) else (ConnectionKeepAlive, true))
  {
    if !Folded(m, HeaderConnection) {
      WithConnectionAdds(m);
      if WellFormed(m) {
        ConnectionAsWritten();
        StoredWellFormed(m, HeaderConnection, ConnectionKeepAlive);
        StoredThenLookup(m, HeaderConnection, ConnectionKeepAlive);
      }
    }
  }

  /** Without a Connection entry, the default inserts "Connection" spelled as written. */
  lemma WithConnectionAdds(m: Entries)
    requires !Folded(m, HeaderConnection)
    ensures WithConnection(m) == m[HeaderConnection := ConnectionKeepAlive]
  {
    ConnectionAsWritten();
    StoredInserts(m, HeaderConnection, ConnectionKeepAlive);
  }

  /** An io.Writer: the bytes written so far, the number of Write calls, and the error every Write fails with, if any. */
  class Writer {
    var data: string
    var writes: nat
    const fault: Option<string>

    constructor (fault: Option<string>)
      ensures data == "" && writes == 0 && this.fault == fault
    {
      data, writes, this.fault := "", 0, fault;
    }

    method Write(p: string) returns (err: Option<string>)
      modifies this
      ensures writes == old(writes) + 1
      ensures fault.None? ==> data == old(data) + p && err == None
      ensures fault.Some? ==> data == old(data) && err == fault
    {
      writes := writes + 1;
      if fault.None? {
        data := data + p;
      }
      err := fault;
    }
  }

  /** The error httpResponse returns when the write fails. */
  function WriteError(cause: string): string {
    "failed to write response: " + cause
  }

  /** Lines 129-133 of app/http.go: adds Connection: keep-alive unless some name case-folds to Connection. */
  method DefaultConnection(h: Headers)
    requires h.Valid()
    modifies h
    ensures h.Valid() && h.entries == WithConnection(old(h.entries))
  {
    var _, hasConnection := Get(h, HeaderConnection);
    if !hasConnection {
      h.Set(HeaderConnection, ConnectionKeepAlive);
    }
  }

  /**
    The field lines of `m` in one iteration order of the map. Go leaves that order unspecified,
    so the loop picks any key not yet visited; `order` records the choice.
  */
  method EmitHeaders(m: Entries) returns (block: string, ghost order: seq<string>)
    ensures Enumerates(order, m)
    ensures block == HeaderBlock(m, order)
  {
    block := "";
    var rest := m.Keys;
    order := [];
    while rest != {}
      invariant rest <= m.Keys
      invariant Listed(m, order)
      invariant forall k :: k in m ==> (k in rest <==> k !in order)
      invariant forall i, j :: 0 <= i < j < |order| ==> order[i] != order[j]
      invariant block == HeaderBlock(m, order)
      decreases rest
    {
      var k :| k in rest;
      ghost var visited := order;
      block := block + HeaderLine(k, m[k]);
      order := order + [k];
      assert order[..|order| - 1] == visited;
      rest := rest - {k};
    }
  }

  /**
    httpResponse (app/http.go:117-149). `order` is the order in which Go's map iteration
    visited the headers; any order that lists every key once is possible.
  */
  method Respond(w: Writer, code: int, headers: Headers?, body: string) returns (err: Option<string>, ghost order: seq<string>)
    requires headers != null ==> headers.Valid()
    modifies w, headers
    ensures headers != null ==> headers.Valid() && headers.entries == WithConnection(old(headers.entries))
    ensures Enumerates(order, WithConnection(old(EntriesOf(headers))))
    ensures w.writes == old(w.writes) + 1
    ensures w.fault.None? ==>
              err == None && w.data == old(w.data) + Message(code, WithConnection(old(EntriesOf(headers))), order, body)
    ensures w.fault.Some? ==> err == Some(WriteError(w.fault.value)) && w.data == old(w.data)
  {
    var h: Headers;
    if headers == null {
      h := new Headers();
    } else {
      h := headers;
    }
    DefaultConnection(h);
    var block;
    block, order := EmitHeaders(h.entries);
    var s := StatusLine(code) + block + BodySection(body);
    var werr := w.Write(s);
    if werr.Some? {
      return Some(WriteError(werr.value)), order;
    }
    return None, order;
  }

  // A reader for the responses above, as a client sees them: the partner of Message.

  /** A decoded response: status code, reason phrase, field lines in order, and whatever follows the blank line. */
  datatype ResponseHead = ResponseHead(code: nat, reason: string, fields: seq<(string, string)>, body: string)

  /** "HTTP/1.1 <digits> <reason>": the code and the reason phrase, which may hold spaces. */
  function ReadStatusLine(line: string): Option<(nat, string)> {
    var parts := SplitOnce(line, " ");
    if |parts| < 2 || parts[0] != HttpVersion then None
    else
      var rest := SplitOnce(parts[1], " ");
      if |rest| < 2 then None
      else
        match ParseNat(rest[0])
        case None => None
        case Some(c) => Some((c, rest[1]))
  }

  /** Adds `fs` in front of the fields of a read result. */
  function PrependAll(fs: seq<(string, string)>, r: Option<(seq<(string, string)>, string)>): Option<(seq<(string, string)>, string)> {
    match r
    case None => None
    case Some((gs, body)) => Some((fs + gs, body))
  }

  /**
    Field lines up to a blank line, and the text after it. The input may also end right after
    a field line, as it does when the body is empty; the body is then empty.
  */
  function ReadFields(s: string): Option<(seq<(string, string)>, string)>
    decreases |s|
  {
    if s == [] then Some(([], ""))
    else
      var cut := SplitOnce(s, CRLF);
      if |cut| < 2 then None
      else if cut[0] == "" then Some(([], cut[1]))
      else
        match FieldOf(cut[0])
        case None => None
        case Some(f) => PrependAll([f], ReadFields(cut[1]))
  }

  function ReadResponse(s: string): Option<ResponseHead> {
    var cut := SplitOnce(s, CRLF);
    if |cut| < 2 then None
    else
      match ReadStatusLine(cut[0])
      case None => None
      case Some((code, reason)) =>
        match ReadFields(cut[1])
        case None => None
        case Some((fields, body)) => Some(ResponseHead(code, reason, fields, body))
  }

  /** The entries of `m` as (name, value) pairs in the order `order` visits them. */
  function Pairs(m: Entries, order: seq<string>): (r: seq<(string, string)>)
    requires Listed(m, order)
    ensures |r| == |order|
    ensures forall i :: 0 <= i < |order| ==> r[i] == (order[i], m[order[i]])
  {
    seq(|order|, i requires 0 <= i < |order| => (order[i], m[order[i]]))
  }

  /** Entries whose field lines read back as themselves. */
  predicate PlainEntries(m: Entries) {
    forall k :: k in m ==> IsPlainField((k, m[k]))
  }

  /** The fields httpResponse sends for headers `m` in `order` and `body`: the map's entries, then Content-Length for a non-empty body. */
  function SentFields(m: Entries, order: seq<string>, body: string): seq<(string, string)>
    requires Listed(m, order)
  {
    Pairs(m, order) + (if |body| > 0 then [(HeaderContentLength, NatToString(|body|))] else [])
  }

  lemma StatusTextPlain(code: int)
    ensures '\r' !in StatusText(code)
  {
  }

  lemma StatusLineReadsBack(code: nat)
    ensures '\r' !in HttpVersion + " " + NatToString(code) + " " + StatusText(code)
    ensures ReadStatusLine(HttpVersion + " " + NatToString(code) + " " + StatusText(code)) == Some((code, StatusText(code)))
  {
    var digits, reason := NatToString(code), StatusText(code);
    var line := HttpVersion + " " + digits + " " + reason;
    assert ' ' !in digits && '\r' !in digits by {
      assert forall i :: 0 <= i < |digits| ==> IsDigit(digits[i]);
    }
    assert SplitOnce(line, " ") == [HttpVersion, digits + " " + reason] by {
      assert line == HttpVersion + " " + (digits + " " + reason);
      SplitOnceAt(HttpVersion, " ", digits + " " + reason);
    }
    assert SplitOnce(digits + " " + reason, " ") == [digits, reason] by {
      SplitOnceAt(digits, " ", reason);
    }
    ParseNatToString(code);
    StatusTextPlain(code);
  }

  /** A field line followed by CRLF reads back as its field, in front of whatever the rest reads as. */
  lemma ReadFieldLine(f: (string, string), rest: string)
    requires IsPlainField(f)
    ensures ReadFields(FieldLine(f) + CRLF + rest) == PrependAll([f], ReadFields(rest))
  {
    var line := FieldLine(f);
    assert '\r' !in line;
    SplitOnceAt(line, CRLF, rest);
    FieldLineReadsBack(f);
  }

  lemma PrependAllNothing(r: Option<(seq<(string, string)>, string)>)
    ensures PrependAll([], r) == r
  {
    if r.Some? {
      assert [] + r.value.0 == r.value.0;
    }
  }

  lemma PrependAllTwice(a: seq<(string, string)>, b: seq<(string, string)>, r: Option<(seq<(string, string)>, string)>)
    ensures PrependAll(a, PrependAll(b, r)) == PrependAll(a + b, r)
  {
    if r.Some? {
      assert a + (b + r.value.0) == (a + b) + r.value.0;
    }
  }

  /** Helper of ReadHeaderBlock: re-associates one concatenation without unfolding the block. */
  lemma Regroup(a: string, b: string, c: string)
    ensures (a + b) + c == a + (b + c)
  {
  }

  /** Pairs grows by one entry per visited name. */
  lemma PairsStep(m: Entries, order: seq<string>)
    requires Listed(m, order) && order != []
    ensures Pairs(m, order) == Pairs(m, order[..|order| - 1]) + [(order[|order| - 1], m[order[|order| - 1]])]
  {
  }

  /** The header block reads back as the entries in the order they were written. */
  lemma {:induction false} ReadHeaderBlock(m: Entries, order: seq<string>, tail: string)
    requires Listed(m, order) && PlainEntries(m)
    ensures ReadFields(HeaderBlock(m, order) + tail) == PrependAll(Pairs(m, order), ReadFields(tail))
    decreases |order|
  {
    if order == [] {
      assert HeaderBlock(m, order) + tail == tail;
      PrependAllNothing(ReadFields(tail));
    } else {
      var front := order[..|order| - 1];
      var k := order[|order| - 1];
      var f := (k, m[k]);
      var line := HeaderLine(k, m[k]);
      var block := HeaderBlock(m, front);
      assert HeaderBlock(m, order) == block + line;
      ReadFieldLine(f, tail);
      ReadHeaderBlock(m, front, line + tail);
      Regroup(block, line, tail);
      PairsStep(m, order);
      PrependAllTwice(Pairs(m, front), [f], ReadFields(tail));
    }
  }

  /** A decimal number is a plain field value. */
  lemma DigitsPlain(name: string, n: nat)
    requires ':' !in name && '\r' !in name && Trimmed(name)
    ensures IsPlainField((name, NatToString(n)))
  {
    var d := NatToString(n);
    assert !IsSpace(d[0]) && !IsSpace(d[|d| - 1]);
  }

  lemma LengthNamePlain()
    ensures ':' !in HeaderContentLength && '\r' !in HeaderContentLength && Trimmed(HeaderContentLength)
  {
  }

  /** A blank line ends the fields; what follows it is the body. */
  lemma BlankLineEnds(body: string)
    ensures ReadFields(CRLF + body) == Some(([], body))
  {
    SplitOnceAt([], CRLF, body);
    assert [] + CRLF + body == CRLF + body;
  }

  lemma FieldThenBody(f: (string, string), body: string)
    requires IsPlainField(f)
    ensures ReadFields(HeaderLine(f.0, f.1) + CRLF + body) == Some(([f], body))
  {
    assert HeaderLine(f.0, f.1) + CRLF + body == FieldLine(f) + CRLF + (CRLF + body);
    ReadFieldLine(f, CRLF + body);
    BlankLineEnds(body);
    assert [f] + [] == [f];
  }

  /** The Content-Length line, the blank line and the body read back as one field and the body. */
  lemma ReadBodySection(body: string)
    ensures |body| == 0 ==> ReadFields(BodySection(body)) == Some(([], body))
    ensures |body| > 0 ==> ReadFields(BodySection(body)) == Some(([(HeaderContentLength, NatToString(|body|))], body))
  {
    if |body| > 0 {
      LengthNamePlain();
      DigitsPlain(HeaderContentLength, |body|);
      FieldThenBody((HeaderContentLength, NatToString(|body|)), body);
    }
  }

  /**
    Round trip: a client reading what httpResponse wrote gets back the code, its reason phrase,
    every header entry in the order they were sent, a Content-Length equal to the body's length
    exactly when the body is non-empty, and the body itself, CRLFs and all.
  */
  lemma ReadMessage(code: nat, m: Entries, order: seq<string>, body: string)
    requires Listed(m, order) && PlainEntries(m)
    ensures ReadResponse(Message(code, m, order, body)) ==
            Some(ResponseHead(code, StatusText(code), SentFields(m, order, body), body))
    ensures |body| > 0 ==> ParseNat(SentFields(m, order, body)[|order|].1) == Some(|body|)
    ensures |SentFields(m, order, body)| == |order| + (if |body| > 0 then 1 else 0)
  {
    StatusLineReadsBack(code);
    MessageSplits(code, m, order, body);
    FieldsAfterStatusLine(m, order, body);
    ParseNatToString(|body|);
  }

  /** Helper of ReadMessage: the first CRLF of a message ends its status line. */
  lemma MessageSplits(code: nat, m: Entries, order: seq<string>, body: string)
    requires Listed(m, order)
    ensures var line := HttpVersion + " " + NatToString(code) + " " + StatusText(code);
            SplitOnce(Message(code, m, order, body), CRLF) == [line, HeaderBlock(m, order) + BodySection(body)]
  {
    var line := HttpVersion + " " + NatToString(code) + " " + StatusText(code);
    var rest := HeaderBlock(m, order) + BodySection(body);
    MessageLayout(code, m, order, body);
    assert '\r' !in line by { StatusLineReadsBack(code); }
    FirstLineCut(Message(code, m, order, body), line, rest);
  }

  /** Helper of MessageSplits: a message is its status line, CRLF, and the rest. */
  lemma MessageLayout(code: nat, m: Entries, order: seq<string>, body: string)
    requires Listed(m, order)
    ensures Message(code, m, order, body) ==
            (HttpVersion + " " + NatToString(code) + " " + StatusText(code)) + CRLF + (HeaderBlock(m, order) + BodySection(body))
  {
    assert IntToString(code) == NatToString(code);
  }

  /** Helper of MessageSplits, on opaque strings: a CR-free first line is cut at the first CRLF. */
  lemma FirstLineCut(s: string, line: string, rest: string)
    requires s == line + CRLF + rest && '\r' !in line
    ensures SplitOnce(s, CRLF) == [line, rest]
  {
    SplitOnceAt(line, CRLF, rest);
  }

  /** Helper of ReadMessage: what follows the status line reads back as the sent fields and the body. */
  lemma FieldsAfterStatusLine(m: Entries, order: seq<string>, body: string)
    requires Listed(m, order) && PlainEntries(m)
    ensures ReadFields(HeaderBlock(m, order) + BodySection(body)) == Some((SentFields(m, order, body), body))
  {
    ReadHeaderBlock(m, order, BodySection(body));
    ReadBodySection(body);
  }
}
