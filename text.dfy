/**
  The string primitives of Go's standard library that the HTTP layer relies on
  (strings.TrimSpace, strings.EqualFold, strings.HasPrefix, strings.TrimPrefix,
  strings.Split, strings.SplitN, http.CanonicalHeaderKey, fmt's %d), restricted
  to ASCII. A Go string is a sequence of bytes; here every char stands for one byte.
*/
module Text {
  import opened Wrappers

  const CRLF: string := "\r\n"

  // ---------------------------------------------------------------------------
  // White space

  /** The ASCII white space that strings.TrimSpace removes. */
  predicate IsSpace(c: char) {
    c == ' ' || c == '\t' || c == '\n' || c == '\r' || c == '\U{000B}' || c == '\U{000C}'
  }

  /** Neither end of `s` is white space. */
  predicate Trimmed(s: string) {
    s == [] || (!IsSpace(s[0]) && !IsSpace(s[|s| - 1]))
  }

  /** No white space anywhere in `s`. */
  predicate NoSpace(s: string) {
    forall i :: 0 <= i < |s| ==> !IsSpace(s[i])
  }

  function TrimLeft(s: string): (r: string)
    ensures |r| <= |s|
    ensures r == [] || !IsSpace(r[0])
    ensures forall i :: 0 <= i < |s| - |r| ==> IsSpace(s[i])
  {
    if s != [] && IsSpace(s[0]) then TrimLeft(s[1..]) else s
  }

  function TrimRight(s: string): (r: string)
    ensures |r| <= |s|
    ensures r == [] || !IsSpace(r[|r| - 1])
    ensures forall i :: |r| <= i < |s| ==> IsSpace(s[i])
  {
    if s != [] && IsSpace(s[|s| - 1]) then TrimRight(s[..|s| - 1]) else s
  }

  /** strings.TrimSpace: `s` without its leading and trailing white space. */
  function TrimSpace(s: string): (r: string)
    ensures |r| <= |s|
    ensures Trimmed(r)
  {
    var l := TrimLeft(s);
    TrimRightIsPrefix(l);
    TrimRight(l)
  }

  /** TrimLeft removes a prefix. */
  lemma {:induction false} TrimLeftIsSuffix(s: string)
    ensures TrimLeft(s) == s[|s| - |TrimLeft(s)|..]
    decreases |s|
  {
    if s != [] && IsSpace(s[0]) {
      TrimLeftIsSuffix(s[1..]);
    }
  }

  /** TrimRight removes a suffix. */
  lemma {:induction false} TrimRightIsPrefix(s: string)
    ensures TrimRight(s) == s[..|TrimRight(s)|]
    decreases |s|
  {
    if s != [] && IsSpace(s[|s| - 1]) {
      TrimRightIsPrefix(s[..|s| - 1]);
    }
  }

  /** `r` is the stretch of `s` starting at `a`, and everything of `s` before and after it is white space. */
  predicate MiddleOf(r: string, s: string, a: nat) {
    && a + |r| <= |s| && r == s[a..a + |r|]
    && (forall i :: 0 <= i < a ==> IsSpace(s[i]))
    && (forall i :: a + |r| <= i < |s| ==> IsSpace(s[i]))
  }

  /** TrimSpace keeps a middle stretch of its input and drops only white space before and after it. */
  lemma TrimSpaceKeepsMiddle(s: string)
    ensures exists a: nat :: MiddleOf(TrimSpace(s), s, a)
  {
    var l := TrimLeft(s);
    var r := TrimRight(l);
    assert TrimSpace(s) == r;
    var a := |s| - |l|;
    assert l == s[a..] by { TrimLeftIsSuffix(s); }
    assert r == l[..|r|] by { TrimRightIsPrefix(l); }
    assert s[a..][..|r|] == s[a..a + |r|];
    forall i | a + |r| <= i < |s| ensures IsSpace(s[i]) {
      assert s[i] == l[i - a];
    }
    assert MiddleOf(r, s, a);
  }

  /** A string that is already trimmed is its own TrimSpace. */
  lemma TrimSpaceOfTrimmed(s: string)
    requires Trimmed(s)
    ensures TrimSpace(s) == s
  {
  }

  /** Trimming twice is trimming once. */
  lemma TrimSpaceIdempotent(s: string)
    ensures TrimSpace(TrimSpace(s)) == TrimSpace(s)
  {
    TrimSpaceOfTrimmed(TrimSpace(s));
  }

  /** Leading white space in front of a trimmed string is all that TrimSpace removes. */
  lemma TrimSpaceAfterBlank(v: string)
    requires Trimmed(v)
    ensures TrimSpace(" " + v) == v
  {
    assert (" " + v)[1..] == v;
    assert TrimLeft(" " + v) == TrimLeft(v);
    TrimSpaceOfTrimmed(v);
  }

  // ---------------------------------------------------------------------------
  // ASCII case

  function ToLower(c: char): char {
    if 'A' <= c <= 'Z' then (c as int + 32) as char else c
  }

  function ToUpper(c: char): char {
    if 'a' <= c <= 'z' then (c as int - 32) as char else c
  }

  /** strings.EqualFold restricted to ASCII: same length, same letters up to case. */
  predicate EqualFold(a: string, b: string) {
    |a| == |b| && forall i :: 0 <= i < |a| ==> ToLower(a[i]) == ToLower(b[i])
  }

  /** EqualFold is an equivalence relation, so "the stored key for a name" is well defined. */
  lemma EqualFoldEquivalence()
    ensures forall a :: EqualFold(a, a)
    ensures forall a, b :: EqualFold(a, b) ==> EqualFold(b, a)
    ensures forall a, b, c :: EqualFold(a, b) && EqualFold(b, c) ==> EqualFold(a, c)
  {
  }

  /** The bytes a header field name may hold (the token characters of section 5.6.2 of RFC 9110). */
  predicate IsTokenChar(c: char) {
    ('a' <= c <= 'z') || ('A' <= c <= 'Z') || ('0' <= c <= '9') || c in "!#$%&'*+-.^_`|~"
  }

  /** Upper-case the first letter and every letter after a hyphen, lower-case the rest. */
  function CanonicalCase(s: string, upper: bool): (r: string)
    ensures |r| == |s|
    ensures forall i :: 0 <= i < |s| ==> ToLower(r[i]) == ToLower(s[i])
    ensures IsCanonicalCase(r, upper)
  {
    if s == [] then []
    else
      var c, rest := CaseChar(s[0], upper), CanonicalCase(s[1..], s[0] == '-');
      assert (c == '-') == (s[0] == '-');
      assert CaseChar(c, upper) == c;
      [c] + rest
  }

  /**
    http.CanonicalHeaderKey: a name made only of token characters is rewritten in
    canonical case ("content-type" becomes "Content-Type"); any other name is returned unchanged.
  */
  function CanonicalHeaderKey(s: string): (r: string)
    ensures EqualFold(r, s)
    ensures (forall i :: 0 <= i < |s| ==> IsTokenChar(s[i])) ==> IsCanonicalCase(r, true)
    ensures (exists i :: 0 <= i < |s| && !IsTokenChar(s[i])) ==> r == s
  {
    if forall i :: 0 <= i < |s| ==> IsTokenChar(s[i]) then CanonicalCase(s, true) else s
  }

  /** The case CanonicalCase gives one char: upper when `upper`, lower otherwise. */
  function CaseChar(c: char, upper: bool): char {
    if upper then ToUpper(c) else ToLower(c)
  }

  /** `s` already has the case CanonicalCase gives it, `upper` telling whether its first letter is capitalised. */
  predicate IsCanonicalCase(s: string, upper: bool) {
    && (s != [] ==> s[0] == CaseChar(s[0], upper))
    && forall i :: 0 < i < |s| ==> s[i] == CaseChar(s[i], s[i - 1] == '-')
  }

  /** CanonicalCase leaves a name that is already in canonical case as it is. */
  lemma {:induction false} CanonicalCaseFixed(s: string, upper: bool)
    requires IsCanonicalCase(s, upper)
    ensures CanonicalCase(s, upper) == s
  {
    if s != [] {
      var t := s[1..];
      assert IsCanonicalCase(t, s[0] == '-') by {
        if t != [] {
          assert t[0] == s[1];
        }
        forall i | 0 < i < |t| ensures t[i] == CaseChar(t[i], t[i - 1] == '-') {
          assert t[i] == s[i + 1] && t[i - 1] == s[i];
        }
      }
      CanonicalCaseFixed(t, s[0] == '-');
      assert s == [s[0]] + t;
    }
  }

  /** Two case variants of one name that are both in canonical case are the same string. */
  lemma CanonicalCaseUnique(a: string, b: string, upper: bool)
    requires EqualFold(a, b) && IsCanonicalCase(a, upper) && IsCanonicalCase(b, upper)
    ensures a == b
  {
    forall i | 0 <= i < |a| ensures a[i] == b[i] {
      assert ToLower(a[i]) == ToLower(b[i]);
      assert CaseChar(a[i], upper) == CaseChar(ToLower(a[i]), upper);
      assert CaseChar(b[i], upper) == CaseChar(ToLower(b[i]), upper);
      if i > 0 {
        assert ToLower(a[i - 1]) == ToLower(b[i - 1]);
        var u := a[i - 1] == '-';
        assert u == (b[i - 1] == '-');
        assert CaseChar(a[i], u) == CaseChar(ToLower(a[i]), u);
        assert CaseChar(b[i], u) == CaseChar(ToLower(b[i]), u);
      }
    }
  }

  /** A lower-case name comes out with its first letter and the letter after its hyphen capitalised. */
  lemma CanonicalContentType()
    ensures CanonicalHeaderKey("content-type") == "Content-Type"
  {
    var s, t := "content-type", "Content-Type";
    var r := CanonicalHeaderKey(s);
    assert IsCanonicalCase(r, true) by { ContentTypeIsToken(); }
    assert EqualFold(r, t) by {
      ContentTypeFolds();
      EqualFoldEquivalence();
    }
    assert IsCanonicalCase(t, true) by { ContentTypeIsCanonical(); }
    CanonicalCaseUnique(r, t, true);
  }

  /** Helper of CanonicalContentType: "content-type" is made of token characters. */
  lemma ContentTypeIsToken()
    ensures forall i :: 0 <= i < |"content-type"| ==> IsTokenChar("content-type"[i])
  {
  }

  /** Helper of CanonicalContentType: "Content-Type" is in canonical case. */
  lemma ContentTypeIsCanonical()
    ensures IsCanonicalCase("Content-Type", true)
  {
  }

  /** Helper of CanonicalContentType: the two spellings differ only in case. */
  lemma ContentTypeFolds()
    ensures EqualFold("Content-Type", "content-type")
  {
    var s, t := "content-type", "Content-Type";
    assert ToLower('C') == 'c' && ToLower('T') == 't';
    assert forall i :: 0 <= i < |t| && i != 0 && i != 8 ==> t[i] == s[i];
  }

  /** A name of token characters in canonical case is its own canonical key. */
  lemma CanonicalKeyFixed(s: string)
    requires forall i :: 0 <= i < |s| ==> IsTokenChar(s[i])
    requires IsCanonicalCase(s, true)
    ensures CanonicalHeaderKey(s) == s
  {
    CanonicalCaseFixed(s, true);
  }

  // ---------------------------------------------------------------------------
  // Prefixes

  /** strings.HasPrefix. */
  predicate HasPrefix(s: string, p: string): (r: bool)
    ensures r ==> |p| <= |s| && s == p + s[|p|..]
    ensures p == [] ==> r
  {
    |p| <= |s| && s[..|p|] == p
  }

  /** strings.TrimPrefix: `s` without a leading `p`, or `s` itself when it does not start with `p`. */
  function TrimPrefix(s: string, p: string): (r: string)
    ensures HasPrefix(s, p) ==> p + r == s
    ensures !HasPrefix(s, p) ==> r == s
  {
    if HasPrefix(s, p) then s[|p|..] else s
  }

  // ---------------------------------------------------------------------------
  // Searching and splitting

  predicate OccursAt(s: string, sep: string, i: nat) {
    i + |sep| <= |s| && s[i..i + |sep|] == sep
  }

  /** The first occurrence of `sep` in `s` at or after `from`. */
  function FindFrom(s: string, sep: string, from: nat): (r: Option<nat>)
    requires from <= |s|
    decreases |s| - from
    ensures r.Some? ==> from <= r.value && OccursAt(s, sep, r.value)
    ensures r.Some? ==> forall j :: from <= j < r.value ==> !OccursAt(s, sep, j)
    ensures r.None? ==> forall j :: from <= j <= |s| ==> !OccursAt(s, sep, j)
  {
    if from + |sep| > |s| then None
    else if s[from..from + |sep|] == sep then Some(from)
    else if from == |s| then None
    else FindFrom(s, sep, from + 1)
  }

  /** strings.Index, with None for -1: the first occurrence of `sep` in `s`. */
  function Find(s: string, sep: string): (r: Option<nat>)
    ensures r.Some? ==> OccursAt(s, sep, r.value) && forall j :: 0 <= j < r.value ==> !OccursAt(s, sep, j)
    ensures r.None? ==> forall j :: 0 <= j <= |s| ==> !OccursAt(s, sep, j)
  {
    FindFrom(s, sep, 0)
  }

  /** Whether `sep` occurs anywhere in `s`. */
  predicate Contains(s: string, sep: string) {
    exists j :: 0 <= j <= |s| && OccursAt(s, sep, j)
  }

  /** strings.Split for a non-empty separator: the pieces between the occurrences of `sep`, scanning left to right. */
  function Split(s: string, sep: string): (parts: seq<string>)
    requires sep != []
    decreases |s|
    ensures |parts| >= 1
  {
    match Find(s, sep)
    case None => [s]
    case Some(i) => [s[..i]] + Split(s[i + |sep|..], sep)
  }

  /** strings.Join: the inverse of Split. */
  function Join(parts: seq<string>, sep: string): string {
    if |parts| == 0 then ""
    else if |parts| == 1 then parts[0]
    else parts[0] + sep + Join(parts[1..], sep)
  }

  /** A string cut around an occurrence of the separator. */
  lemma CutAt(s: string, sep: string, i: nat)
    requires OccursAt(s, sep, i)
    ensures s == s[..i] + sep + s[i + |sep|..]
  {
    assert s == s[..i] + s[i..i + |sep|] + s[i + |sep|..];
  }

  /** Joining the pieces of a split gives back the original string. */
  lemma {:induction false} JoinSplit(s: string, sep: string)
    requires sep != []
    ensures Join(Split(s, sep), sep) == s
    decreases |s|
  {
    var f := Find(s, sep);
    if f.Some? {
      var i := f.value;
      var rest := s[i + |sep|..];
      var tail := Split(rest, sep);
      assert Split(s, sep) == [s[..i]] + tail;
      assert Join(tail, sep) == rest by {
        JoinSplit(rest, sep);
      }
      JoinCons(s[..i], tail, sep);
      CutAt(s, sep, i);
    }
  }

  /** Joining a first piece in front of at least one more. */
  lemma JoinCons(head: string, tail: seq<string>, sep: string)
    requires |tail| >= 1
    ensures Join([head] + tail, sep) == head + sep + Join(tail, sep)
  {
    assert ([head] + tail)[1..] == tail;
  }

  /** The text before the first occurrence of `sep` does not contain `sep`. */
  lemma HeadAvoidsSeparator(s: string, sep: string, i: nat)
    requires sep != [] && Find(s, sep) == Some(i)
    ensures !Contains(s[..i], sep)
  {
    var head := s[..i];
    forall j | 0 <= j <= |head|
      ensures !OccursAt(head, sep, j)
    {
      if OccursAt(head, sep, j) {
        assert s[j..j + |sep|] == head[j..j + |sep|];
        assert OccursAt(s, sep, j);
      }
    }
  }

  /** No piece of a split contains the separator. */
  lemma {:induction false} SplitPiecesAvoidSeparator(s: string, sep: string)
    requires sep != []
    ensures forall k :: 0 <= k < |Split(s, sep)| ==> !Contains(Split(s, sep)[k], sep)
    decreases |s|
  {
    var f := Find(s, sep);
    if f.Some? {
      var i := f.value;
      var rest := s[i + |sep|..];
      SplitPiecesAvoidSeparator(rest, sep);
      HeadAvoidsSeparator(s, sep, i);
      assert Split(s, sep) == [s[..i]] + Split(rest, sep);
    }
  }

  /** A string without the separator's first char cannot contain the separator. */
  lemma NoOccurrence(s: string, sep: string)
    requires sep != [] && sep[0] !in s
    ensures Find(s, sep) == None
  {
    forall j | 0 <= j <= |s| ensures !OccursAt(s, sep, j) {
      if j + |sep| <= |s| {
        assert s[j..j + |sep|][0] == s[j];
      }
    }
  }

  /** The separator right after a piece free of its first char is the first occurrence. */
  lemma FindAfterPiece(p: string, sep: string, rest: string)
    requires sep != [] && sep[0] !in p
    ensures Find(p + sep + rest, sep) == Some(|p|)
  {
    var s := p + sep + rest;
    assert s[|p|..|p| + |sep|] == sep;
    assert OccursAt(s, sep, |p|);
    forall j | 0 <= j < |p| ensures !OccursAt(s, sep, j) {
      assert s[j] == p[j];
      if j + |sep| <= |s| {
        assert s[j..j + |sep|][0] == s[j];
      }
    }
  }

  /** A piece free of the separator's first char, then the separator, splits off as the first piece. */
  lemma SplitCons(p: string, sep: string, rest: string)
    requires sep != [] && sep[0] !in p
    ensures Split(p + sep + rest, sep) == [p] + Split(rest, sep)
  {
    var s := p + sep + rest;
    FindAfterPiece(p, sep, rest);
    assert s[..|p|] == p;
    assert s[|p| + |sep|..] == rest;
  }

  /** Splitting a join of pieces that avoid the separator's first char gives back the pieces. */
  lemma {:induction false} SplitJoin(parts: seq<string>, sep: string)
    requires sep != [] && |parts| >= 1
    requires forall k :: 0 <= k < |parts| ==> sep[0] !in parts[k]
    ensures Split(Join(parts, sep), sep) == parts
    decreases |parts|
  {
    if |parts| == 1 {
      NoOccurrence(parts[0], sep);
    } else {
      var head, rest := parts[0], Join(parts[1..], sep);
      var s := head + sep + rest;
      assert Join(parts, sep) == s;
      FindAfterPiece(head, sep, rest);
      assert s[..|head|] == head;
      assert s[|head| + |sep|..] == rest;
      assert Split(s, sep) == [head] + Split(rest, sep);
      SplitJoin(parts[1..], sep);
      assert parts == [head] + parts[1..];
    }
  }

  /** The last piece of a join follows the last separator. */
  lemma {:induction false} JoinLast(parts: seq<string>, sep: string)
    requires |parts| >= 2
    ensures Join(parts, sep) == Join(parts[..|parts| - 1], sep) + sep + parts[|parts| - 1]
    decreases |parts|
  {
    if |parts| > 2 {
      var n := |parts|;
      JoinLast(parts[1..], sep);
      assert parts[1..][..n - 2] == parts[..n - 1][1..];
      assert parts[..n - 1][0] == parts[0];
    } else {
      assert parts[..1] == [parts[0]];
    }
  }

  /** A char found neither in the pieces nor in the separator is not in their join. */
  lemma {:induction false} CharNotInJoin(parts: seq<string>, sep: string, c: char)
    requires c !in sep
    requires forall k :: 0 <= k < |parts| ==> c !in parts[k]
    ensures c !in Join(parts, sep)
    decreases |parts|
  {
    if |parts| > 1 {
      CharNotInJoin(parts[1..], sep, c);
      assert Join(parts, sep) == parts[0] + sep + Join(parts[1..], sep);
    }
  }

  /** When `s` holds `sep`, the last piece of its split is what follows the last `sep`, and holds none. */
  lemma LastPiece(s: string, sep: string)
    requires sep != [] && |Split(s, sep)| >= 2
    ensures var last := Split(s, sep)[|Split(s, sep)| - 1];
            |last| + |sep| <= |s| && s[|s| - |last| - |sep|..] == sep + last && !Contains(last, sep)
  {
    var parts := Split(s, sep);
    var n := |parts|;
    var head, last := Join(parts[..n - 1], sep), parts[n - 1];
    assert s == head + sep + last by {
      JoinSplit(s, sep);
      JoinLast(parts, sep);
    }
    assert !Contains(last, sep) by {
      SplitPiecesAvoidSeparator(s, sep);
    }
    SuffixAfter(s, head, sep, last);
  }

  /** In `a + b + c`, what follows `a` is `b + c`. */
  lemma SuffixAfter(s: string, a: string, b: string, c: string)
    requires s == a + b + c
    ensures |s| - |c| - |b| == |a| && s[|a|..] == b + c
  {
  }

  /** strings.SplitN(s, sep, 2): the text before and after the first `sep`, or just `s` when there is none. */
  function SplitOnce(s: string, sep: string): (parts: seq<string>)
    requires sep != []
    ensures 1 <= |parts| <= 2
    ensures |parts| == 1 <==> Find(s, sep).None?
    ensures |parts| == 1 ==> parts[0] == s
    ensures |parts| == 2 ==> parts[0] + sep + parts[1] == s && !Contains(parts[0], sep)
  {
    match Find(s, sep)
    case None => [s]
    case Some(i) =>
      HeadAvoidsSeparator(s, sep, i);
      assert s == s[..i] + s[i..i + |sep|] + s[i + |sep|..];
      [s[..i], s[i + |sep|..]]
  }

  /** Cutting at a separator that `p` does not start to hold gives back `p` and the rest. */
  lemma SplitOnceAt(p: string, sep: string, rest: string)
    requires sep != [] && sep[0] !in p
    ensures SplitOnce(p + sep + rest, sep) == [p, rest]
  {
    var s := p + sep + rest;
    FindAfterPiece(p, sep, rest);
    assert s[..|p|] == p;
    assert s[|p| + |sep|..] == rest;
  }


  // ---------------------------------------------------------------------------
  // Decimal numbers (fmt's %d, and the reading a client does of Content-Length)

  predicate IsDigit(c: char) {
    '0' <= c <= '9'
  }

  function DigitChar(d: nat): char
    requires d < 10
  {
    ('0' as int + d) as char
  }

  /** The decimal spelling of `n`, without leading zeros. */
  function NatToString(n: nat): (r: string)
    ensures |r| >= 1
    ensures forall i :: 0 <= i < |r| ==> IsDigit(r[i])
    ensures n > 0 ==> r[0] != '0'
    decreases n
  {
    if n < 10 then [DigitChar(n)] else NatToString(n / 10) + [DigitChar(n % 10)]
  }

  /** fmt's %d for a (possibly negative) int. */
  function IntToString(i: int): string {
    if i < 0 then "-" + NatToString(-i) else NatToString(i)
  }

  function DigitsValue(s: string): nat
    requires forall i :: 0 <= i < |s| ==> IsDigit(s[i])
  {
    if s == [] then 0
    else
      assert IsDigit(s[|s| - 1]);
      10 * DigitsValue(s[..|s| - 1]) + (s[|s| - 1] as int - '0' as int)
  }

  /** Reads a non-empty run of decimal digits. */
  function ParseNat(s: string): Option<nat> {
    if s != [] && forall i :: 0 <= i < |s| ==> IsDigit(s[i]) then Some(DigitsValue(s)) else None
  }

  /** Reading back the decimal spelling of `n` gives `n`. */
  lemma {:induction false} ParseNatToString(n: nat)
    ensures ParseNat(NatToString(n)) == Some(n)
    decreases n
  {
    var s := NatToString(n);
    if n < 10 {
      assert s[..|s| - 1] == [];
      assert DigitsValue(s) == n;
    } else {
      ParseNatToString(n / 10);
      assert s[..|s| - 1] == NatToString(n / 10);
      assert DigitsValue(s) == 10 * (n / 10) + n % 10;
    }
  }
}
