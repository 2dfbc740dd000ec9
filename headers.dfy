/**
  The header map of app/http.go: a Go map from field name to value, read with a
  case-insensitive Get and written with a Set that trims and canonicalises new names,
  overwrites an existing case variant in place, and deletes on an empty value.
  Field names are case-insensitive (section 5.1 of RFC 9110).
*/
module HeaderMap {
  import opened Wrappers
  import opened Text

  const HeaderAcceptEncoding: string := "Accept-Encoding"
  const HeaderContentLength: string := "Content-Length"
  const HeaderContentType: string := "Content-Type"
  const HeaderContentEncoding: string := "Content-Encoding"
  const HeaderUserAgent: string := "User-Agent"
  const HeaderConnection: string := "Connection"

  const ContentTypeTextPlain: string := "text/plain"
  const ContentTypeApplicationOctetStream: string := "application/octet-stream"

  const ConnectionKeepAlive: string := "keep-alive"
  const ConnectionClose: string := "close"

  /** A name of token characters, in canonical case and trimmed, is stored by Set exactly as written. */
  lemma StoredAsWritten(name: string)
    requires forall i :: 0 <= i < |name| ==> IsTokenChar(name[i])
    requires IsCanonicalCase(name, true) && Trimmed(name)
    ensures CanonicalHeaderKey(name) == name && TrimSpace(name) == name
  {
    CanonicalKeyFixed(name);
    TrimSpaceOfTrimmed(name);
  }

  /** "Connection" is Set exactly as written. */
  lemma ConnectionAsWritten()
    ensures CanonicalHeaderKey(HeaderConnection) == HeaderConnection && TrimSpace(HeaderConnection) == HeaderConnection
  {
    ConnectionName();
    StoredAsWritten(HeaderConnection);
  }

  lemma ConnectionName()
    ensures forall i :: 0 <= i < |HeaderConnection| ==> IsTokenChar(HeaderConnection[i])
    ensures IsCanonicalCase(HeaderConnection, true) && Trimmed(HeaderConnection)
  {
  }

  type Entries = map<string, string>

  /** Some stored key case-folds to `k`. */
  predicate Folded(m: Entries, k: string) {
    exists hk :: hk in m && EqualFold(hk, k)
  }

  /** At most one stored key per case-folded name. */
  predicate OnePerName(m: Entries) {
    forall a, b :: a in m && b in m && EqualFold(a, b) ==> a == b
  }

  /** The invariant every map built by Set keeps: one key per case-folded name, no empty value. */
  predicate WellFormed(m: Entries) {
    OnePerName(m) && forall a :: a in m ==> m[a] != ""
  }

  /** What Get returns: the value of a stored key that case-folds to `k`, or ("", false). */
  ghost function Lookup(m: Entries, k: string): (r: (string, bool))
    ensures r.1 <==> Folded(m, k)
    ensures !r.1 ==> r.0 == ""
  {
    if Folded(m, k) then
      var hk :| hk in m && EqualFold(hk, k);
      (m[hk], true)
    else
      ("", false)
  }

  /** In a well-formed map the key that case-folds to `k` is unique, so Lookup returns its value. */
  lemma LookupFinds(m: Entries, k: string, hk: string)
    requires OnePerName(m) && hk in m && EqualFold(hk, k)
    ensures Lookup(m, k) == (m[hk], true)
  {
    EqualFoldEquivalence();
  }

  /** Lookup is case-insensitive: names that differ only in case find the same value. */
  lemma LookupIgnoresCase(m: Entries, a: string, b: string)
    requires OnePerName(m) && EqualFold(a, b)
    ensures Lookup(m, a) == Lookup(m, b)
  {
    EqualFoldEquivalence();
    if Folded(m, a) {
      var hk :| hk in m && EqualFold(hk, a);
      LookupFinds(m, a, hk);
      LookupFinds(m, b, hk);
    }
  }

  /** The empty name is found only when the empty string itself is a stored key. */
  lemma LookupEmptyName(m: Entries)
    ensures Lookup(m, "").1 <==> "" in m
  {
    if "" in m {
      assert EqualFold("", "");
    }
  }

  /** The new map after Set(k, v), as a function of the old one. */
  function Stored(m: Entries, k: string, v: string): Entries {
    if k == "" then m
    else if v == "" then m - {k}
    else
      var t := TrimSpace(k);
      if Folded(m, t) then (map hk | hk in m :: if EqualFold(hk, t) then v else m[hk])
      else m[CanonicalHeaderKey(t) := v]
  }

  /** Set with a non-empty value overwrites the existing case variant in place, keeping its stored casing. */
  lemma StoredOverwrites(m: Entries, k: string, v: string, hk: string)
    requires OnePerName(m) && k != "" && v != ""
    requires hk in m && EqualFold(hk, TrimSpace(k))
    ensures Stored(m, k, v) == m[hk := v]
  {
    var t := TrimSpace(k);
    assert Folded(m, t);
    var r := Stored(m, k, v);
    assert r == (map x | x in m :: if EqualFold(x, t) then v else m[x]);
    forall x | x in m ensures r[x] == m[hk := v][x] {
      if EqualFold(x, t) {
        assert EqualFold(x, hk) by { EqualFoldEquivalence(); }
      }
    }
  }

  /** Set with a non-empty value and no case variant stored inserts the trimmed name in canonical case. */
  lemma StoredInserts(m: Entries, k: string, v: string)
    requires k != "" && v != "" && !Folded(m, TrimSpace(k))
    ensures var c := CanonicalHeaderKey(TrimSpace(k));
            c !in m && EqualFold(c, TrimSpace(k)) && Stored(m, k, v) == m[c := v]
  {
    EqualFoldEquivalence();
  }

  /** Set keeps the map well formed: still one key per case-folded name and no empty value. */
  lemma StoredWellFormed(m: Entries, k: string, v: string)
    requires WellFormed(m)
    ensures WellFormed(Stored(m, k, v))
  {
    EqualFoldEquivalence();
    if k != "" && v != "" {
      var t := TrimSpace(k);
      if Folded(m, t) {
        var hk :| hk in m && EqualFold(hk, t);
        StoredOverwrites(m, k, v, hk);
      } else {
        StoredInserts(m, k, v);
      }
    }
  }

  /** After Set(k, v) with a non-empty value, Get of the trimmed name returns (v, true). */
  lemma StoredThenLookup(m: Entries, k: string, v: string)
    requires WellFormed(m) && k != "" && v != ""
    ensures Lookup(Stored(m, k, v), TrimSpace(k)) == (v, true)
  {
    EqualFoldEquivalence();
    StoredWellFormed(m, k, v);
    var t := TrimSpace(k);
    if Folded(m, t) {
      var hk :| hk in m && EqualFold(hk, t);
      StoredOverwrites(m, k, v, hk);
      LookupFinds(Stored(m, k, v), t, hk);
    } else {
      StoredInserts(m, k, v);
      LookupFinds(Stored(m, k, v), t, CanonicalHeaderKey(t));
    }
  }

  /** Set(k, v) with a non-empty value leaves the lookup of every name that is not a case variant of k unchanged. */
  lemma StoredKeepsOthers(m: Entries, k: string, v: string, other: string)
    requires WellFormed(m) && k != "" && v != ""
    requires !EqualFold(other, TrimSpace(k))
    ensures Lookup(Stored(m, k, v), other) == Lookup(m, other)
  {
    EqualFoldEquivalence();
    StoredWellFormed(m, k, v);
    var t := TrimSpace(k);
    var r := Stored(m, k, v);
    if Folded(m, t) {
      var hk :| hk in m && EqualFold(hk, t);
      StoredOverwrites(m, k, v, hk);
      if Folded(m, other) {
        var ok :| ok in m && EqualFold(ok, other);
        LookupFinds(m, other, ok);
        LookupFinds(r, other, ok);
      }
    } else {
      StoredInserts(m, k, v);
      var c := CanonicalHeaderKey(t);
      if Folded(m, other) {
        var ok :| ok in m && EqualFold(ok, other);
        LookupFinds(m, other, ok);
        LookupFinds(r, other, ok);
      } else {
        assert !Folded(r, other);
      }
    }
  }

  /**
    Set(k, "") deletes only the entry stored under exactly `k`: every other entry is kept,
    and a case variant of `k` survives.
  */
  lemma StoredEmptyDeletesExactKey(m: Entries, k: string)
    requires k != ""
    ensures Stored(m, k, "").Keys == m.Keys - {k}
    ensures forall x :: x in m && x != k ==> Stored(m, k, "")[x] == m[x]
    ensures WellFormed(m) && k in m ==> !Lookup(Stored(m, k, ""), k).1
  {
    EqualFoldEquivalence();
  }

  /** A name of blanks is trimmed to the empty name and stored under "", where Get("") then finds it. */
  lemma BlankNameStoresEmptyKey(v: string)
    requires v != ""
    ensures Stored(map[], " ", v) == map["" := v]
    ensures Lookup(Stored(map[], " ", v), "") == (v, true)
  {
    assert TrimSpace(" ") == "";
    assert CanonicalHeaderKey("") == "";
    assert !Folded(map[], "");
    LookupFinds(map["" := v], "", "");
  }

  // ---------------------------------------------------------------------------
  // Sequences of Set calls

  /** The map after Set(name, value) for each field in turn. */
  function StoredAll(m: Entries, fields: seq<(string, string)>): Entries {
    if fields == [] then m
    else
      var last := fields[|fields| - 1];
      Stored(StoredAll(m, fields[..|fields| - 1]), last.0, last.1)
  }

  /** Any sequence of Set calls keeps the map well formed. */
  lemma {:induction false} StoredAllWellFormed(m: Entries, fields: seq<(string, string)>)
    requires WellFormed(m)
    ensures WellFormed(StoredAll(m, fields))
    decreases |fields|
  {
    if fields != [] {
      var last := fields[|fields| - 1];
      StoredAllWellFormed(m, fields[..|fields| - 1]);
      StoredWellFormed(StoredAll(m, fields[..|fields| - 1]), last.0, last.1);
    }
  }

  /**
    Repeated Set calls on case variants of one name leave a single entry for that name,
    holding the last value.
  */
  lemma CaseVariantsKeepLastValue(m: Entries, name: string, fields: seq<(string, string)>)
    requires WellFormed(m) && |fields| >= 1
    requires forall i :: 0 <= i < |fields| ==> fields[i].0 != "" && fields[i].1 != ""
    requires forall i :: 0 <= i < |fields| ==> EqualFold(TrimSpace(fields[i].0), name)
    ensures WellFormed(StoredAll(m, fields))
    ensures Lookup(StoredAll(m, fields), name) == (fields[|fields| - 1].1, true)
  {
    var last := fields[|fields| - 1];
    var before := StoredAll(m, fields[..|fields| - 1]);
    StoredAllWellFormed(m, fields);
    StoredAllWellFormed(m, fields[..|fields| - 1]);
    StoredThenLookup(before, last.0, last.1);
    LookupIgnoresCase(Stored(before, last.0, last.1), TrimSpace(last.0), name);
  }

  /** Fields with trimmed, non-empty names that are pairwise distinct up to case, and non-empty values. */
  predicate DistinctFields(fields: seq<(string, string)>) {
    && (forall i :: 0 <= i < |fields| ==> fields[i].0 != "" && Trimmed(fields[i].0) && fields[i].1 != "")
    && (forall i, j :: 0 <= i < j < |fields| ==> !EqualFold(fields[i].0, fields[j].0))
  }

  /** Storing fields with distinct names into an empty map makes every one of them retrievable by its name. */
  lemma {:induction false} StoredAllFindsEach(fields: seq<(string, string)>)
    requires DistinctFields(fields)
    ensures WellFormed(StoredAll(map[], fields))
    ensures forall i :: 0 <= i < |fields| ==> Lookup(StoredAll(map[], fields), fields[i].0) == (fields[i].1, true)
    decreases |fields|
  {
    StoredAllWellFormed(map[], fields);
    if fields != [] {
      var n := |fields| - 1;
      var init := fields[..n];
      var last := fields[n];
      assert DistinctFields(init) by {
        forall i | 0 <= i < n ensures init[i] == fields[i] { }
      }
      StoredAllFindsEach(init);
      StoredAllWellFormed(map[], init);
      var before := StoredAll(map[], init);
      assert StoredAll(map[], fields) == Stored(before, last.0, last.1);
      forall i | 0 <= i < |fields|
        ensures Lookup(Stored(before, last.0, last.1), fields[i].0) == (fields[i].1, true)
      {
        if i == n {
          FoundAfterSet(before, last.0, last.1);
        } else {
          assert init[i] == fields[i];
          assert !EqualFold(fields[i].0, last.0);
          StillFoundAfterSet(before, last.0, last.1, fields[i].0);
        }
      }
    }
  }

  /** StoredThenLookup for a name that is already trimmed. */
  lemma FoundAfterSet(m: Entries, k: string, v: string)
    requires WellFormed(m) && k != "" && Trimmed(k) && v != ""
    ensures Lookup(Stored(m, k, v), k) == (v, true)
  {
    TrimSpaceOfTrimmed(k);
    StoredThenLookup(m, k, v);
  }

  /** StoredKeepsOthers for a name that is already trimmed. */
  lemma StillFoundAfterSet(m: Entries, k: string, v: string, other: string)
    requires WellFormed(m) && k != "" && Trimmed(k) && v != "" && !EqualFold(other, k)
    ensures Lookup(Stored(m, k, v), other) == Lookup(m, other)
  {
    TrimSpaceOfTrimmed(k);
    StoredKeepsOthers(m, k, v, other);
  }

  // ---------------------------------------------------------------------------
  // The Headers object

  /** A Go `Headers` value: a reference to a mutable map. */
  class Headers {
    var entries: Entries

    ghost predicate Valid()
      reads this
    {
      WellFormed(entries)
    }

    /** make(Headers) */
    constructor ()
      ensures entries == map[] && Valid()
    {
      entries := map[];
    }

    /** Headers.Set (app/http.go:60-76). */
    method Set(k: string, v: string)
      requires Valid()
      modifies this
      ensures Valid()
      ensures entries == Stored(old(entries), k, v)
    {
      StoredWellFormed(entries, k, v);
      if k == "" {
        return;
      } else if v == "" {
        entries := entries - {k};
        return;
      }
      var t := TrimSpace(k);
      var rest := entries.Keys;
      while rest != {}
        invariant rest <= entries.Keys
        invariant entries == old(entries)
        invariant forall hk :: hk in entries && hk !in rest ==> !EqualFold(hk, t)
        decreases rest
      {
        var hk :| hk in rest;
        if EqualFold(hk, t) {
          StoredOverwrites(entries, k, v, hk);
          entries := entries[hk := v];
          return;
        }
        rest := rest - {hk};
      }
      entries := entries[CanonicalHeaderKey(t) := v];
    }
  }

  /** The entries of a possibly nil map: Go reads a nil map as empty. */
  function EntriesOf(h: Headers?): Entries
    reads h
  {
    if h == null then map[] else h.entries
  }

  /**
    Headers.Get (app/http.go:49-58): scans the stored keys in map order and returns the value of
    the first one that case-folds to `k`, or ("", false). Reading a nil map is allowed in Go.
  */
  method Get(h: Headers?, k: string) returns (v: string, found: bool)
    ensures found <==> Folded(EntriesOf(h), k)
    ensures found ==> exists hk :: hk in EntriesOf(h) && EqualFold(hk, k) && EntriesOf(h)[hk] == v
    ensures !found ==> v == ""
    ensures h != null && h.Valid() ==> (v, found) == Lookup(h.entries, k)
  {
    if h == null {
      return "", false;
    }
    var rest := h.entries.Keys;
    while rest != {}
      invariant rest <= h.entries.Keys
      invariant forall hk :: hk in h.entries && hk !in rest ==> !EqualFold(hk, k)
      decreases rest
    {
      var hk :| hk in rest;
      if EqualFold(hk, k) {
        if h.Valid() {
          LookupFinds(h.entries, k, hk);
        }
        return h.entries[hk], true;
      }
      rest := rest - {hk};
    }
    return "", false;
  }

  // ---------------------------------------------------------------------------
  // NewResponseHeaders

  /** The request headers a response starts from (app/http.go:36-38). */
  const CopiedHeaders: seq<string> := [HeaderConnection]

  /** The map after copying each named request header with Get and Set. */
  ghost function CopiedInto(acc: Entries, req: Entries, names: seq<string>): Entries {
    if names == [] then acc
    else
      var n := names[|names| - 1];
      Stored(CopiedInto(acc, req, names[..|names| - 1]), n, Lookup(req, n).0)
  }

  /** The headers NewResponseHeaders builds from the request's headers. */
  ghost function ResponseHeaders(req: Entries): Entries {
    CopiedInto(map[], req, CopiedHeaders)
  }

  /** Set of a name that is stored as written, into an empty map. */
  lemma StoredIntoEmpty(name: string, v: string)
    requires name != "" && CanonicalHeaderKey(name) == name && TrimSpace(name) == name
    ensures Stored(map[], name, v) == if v == "" then map[] else map[name := v]
  {
    if v != "" {
      assert !Folded(map[], name);
    }
  }

  /**
    The response headers hold the request's Connection value under "Connection" when the request
    has a non-empty one, and are empty otherwise; no other request header is copied.
  */
  lemma ResponseHeadersCopyConnectionOnly(req: Entries)
    ensures var v := Lookup(req, HeaderConnection).0;
            ResponseHeaders(req) == if v == "" then map[] else map[HeaderConnection := v]
    ensures WellFormed(ResponseHeaders(req))
  {
    var v := Lookup(req, HeaderConnection).0;
    assert CopiedHeaders[..0] == [];
    assert CopiedInto(map[], req, CopiedHeaders[..0]) == map[];
    assert CopiedHeaders[0] == HeaderConnection;
    assert ResponseHeaders(req) == Stored(map[], HeaderConnection, v);
    ConnectionAsWritten();
    StoredIntoEmpty(HeaderConnection, v);
    StoredWellFormed(map[], HeaderConnection, v);
  }

  /** NewResponseHeaders (app/http.go:35-47). */
  method NewResponseHeaders(req: Headers?) returns (h: Headers)
    requires req != null ==> req.Valid()
    ensures fresh(h) && h.Valid()
    ensures h.entries == ResponseHeaders(EntriesOf(req))
  {
    h := new Headers();
    for i := 0 to |CopiedHeaders|
      invariant fresh(h) && h.Valid()
      invariant h.entries == CopiedInto(map[], EntriesOf(req), CopiedHeaders[..i])
    {
      var v, _ := Get(req, CopiedHeaders[i]);
      assert CopiedHeaders[..i + 1][..i] == CopiedHeaders[..i];
      h.Set(CopiedHeaders[i], v);
    }
    assert CopiedHeaders[..|CopiedHeaders|] == CopiedHeaders;
  }
}
