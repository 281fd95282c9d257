/**
 * Routing a transferred file by its name: the extension is cut off the name, and exactly one profile of
 * the table must accept it.
 */
module BleRouting {
  import opened Bytes
  import opened BleTransfer

  const DOT: byte := 0x2e
  const SLASH: byte := 0x2f
  const BACKSLASH: byte := 0x5c
  const EXTENSION_CAP := 16

  /** A profile of a running app and the extensions it accepts. */
  datatype Entry = Entry(profile: Profile, extensions: seq<seq<byte>>)

  /** A name ends before its first zero byte. */
  function CString(name: seq<byte>): (text: seq<byte>)
    ensures |text| <= |name| && 0 !in text
  {
    if name == [] || name[0] == 0 then [] else [name[0]] + CString(name[1..])
  }

  /** What comes before the first zero byte is the name; a name without one is itself. */
  lemma {:induction false} CStringExact(text: seq<byte>, rest: seq<byte>)
    requires 0 !in text
    ensures CString(text) == text && CString(text + [0] + rest) == text
    decreases |text|
  {
    if text == [] {
      assert ([] + [0] + rest)[0] == 0;
    } else {
      CStringExact(text[1..], rest);
      assert (text + [0] + rest)[1..] == text[1..] + [0] + rest;
      assert [text[0]] + text[1..] == text;
    }
  }

  // ---------------------------------------------------------------- the extension of a name

  /** The last dot and what follows it, which is something. */
  predicate Ends(text: seq<byte>, extension: seq<byte>)
  {
    && 2 <= |extension| <= |text| && text[|text| - |extension|..] == extension
    && extension[0] == DOT && DOT !in extension[1..]
  }

  lemma NoLaterDot(text: seq<byte>, extension: seq<byte>)
    requires Ends(text, extension)
    ensures text[|text| - |extension|] == DOT
    ensures forall k :: |text| - |extension| < k < |text| ==> text[k] != DOT
  {
    var at := |text| - |extension|;
    forall k | at < k < |text| ensures text[k] != DOT {
      assert text[k] == extension[1..][k - at - 1];
    }
  }

  lemma EndsOnce(text: seq<byte>, a: seq<byte>, b: seq<byte>)
    requires Ends(text, a) && Ends(text, b)
    ensures a == b
  {
    NoLaterDot(text, a);
    NoLaterDot(text, b);
  }

  predicate WellNamed(text: seq<byte>, extension: seq<byte>)
  {
    && 0 < |text| < NAME_MAX && SLASH !in text && BACKSLASH !in text
    && Ends(text, extension) && |extension| < EXTENSION_CAP
  }

  /** The same with the characters written out: no slash, no backslash, an extension of a dot and 1 to 14 bytes. */
  lemma WellNamedMeans(text: seq<byte>, extension: seq<byte>)
    ensures WellNamed(text, extension) <==>
            && 0 < |text| < 96 && 0x2f !in text && 0x5c !in text
            && 2 <= |extension| < 16 && |extension| <= |text| && text[|text| - |extension|..] == extension
            && extension[0] == 0x2e && 0x2e !in extension[1..]
  {
  }

  /** The position of the last dot. */
  method LastDot(text: seq<byte>) returns (found: bool, at: nat)
    ensures found ==> at < |text| && text[at] == DOT && DOT !in text[at + 1..]
    ensures !found ==> DOT !in text
  {
    at := |text|;
    while at > 0
      invariant at <= |text| && DOT !in text[at..]
    {
      at := at - 1;
      if text[at] == DOT {
        return true, at;
      }
      assert text[at..] == [text[at]] + text[at + 1..];
    }
    assert text[0..] == text;
    found := false;
  }

  /** The extension, or the refusal of a name that is empty, too long, a path, or has none that fits. */
  method ParseFileName(text: seq<byte>) returns (ok: bool, extension: seq<byte>)
    ensures ok ==> WellNamed(text, extension)
    ensures !ok ==> forall e :: !WellNamed(text, e)
  {
    extension := [];
    if text == [] || |text| >= NAME_MAX || SLASH in text || BACKSLASH in text {
      return false, extension;
    }
    var found, at := LastDot(text);
    if !found || at + 1 == |text| {
      forall e ensures !WellNamed(text, e) {
        NoExtension(text, e);
      }
      return false, extension;
    }
    assert text[at..][1..] == text[at + 1..];
    forall e | Ends(text, e) ensures e == text[at..] {
      EndsOnce(text, e, text[at..]);
    }
    if |text| - at >= EXTENSION_CAP {
      return false, extension;
    }
    ok, extension := true, text[at..];
  }

  lemma NoExtension(text: seq<byte>, extension: seq<byte>)
    requires DOT !in text || (text != [] && text[|text| - 1] == DOT)
    ensures !Ends(text, extension)
  {
    if 2 <= |extension| <= |text| && text[|text| - |extension|..] == extension {
      var tail := extension[1..];
      assert tail[|tail| - 1] == text[|text| - 1];
      assert extension[0] == text[|text| - |extension|];
    }
  }

  // ---------------------------------------------------------------- the profile of an extension

  /** How often a list of extensions has one. */
  function Accepts(extensions: seq<seq<byte>>, extension: seq<byte>): nat
  {
    if extensions == [] then 0
    else
      Accepts(extensions[..|extensions| - 1], extension) + (if extensions[|extensions| - 1] == extension then 1 else 0)
  }

  /** How often the profiles of a table accept an extension. */
  function AllAccept(table: seq<Entry>, extension: seq<byte>): nat
  {
    if table == [] then 0
    else AllAccept(table[..|table| - 1], extension) + Accepts(table[|table| - 1].extensions, extension)
  }

  datatype Match = NoMatch | Several | One(index: nat)

  /** Is this what the first profiles, and the first extensions of the next, say? */
  predicate MatchSoFar(table: seq<Entry>, n: nat, extension: seq<byte>, count: nat, found: Option<nat>)
    requires n <= |table|
  {
    && count <= 1 && (found.Some? <==> count == 1)
    && (found.Some? ==> found.value < |table| && Accepts(table[found.value].extensions, extension) >= 1)
  }

  lemma {:induction false} AcceptsGrows(extensions: seq<seq<byte>>, n: nat, extension: seq<byte>)
    requires n <= |extensions|
    ensures Accepts(extensions[..n], extension) <= Accepts(extensions, extension)
    decreases |extensions|
  {
    if n < |extensions| {
      AcceptsGrows(extensions[..|extensions| - 1], n, extension);
      assert extensions[..|extensions| - 1][..n] == extensions[..n];
    } else {
      assert extensions[..n] == extensions;
    }
  }

  lemma {:induction false} AllAcceptGrows(table: seq<Entry>, n: nat, extension: seq<byte>)
    requires n <= |table|
    ensures AllAccept(table[..n], extension) <= AllAccept(table, extension)
    decreases |table|
  {
    if n < |table| {
      AllAcceptGrows(table[..|table| - 1], n, extension);
      assert table[..|table| - 1][..n] == table[..n];
    } else {
      assert table[..n] == table;
    }
  }

  /** The one profile that accepts the extension, and only once. */
  method Lookup(table: seq<Entry>, extension: seq<byte>) returns (r: Match)
    ensures r == NoMatch <==> AllAccept(table, extension) == 0
    ensures r == Several <==> AllAccept(table, extension) >= 2
    ensures r.One? ==> r.index < |table| && Accepts(table[r.index].extensions, extension) == 1
  {
    var found: Option<nat> := None;
    for i := 0 to |table|
      invariant MatchSoFar(table, i, extension, AllAccept(table[..i], extension), found)
    {
      var extensions := table[i].extensions;
      assert table[..i + 1][..i] == table[..i];
      AllAcceptGrows(table, i + 1, extension);
      for j := 0 to |extensions|
        invariant MatchSoFar(table, i, extension,
                             AllAccept(table[..i], extension) + Accepts(extensions[..j], extension), found)
      {
        assert extensions[..j + 1][..j] == extensions[..j];
        AcceptsGrows(extensions, j + 1, extension);
        if extensions[j] == extension {
          if found.Some? {
            return Several;
          }
          found := Some(i);
        }
      }
      assert extensions[..|extensions|] == extensions;
    }
    assert table[..|table|] == table;
    if found.None? {
      return NoMatch;
    }
    AcceptedWithin(table, found.value, extension);
    r := One(found.value);
  }

  lemma {:induction false} AcceptedWithin(table: seq<Entry>, i: nat, extension: seq<byte>)
    requires i < |table|
    ensures Accepts(table[i].extensions, extension) <= AllAccept(table, extension)
  {
    AllAcceptGrows(table, i + 1, extension);
    assert table[..i + 1][..i] == table[..i];
  }

  /** Profile `i` is the one that accepts the extension of the name, and only once, and its app is known. */
  predicate RoutesTo(name: seq<byte>, table: seq<Entry>, known: nat -> bool, extension: seq<byte>, i: nat)
  {
    && WellNamed(CString(name), extension) && AllAccept(table, extension) == 1
    && i < |table| && Accepts(table[i].extensions, extension) == 1 && known(table[i].profile.slot)
  }

  /**
   * The route of a name: ambiguous if its extension is accepted more than once, else to the one profile that
   * accepts it, if there is one and its app is still known.
   */
  ghost predicate IsRoute(name: seq<byte>, table: seq<Entry>, known: nat -> bool, r: Routing)
  {
    && (r == Ambiguous <==> exists e :: WellNamed(CString(name), e) && AllAccept(table, e) >= 2)
    && (r.Routed? <==> exists e, i: nat :: RoutesTo(name, table, known, e, i))
    && (r.Routed? ==> exists e, i: nat :: RoutesTo(name, table, known, e, i) && r.profile == table[i].profile)
  }

  method RouteName(name: seq<byte>, table: seq<Entry>, known: nat -> bool) returns (r: Routing)
    ensures IsRoute(name, table, known, r)
  {
    var text := CString(name);
    var ok, extension := ParseFileName(text);
    if !ok {
      return Unroutable;
    }
    forall e | WellNamed(text, e) ensures e == extension {
      EndsOnce(text, e, extension);
    }
    var m := Lookup(table, extension);
    match m {
      case Several => return Ambiguous;
      case NoMatch => return Unroutable;
      case One(i) =>
        forall k: nat | k < |table| && Accepts(table[k].extensions, extension) == 1 ensures k == i {
          OnlyOne(table, i, k, extension);
        }
        if !known(table[i].profile.slot) {
          return Unroutable;
        }
        assert RoutesTo(name, table, known, extension, i);
        return Routed(table[i].profile);
    }
  }

  /** A name has one route. */
  lemma RouteIsUnique(name: seq<byte>, table: seq<Entry>, known: nat -> bool, a: Routing, b: Routing)
    requires IsRoute(name, table, known, a) && IsRoute(name, table, known, b)
    ensures a == b
  {
    if a.Routed? && b.Routed? {
      var e, i: nat :| RoutesTo(name, table, known, e, i) && a.profile == table[i].profile;
      var f, k: nat :| RoutesTo(name, table, known, f, k) && b.profile == table[k].profile;
      EndsOnce(CString(name), e, f);
      OnlyOne(table, i, k, e);
    }
  }

  /** The whole beginning of a session: route the name, then open the staging file of its profile. */
  method BeginNamed(t: Transfer, name: seq<byte>, alloc: nat, table: seq<Entry>, known: nat -> bool, io: Io)
    returns (result: int, ghost route: Routing)
    modifies t
    ensures IsRoute(name, table, known, route)
    ensures (result, t.Value()) == BeginInternal(old(t.Value()), name, alloc, route, io)
  {
    var r := RouteName(name, table, known);
    route := r;
    result := t.OpenSession(name, alloc, r, io);
  }

  lemma BothCount(table: seq<Entry>, i: nat, k: nat, extension: seq<byte>)
    requires i < k < |table|
    ensures Accepts(table[i].extensions, extension) + Accepts(table[k].extensions, extension)
            <= AllAccept(table, extension)
  {
    AcceptedWithin(table[..k], i, extension);
    AllAcceptGrows(table, k + 1, extension);
    assert table[..k + 1][..k] == table[..k];
  }

  lemma OnlyOne(table: seq<Entry>, i: nat, k: nat, extension: seq<byte>)
    requires i < |table| && k < |table| && AllAccept(table, extension) == 1
    requires Accepts(table[i].extensions, extension) == 1 && Accepts(table[k].extensions, extension) == 1
    ensures i == k
  {
    if i < k {
      BothCount(table, i, k, extension);
    } else if k < i {
      BothCount(table, k, i, extension);
    }
  }
}
