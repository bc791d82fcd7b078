/** Resource schemata: lists of `key=value` parts, and the map that such a list denotes. */
module RdtSchema {
  import opened Common
  import opened Numbers

  datatype Pair = Pair(key: int32, value: int32)

  /** A decimal key, an equals sign, a hexadecimal value. */
  function ReadPair(s: string): Option<Pair> {
    var rest := Convert(s, 10).rest;
    if rest == "" || rest[0] != '=' then None
    else Some(Pair(ToInt(Strtoll(s, 10)), ToInt(Strtoll(rest[1..], 16))))
  }

  /** The parts that are read: up to the first empty one. */
  function Parts(s: string): seq<string>
    decreases |s|
  {
    var n := Find(s, ';');
    if n == 0 then [] else if n == |s| then [s] else [s[..n]] + Parts(s[n + 1..])
  }

  /** No part is empty, except that one semicolon may stand at the end. */
  predicate WellFormed(s: string)
    decreases |s|
  {
    var n := Find(s, ';');
    s == "" || (n > 0 && (n == |s| || WellFormed(s[n + 1..])))
  }

  /** What the source counts: semicolons, and a last character that is none. */
  function Count(s: string): nat {
    if s == "" then 0 else (if s[0] == ';' || |s| == 1 then 1 else 0) + Count(s[1..])
  }

  lemma {:induction false} CountSkips(s: string, n: nat)
    requires n < |s| && forall i :: 0 <= i < n ==> s[i] != ';'
    ensures Count(s) == Count(s[n..])
  {
    if n > 0 {
      CountSkips(s[1..], n - 1);
      assert s[1..][n - 1..] == s[n..];
    } else {
      assert s[0..] == s;
    }
  }

  /** The count is enough room for the parts, and is exact for the well-formed lists only. */
  lemma {:induction false} CountParts(s: string)
    ensures |Parts(s)| <= Count(s)
    ensures WellFormed(s) <==> |Parts(s)| == Count(s)
    decreases |s|
  {
    var n := Find(s, ';');
    if 0 < n == |s| {
      CountSkips(s, n - 1);
      assert s[n - 1..] == [s[n - 1]] && s[n - 1..][1..] == "";
    } else if 0 < n {
      CountSkips(s, n);
      assert s[n..][1..] == s[n + 1..];
      CountParts(s[n + 1..]);
    }
  }

  /** For example: one part is read, and two are searched. */
  lemma EmptyPartCounts()
    ensures Parts("1=1;;") == ["1=1"] && Count("1=1;;") == 2 && !WellFormed("1=1;;")
  {
    var s := "1=1;;";
    FindIs(s, ';', 3);
    FindIs(";", ';', 0);
    assert s[4..] == ";" && s[..3] == "1=1";
    assert Count(s) == Count(s[1..]) == Count(s[1..][1..]) == Count(s[1..][1..][1..]);
    assert s[1..][1..][1..] == ";;" && ";;"[1..] == ";" && ";"[1..] == "";
  }

  function ReadAll(parts: seq<string>): (pairs: Option<seq<Pair>>)
    ensures pairs.Some? ==> |pairs.value| == |parts|
  {
    if parts == [] then Some([])
    else
      var first, rest := ReadPair(parts[0]), ReadAll(parts[1..]);
      if first.None? || rest.None? then None else Some([first.value] + rest.value)
  }

  function PairsOf(s: string): Option<seq<Pair>> { ReadAll(Parts(s)) }

  predicate Distinct(ps: seq<Pair>) {
    forall i, j :: 0 <= i < j < |ps| ==> ps[i].key != ps[j].key
  }

  predicate NoNegativeKey(ps: seq<Pair>) { forall p :: p in ps ==> p.key >= 0 }

  /** A well-formed list with distinct keys that are not negative, as far as it can be read. */
  predicate Proper(s: string) {
    WellFormed(s) && (PairsOf(s).Some? ==> Distinct(PairsOf(s).value) && NoNegativeKey(PairsOf(s).value))
  }

  /** The map a list of pairs denotes. */
  function MapOf(ps: seq<Pair>): map<int32, int32>
    requires Distinct(ps)
  {
    map p | p in ps :: p.key := p.value
  }

  /** The map a schema denotes. */
  function Denotes(s: string): Option<map<int32, int32>>
    requires Proper(s)
  {
    if PairsOf(s).None? then None else Some(MapOf(PairsOf(s).value))
  }

  // ---- Counting ----

  function PairSet(ps: seq<Pair>): set<Pair> { set p | p in ps }

  lemma {:induction false} PairSetSize(ps: seq<Pair>)
    requires Distinct(ps)
    ensures |PairSet(ps)| == |ps|
  {
    if ps != [] {
      var rest := ps[1..];
      PairSetSize(rest);
      assert ps == [ps[0]] + rest;
      assert PairSet(ps) == {ps[0]} + PairSet(rest);
      assert ps[0] !in rest;
    }
  }

  lemma SamePair(ps: seq<Pair>, p: Pair, q: Pair)
    requires Distinct(ps) && p in ps && q in ps && p.key == q.key
    ensures p == q
  {
  }

  /** Two lists denote the same map exactly when they are equally long and all pairs of one are in the other. */
  lemma SameMap(a: seq<Pair>, b: seq<Pair>)
    requires Distinct(a) && Distinct(b)
    ensures MapOf(a) == MapOf(b) <==> |a| == |b| && forall p :: p in b ==> p in a
  {
    PairSetSize(a);
    PairSetSize(b);
    hide Distinct;
    var x, y := PairSet(a), PairSet(b);
    if |a| == |b| && forall p :: p in b ==> p in a {
      assert y <= x;
      assert |x - y| == |x| - |y|;
      assert x == y;
      SetsGiveMaps(a, b);
    }
    if MapOf(a) == MapOf(b) {
      MapsGiveSets(a, b);
      MapHas(b, a);
    }
  }

  lemma SetsGiveMaps(a: seq<Pair>, b: seq<Pair>)
    requires Distinct(a) && Distinct(b) && PairSet(a) == PairSet(b)
    ensures MapOf(a) == MapOf(b)
  {
    assert forall p :: p in a <==> p in PairSet(a);
    assert forall p :: p in b <==> p in PairSet(b);
  }

  lemma MapsGiveSets(a: seq<Pair>, b: seq<Pair>)
    requires Distinct(a) && Distinct(b) && MapOf(a) == MapOf(b)
    ensures PairSet(a) == PairSet(b)
  {
    MapHas(a, b);
    MapHas(b, a);
  }

  lemma MapHas(a: seq<Pair>, b: seq<Pair>)
    requires Distinct(a) && Distinct(b) && MapOf(a) == MapOf(b)
    ensures forall p :: p in a ==> p in b
  {
    forall p | p in a ensures p in b {
      assert p.key in MapOf(a) && MapOf(a)[p.key] == p.value;
      assert p.key in MapOf(b);
    }
  }
}
