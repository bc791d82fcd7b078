/** Comparing two schemata: one is read into an array and sorted, the parts of the other are searched in it. */
module RdtCompare {
  import opened Common
  import opened RdtSchema

  /** The comparison function: a difference of C ints. */
  function Cmp(a: int32, b: int32): (d: int32)
    ensures d == 0 <==> a == b
    ensures a >= 0 && b >= 0 ==> d == a - b
  {
    ToInt(a - b)
  }

  function Insert(p: Pair, ps: seq<Pair>): (r: seq<Pair>)
    ensures multiset(r) == multiset(ps) + multiset{p}
  {
    if ps == [] then [p]
    else if Cmp(p.key, ps[0].key) <= 0 then [p] + ps
    else
      assert ps == [ps[0]] + ps[1..];
      [ps[0]] + Insert(p, ps[1..])
  }

  /** qsort. */
  function Sort(ps: seq<Pair>): (r: seq<Pair>)
    ensures multiset(r) == multiset(ps)
  {
    if ps == [] then []
    else
      assert ps == [ps[0]] + ps[1..];
      Insert(ps[0], Sort(ps[1..]))
  }

  predicate Sorted(ps: seq<Pair>) {
    forall i, j :: 0 <= i < j < |ps| ==> ps[i].key <= ps[j].key
  }

  /** In the order of keys that are not negative. */
  predicate Ordered(ps: seq<Pair>) { Sorted(ps) && NoNegativeKey(ps) }

  lemma ConsSorted(x: Pair, ps: seq<Pair>)
    requires Ordered(ps) && x.key >= 0 && forall q :: q in ps ==> x.key <= q.key
    ensures Ordered([x] + ps)
  {
  }

  lemma {:induction false} InsertKeeps(p: Pair, ps: seq<Pair>)
    requires Ordered(ps) && p.key >= 0
    ensures Ordered(Insert(p, ps))
  {
    if ps == [] {
    } else if Cmp(p.key, ps[0].key) <= 0 {
      assert ps[0] in ps;
      ConsSorted(p, ps);
    } else {
      assert ps[0] in ps;
      var rest := ps[1..];
      InsertKeeps(p, rest);
      var r := Insert(p, rest);
      hide Insert;
      forall q | q in r ensures ps[0].key <= q.key { assert q in multiset(r); }
      ConsSorted(ps[0], r);
    }
  }

  /** Without negative keys the difference does not overflow, and the order is that of the keys. */
  lemma {:induction false} SortSorts(ps: seq<Pair>)
    requires NoNegativeKey(ps)
    ensures Ordered(Sort(ps)) && |Sort(ps)| == |ps|
  {
    assert |multiset(Sort(ps))| == |multiset(ps)|;
    if ps != [] {
      SortSorts(ps[1..]);
      InsertKeeps(ps[0], Sort(ps[1..]));
    }
  }

  /** bsearch over the first `n` pairs. */
  method Search(kv: array<Pair>, n: nat, key: int32) returns (found: Option<nat>)
    requires n <= kv.Length
    ensures found.Some? ==> found.value < n && kv[found.value].key == key
    ensures found.None? && Ordered(kv[..n]) && key >= 0 ==> forall i :: 0 <= i < n ==> kv[i].key != key
  {
    ghost var ps := kv[..n];
    ghost var proper := Ordered(ps) && key >= 0;
    var low, high := 0, n;
    while low < high
      invariant low <= high <= n
      invariant proper ==> forall i :: 0 <= i < low ==> ps[i].key < key
      invariant proper ==> forall i :: high <= i < n ==> ps[i].key > key
    {
      var mid := (low + high) / 2;
      assert kv[mid] == ps[mid] && ps[mid] in ps;
      var d := Cmp(key, kv[mid].key);
      if d == 0 {
        return Some(mid);
      } else if d < 0 {
        high := mid;
      } else {
        low := mid + 1;
      }
    }
    found := None;
    assert forall i :: 0 <= i < n ==> kv[i] == ps[i];
  }

  method CountPartsOf(s: string) returns (n: nat)
    ensures n == Count(s)
  {
    n := 0;
    for i := 0 to |s|
      invariant n + Count(s[i..]) == Count(s)
    {
      if s[i] == ';' || i + 1 == |s| {
        n := n + 1;
      }
    }
  }

  /** strsep: the next part, and where the one behind it starts. */
  method NextPart(s: string, from: nat) returns (part: string, next: Option<nat>)
    requires from <= |s|
    ensures part == "" <==> Parts(s[from..]) == []
    ensures next.Some? ==> from < next.value <= |s|
    ensures part != "" ==> Parts(s[from..]) == [part] + if next.Some? then Parts(s[next.value..]) else []
  {
    hide Parts;
    var it := from;
    while it < |s| && s[it] != ';'
      invariant from <= it <= |s| && forall i :: from <= i < it ==> s[i] != ';'
    {
      it := it + 1;
    }
    part, next := s[from..it], if it < |s| then Some(it + 1) else None;
    PartAt(s, from, it);
  }

  lemma PartAt(s: string, from: nat, it: nat)
    requires from <= it <= |s| && (forall i :: from <= i < it ==> s[i] != ';') && (it < |s| ==> s[it] == ';')
    ensures from == it <==> Parts(s[from..]) == []
    ensures from < it == |s| ==> Parts(s[from..]) == [s[from..it]] + []
    ensures from < it < |s| ==> Parts(s[from..]) == [s[from..it]] + Parts(s[it + 1..])
  {
    var t, n := s[from..], it - from;
    FindIs(t, ';', n);
    PartsAre(t, n);
    hide Find, Parts;
    assert it == |s| ==> t == s[from..it];
    assert it < |s| ==> t[..n] == s[from..it] && t[n + 1..] == s[it + 1..];
  }

  lemma PartsAre(t: string, n: nat)
    requires n == Find(t, ';')
    ensures n == 0 <==> Parts(t) == []
    ensures 0 < n == |t| ==> Parts(t) == [t] + []
    ensures 0 < n < |t| ==> Parts(t) == [t[..n]] + Parts(t[n + 1..])
  {
    hide Find;
    assert [t] + [] == [t];
  }

  /** The pairs read so far, and then those still to be read. */
  ghost function Then(done: seq<Pair>, rest: Option<seq<Pair>>): Option<seq<Pair>> {
    if rest.None? then None else Some(done + rest.value)
  }

  /** What one more part adds. */
  lemma ReadStep(done: seq<Pair>, part: string, parts: seq<string>)
    ensures ReadPair(part).None? ==> Then(done, ReadAll([part] + parts)) == None
    ensures ReadPair(part).Some? ==>
      Then(done, ReadAll([part] + parts)) == Then(done + [ReadPair(part).value], ReadAll(parts))
  {
    hide ReadPair;
    assert ([part] + parts)[1..] == parts;
    if ReadPair(part).Some? && ReadAll(parts).Some? {
      Assoc(done, [ReadPair(part).value], ReadAll(parts).value);
    }
  }

  lemma ReadNone(done: seq<Pair>, rest: Option<seq<Pair>>)
    ensures Then(done, ReadAll([])) == Some(done) && Then([], rest) == rest
  {
    assert done + [] == done;
    assert rest.Some? ==> [] + rest.value == rest.value;
  }

  /** What is left of the text at a position, or nothing behind its end. */
  ghost function PartsFrom(s: string, at: Option<nat>): seq<string>
    requires at.Some? ==> at.value <= |s|
  {
    if at.None? then [] else Parts(s[at.value..])
  }

  /** Reads all parts into the array, which has room for them. */
  method ReadInto(s: string, kv: array<Pair>) returns (ok: bool, n: nat)
    requires |Parts(s)| <= kv.Length
    modifies kv
    ensures ok == PairsOf(s).Some?
    ensures ok ==> n == |Parts(s)| && kv[..n] == PairsOf(s).value
  {
    hide Parts, ReadAll, ReadPair;
    var end: Option<nat> := Some(0);
    n := 0;
    assert s[0..] == s;
    ReadNone([], PairsOf(s));
    ghost var done: seq<Pair> := [];
    while end.Some?
      invariant end.Some? ==> end.value <= |s|
      invariant n == |done| && n + |PartsFrom(s, end)| == |Parts(s)| && kv[..n] == done
      invariant PairsOf(s) == Then(done, ReadAll(PartsFrom(s, end)))
      decreases if end.Some? then |s| + 1 - end.value else 0
    {
      var part, next := NextPart(s, end.value);
      if part == "" {
        break;
      }
      ReadStep(done, part, PartsFrom(s, next));
      var pair := ReadPair(part);
      if pair.None? {
        return false, n;
      }
      kv[n] := pair.value;
      assert kv[..n + 1] == done + [pair.value];
      done := done + [pair.value];
      n, end := n + 1, next;
    }
    ReadNone(done, None);
    ok := true;
  }

  /** Searches all parts in the sorted array. */
  method FindAll(s: string, kv: array<Pair>, n: nat) returns (all: bool)
    requires n <= kv.Length
    ensures all ==> PairsOf(s).Some? && forall p :: p in PairsOf(s).value ==> p in kv[..n]
    ensures !all && PairsOf(s).Some? && NoNegativeKey(PairsOf(s).value) && Ordered(kv[..n]) && Distinct(kv[..n]) ==>
      exists p :: p in PairsOf(s).value && p !in kv[..n]
  {
    hide Parts, ReadAll, ReadPair;
    ghost var ps := kv[..n];
    var end: Option<nat> := Some(0);
    assert s[0..] == s;
    ReadNone([], PairsOf(s));
    ghost var done: seq<Pair> := [];
    while end.Some?
      invariant end.Some? ==> end.value <= |s|
      invariant forall p :: p in done ==> p in ps
      invariant PairsOf(s) == Then(done, ReadAll(PartsFrom(s, end)))
      decreases if end.Some? then |s| + 1 - end.value else 0
    {
      var part, next := NextPart(s, end.value);
      if part == "" {
        break;
      }
      ReadStep(done, part, PartsFrom(s, next));
      var pair := ReadPair(part);
      if pair.None? {
        return false;
      }
      var found := Search(kv, n, pair.value.key);
      if found.None? || kv[found.value].value != pair.value.value {
        Missing(ps, done, pair.value, ReadAll(PartsFrom(s, next)), found);
        return false;
      }
      assert pair.value == ps[found.value];
      done, end := done + [pair.value], next;
    }
    ReadNone(done, None);
    all := true;
  }

  /** A pair that is not found with its value is not there. */
  lemma Missing(ps: seq<Pair>, done: seq<Pair>, p: Pair, rest: Option<seq<Pair>>, found: Option<nat>)
    requires found.Some? ==> found.value < |ps| && ps[found.value].key == p.key && ps[found.value].value != p.value
    requires found.None? && Ordered(ps) && p.key >= 0 ==> forall i :: 0 <= i < |ps| ==> ps[i].key != p.key
    ensures rest.Some? ==> p in Then(done + [p], rest).value
    ensures rest.Some? && NoNegativeKey(Then(done + [p], rest).value) && Ordered(ps) && Distinct(ps) ==> p !in ps
  {
    if rest.Some? {
      var all := Then(done + [p], rest).value;
      assert all[|done|] == p;
    }
  }

  /** What is behind the first colon, if there is one. */
  function Body(s: string): string {
    if ':' !in s then s else if s[0] == ':' then s[1..] else Body(s[1..])
  }

  method SkipName(s: string) returns (body: string)
    ensures body == Body(s)
  {
    for i := 0 to |s|
      invariant forall k :: 0 <= k < i ==> s[k] != ':'
      invariant ':' in s ==> ':' in s[i..] && Body(s) == Body(s[i..])
    {
      if s[i] == ':' {
        assert s[i..][1..] == s[i + 1..];
        return s[i + 1..];
      }
      assert s[i..] == [s[i]] + s[i + 1..];
    }
    body := s;
  }

  /** The sorted array holds the pairs that were read, in the order of their keys. */
  lemma SortedHas(ps: seq<Pair>)
    ensures |Sort(ps)| == |ps| && forall p :: p in Sort(ps) <==> p in ps
    ensures NoNegativeKey(ps) ==> Ordered(Sort(ps))
    ensures Distinct(ps) ==> Distinct(Sort(ps))
  {
    var r := Sort(ps);
    hide Sort;
    assert |multiset(r)| == |multiset(ps)|;
    forall p | true ensures p in r <==> p in ps { assert p in multiset(r) <==> p in multiset(ps); }
    if NoNegativeKey(ps) {
      SortSorts(ps);
    }
    if Distinct(ps) {
      DistinctStays(ps, r);
    }
  }

  lemma DistinctStays(a: seq<Pair>, b: seq<Pair>)
    requires Distinct(a) && multiset(b) == multiset(a)
    ensures Distinct(b)
  {
    forall i, j | 0 <= i < j < |b| ensures b[i].key != b[j].key {
      if b[i].key == b[j].key {
        assert b[i] in multiset(b) && b[j] in multiset(b);
        SamePair(a, b[i], b[j]);
        TwiceInMultiset(b, i, j);
        OnceInMultiset(a, b[i]);
      }
    }
  }

  lemma TwiceInMultiset(b: seq<Pair>, i: nat, j: nat)
    requires i < j < |b| && b[i] == b[j]
    ensures multiset(b)[b[i]] >= 2
  {
    assert b == b[..j] + [b[j]] + b[j + 1..];
    assert b[i] in b[..j] by { assert b[..j][i] == b[i]; }
    assert multiset(b) == multiset(b[..j]) + multiset{b[j]} + multiset(b[j + 1..]);
  }

  lemma {:induction false} OnceInMultiset(a: seq<Pair>, p: Pair)
    requires Distinct(a)
    ensures multiset(a)[p] <= 1
  {
    if a != [] {
      assert a == [a[0]] + a[1..];
      OnceInMultiset(a[1..], p);
      assert a[0] !in a[1..];
    }
  }

  /** The answer is 0 exactly when both schemata can be read and denote the same map. */
  method Compare(a: string, b: string) returns (r: int)
    ensures r == 0 || r == 1
    ensures Proper(Body(a)) && Proper(Body(b)) ==>
      (r == 0 <==> Denotes(Body(a)).Some? && Denotes(Body(a)) == Denotes(Body(b)))
  {
    hide Parts, ReadAll, Count, Body, WellFormed, Sort;
    var x := SkipName(a);
    var y := SkipName(b);
    var n := CountPartsOf(x);
    var m := CountPartsOf(y);
    CountParts(x);
    CountParts(y);
    if Proper(x) && Proper(y) && PairsOf(x).Some? && PairsOf(y).Some? {
      SameMap(PairsOf(x).value, PairsOf(y).value);
    }
    hide Proper, MapOf;
    if n != m {
      return 1;
    }
    var kv := new Pair[n + 1];
    var ok, i := ReadInto(x, kv);
    if !ok {
      return 1;
    }
    var sorted := Sort(kv[..i]);
    SortedHas(kv[..i]);
    forall k | 0 <= k < i {
      kv[k] := sorted[k];
    }
    assert kv[..i] == sorted;
    var all := FindAll(y, kv, n);
    r := if all then 0 else 1;
  }
}
