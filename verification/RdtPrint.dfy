/** Schemata as they are printed, with decimal keys and hexadecimal values, denote the pairs they were printed from. */
module RdtPrint {
  import opened Common
  import opened Numbers
  import opened RdtSchema
  import opened RdtCompare

  predicate Natural(p: Pair) { p.key >= 0 && p.value >= 0 }

  function PrintPair(p: Pair): string
    requires Natural(p)
  {
    Printed(p.key, 10) + ("=" + Printed(p.value, 16))
  }

  predicate AllNatural(ps: seq<Pair>) { forall i :: 0 <= i < |ps| ==> Natural(ps[i]) }

  /** Separated by semicolons. */
  function PrintPairs(ps: seq<Pair>): string
    requires AllNatural(ps)
  {
    if ps == [] then ""
    else if |ps| == 1 then PrintPair(ps[0])
    else PrintPair(ps[0]) + (";" + PrintPairs(ps[1..]))
  }

  /** One pair is read back. */
  lemma PairReadsBack(p: Pair)
    requires Natural(p)
    ensures ReadPair(PrintPair(p)) == Some(p)
    ensures PrintPair(p) != "" && ';' !in PrintPair(p)
  {
    hide Convert, Printed;
    var tail := "=" + Printed(p.value, 16);
    ConvertPrinted(p.key, 10, tail);
    ConvertPrinted(p.value, 16, "");
    assert Printed(p.value, 16) + "" == Printed(p.value, 16) && tail[1..] == Printed(p.value, 16);
    assert forall c :: c in PrintPair(p) ==> c in Printed(p.key, 10) || c == '=' || c in Printed(p.value, 16);
  }

  lemma FormedAt(s: string, n: nat)
    requires n == Find(s, ';') && n > 0
    ensures WellFormed(s) <==> n == |s| || WellFormed(s[n + 1..])
  {
    hide Find;
  }

  /** The first part, and then the others. */
  lemma PartAhead(part: string, rest: string)
    requires part != "" && ';' !in part
    ensures Parts(part) == [part] && WellFormed(part)
    ensures Parts(part + (";" + rest)) == [part] + Parts(rest)
    ensures WellFormed(part + (";" + rest)) <==> WellFormed(rest)
  {
    hide Parts, WellFormed, Find;
    var s, n := part + (";" + rest), |part|;
    FindIs(part, ';', n);
    assert [part] + [] == [part];
    PartsAre(part, n);
    FormedAt(part, n);
    assert s[n] == ';' && forall i :: 0 <= i < n ==> s[i] == part[i];
    FindIs(s, ';', n);
    assert s[..n] == part && s[n + 1..] == rest;
    PartsAre(s, n);
    FormedAt(s, n);
  }

  lemma ReadAhead(part: string, p: Pair, parts: seq<string>, ps: seq<Pair>)
    requires ReadPair(part) == Some(p) && ReadAll(parts) == Some(ps)
    ensures ReadAll([part] + parts) == Some([p] + ps)
  {
    hide ReadPair;
    assert ([part] + parts)[1..] == parts;
  }

  /** One pair, alone or in front of others. */
  lemma PairAhead(p: Pair, rest: string, ps: seq<Pair>)
    requires Natural(p) && WellFormed(rest) && PairsOf(rest) == Some(ps)
    ensures var s := PrintPair(p); WellFormed(s) && PairsOf(s) == Some([p])
    ensures var s := PrintPair(p) + (";" + rest); WellFormed(s) && PairsOf(s) == Some([p] + ps)
  {
    assert ReadAll([]) == Some([]);
    hide ReadPair, PrintPair, Parts, WellFormed, ReadAll, Natural;
    var part := PrintPair(p);
    PairReadsBack(p);
    PartAhead(part, rest);
    ReadAhead(part, p, [], []);
    ReadAhead(part, p, Parts(rest), ps);
    assert [part] + [] == [part] && [p] + [] == [p];
  }

  lemma {:induction false} PairsReadBack(ps: seq<Pair>)
    requires AllNatural(ps)
    ensures WellFormed(PrintPairs(ps)) && PairsOf(PrintPairs(ps)) == Some(ps)
  {
    if ps != [] {
      PairsReadBack(ps[1..]);
      PairAhead(ps[0], PrintPairs(ps[1..]), ps[1..]);
      hide PairsOf, PrintPair, WellFormed;
      assert ps == [ps[0]] + ps[1..];
      assert |ps| == 1 ==> ps == [ps[0]];
    }
  }

  lemma {:induction false} BodyIs(name: string, s: string)
    requires ':' !in name
    ensures Body(name + ":" + s) == s
  {
    if name == "" {
      assert name + ":" + s == ":" + s && (":" + s)[1..] == s;
    } else {
      assert (name + ":" + s)[1..] == name[1..] + ":" + s && (name + ":" + s)[|name|] == ':';
      BodyIs(name[1..], s);
    }
  }

  /** What a schema denotes, from how it was made; so the comparison of two of them compares the maps. */
  lemma PrintedDenotes(name: string, ps: seq<Pair>)
    requires ':' !in name && AllNatural(ps) && Distinct(ps)
    ensures var s := Body(name + ":" + PrintPairs(ps)); Proper(s) && Denotes(s) == Some(MapOf(ps))
  {
    hide Body, WellFormed, PrintPairs, Parts, ReadAll;
    BodyIs(name, PrintPairs(ps));
    PairsReadBack(ps);
  }
}
