/** What the walk finds in a tree as the kernel shows it: every pid, parents before children. */
module PidTree {
  import opened Common
  import opened Numbers
  import opened PidWalk

  datatype Tree = Tree(pids: seq<int>, children: seq<Tree>)

  /** The kernel shows a process of another pid namespace as 0. */
  function Visible(pids: seq<int>): seq<int> {
    if pids == [] then [] else (if pids[0] == 0 then [] else [pids[0]]) + Visible(pids[1..])
  }

  /** The pids of a tree, a directory in front of what is below it. */
  function Preorder(t: Tree): seq<int>
    decreases t
  {
    Visible(t.pids) + PreorderFrom(t, 0)
  }

  function PreorderFrom(t: Tree, from: nat): seq<int>
    requires from <= |t.children|
    decreases t, |t.children| - from
  {
    if from == |t.children| then [] else Preorder(t.children[from]) + PreorderFrom(t, from + 1)
  }

  predicate IsPid(p: int) { 0 <= p < 0x8000_0000 }

  predicate AllPids(pids: seq<int>) { forall i :: 0 <= i < |pids| ==> IsPid(pids[i]) }

  /** One pid a line. */
  function Print(pids: seq<int>): string
    requires AllPids(pids)
  {
    if pids == [] then "" else Printed(pids[0], 10) + ("\n" + Print(pids[1..]))
  }

  /** The directory shows the tree: its file lists the pids, and its sub-directories show the children in order. */
  ghost predicate Shows(g: Cgroup, t: Tree)
    decreases t
  {
    AllPids(t.pids) && g.procs == Some(Print(t.pids)) && ShowsFrom(g, 0, t, 0)
  }

  /** The entries from `i` on show the children from `k` on; anything that is no directory may stand between. */
  ghost predicate ShowsFrom(g: Cgroup, i: nat, t: Tree, k: nat)
    requires i <= |g.entries| && k <= |t.children|
    decreases t, |g.entries| - i
  {
    if i == |g.entries| then k == |t.children|
    else
      match g.entries[i]
      case Dir(None) => false
      case Dir(Some(sub)) => k < |t.children| && Shows(sub, t.children[k]) && ShowsFrom(g, i + 1, t, k + 1)
      case _ => ShowsFrom(g, i + 1, t, k)
  }

  // ---- Reading back what was printed ----

  lemma PidOfPrinted(p: int)
    requires IsPid(p)
    ensures ToInt(Strtoul(Printed(p, 10), 10)) == p
  {
    hide Convert, Printed;
    ConvertPrinted(p, 10, "");
    assert Printed(p, 10) + "" == Printed(p, 10);
  }

  lemma {:induction false} LineAhead(line: string, rest: string)
    requires line != "" && '\n' !in line
    ensures Lines(line + ("\n" + rest)) == [line] + Lines(rest)
  {
    var s := line + ("\n" + rest);
    var n := |line|;
    assert s[n] == '\n' && forall i :: 0 <= i < n ==> s[i] == line[i] && line[i] in line;
    FindIs(s, '\n', n);
    assert s[..n] == line && s[n..] == "\n" + rest && s[n..][1..] == rest;
  }

  /** Parsing what the kernel prints gives the pids that are visible. */
  lemma {:induction false} ReadsBack(pids: seq<int>)
    requires AllPids(pids)
    ensures PidsOf(Print(pids)) == Visible(pids)
  {
    if pids != [] {
      var line, rest := Printed(pids[0], 10), Print(pids[1..]);
      LineAhead(line, rest);
      PidOfPrinted(pids[0]);
      PositiveStep(line, Lines(rest));
      ReadsBack(pids[1..]);
    }
  }

  /** The main result: on every tree the walk finds exactly the pids, in order. */
  lemma {:induction false} WalkIsPreorder(g: Cgroup, t: Tree)
    requires Shows(g, t)
    ensures Walk(g, true) == Found(Preorder(t), true)
    ensures Walk(g, false) == Found(Visible(t.pids), true)
    decreases t
  {
    ReadsBack(t.pids);
    EntriesArePreorder(g, 0, t, 0);
  }

  lemma {:induction false} EntriesArePreorder(g: Cgroup, i: nat, t: Tree, k: nat)
    requires i <= |g.entries| && k <= |t.children| && ShowsFrom(g, i, t, k)
    ensures WalkEntries(g, i) == Found(PreorderFrom(t, k), true)
    decreases t, |g.entries| - i
  {
    if i < |g.entries| {
      if g.entries[i].Dir? {
        WalkIsPreorder(g.entries[i].sub.value, t.children[k]);
        EntriesArePreorder(g, i + 1, t, k + 1);
      } else {
        EntriesArePreorder(g, i + 1, t, k);
      }
    }
  }

  // ---- Errors ----

  /** Every pid file can be read and every directory opened. */
  ghost predicate Readable(g: Cgroup)
    decreases g
  {
    g.procs.Some? && forall i :: 0 <= i < |g.entries| && g.entries[i].Dir? ==>
                       g.entries[i].sub.Some? && Readable(g.entries[i].sub.value)
  }

  /** The walk ends in an error exactly when something in the tree can not be read. */
  lemma {:induction false} WalkReportsErrors(g: Cgroup)
    ensures Walk(g, true).ok <==> Readable(g)
    decreases g
  {
    if g.procs.Some? {
      EntriesReportErrors(g, 0);
    }
  }

  lemma {:induction false} EntriesReportErrors(g: Cgroup, from: nat)
    requires from <= |g.entries|
    ensures WalkEntries(g, from).ok <==>
            forall i :: from <= i < |g.entries| && g.entries[i].Dir? ==>
                        g.entries[i].sub.Some? && Readable(g.entries[i].sub.value)
    decreases g, |g.entries| - from
  {
    if from < |g.entries| {
      EntriesReportErrors(g, from + 1);
      if g.entries[from].Dir? && g.entries[from].sub.Some? {
        WalkReportsErrors(g.entries[from].sub.value);
      }
    }
  }
}
