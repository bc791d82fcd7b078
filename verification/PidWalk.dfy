/**
Collecting the processes of a cgroup and of everything below it into one growing array, ended by 0.
*/
module PidWalk {
  import opened Common
  import opened Numbers

  /** A directory: its cgroup.procs, if that can be read, and what readdir lists. */
  datatype Cgroup = Cgroup(procs: Option<string>, entries: seq<Entry>)

  /** `Dir(None)`: a directory that can not be opened. */
  datatype Entry = Dots | NotDir | Dir(sub: Option<Cgroup>)

  // ---- Lines and numbers ----

  /** The lines that are not empty. */
  function Lines(s: string): seq<string>
    decreases |s|
  {
    if s == "" then []
    else if s[0] == '\n' then Lines(s[1..])
    else [s[..Find(s, '\n')]] + Lines(s[Find(s, '\n')..])
  }

  /** The numbers above zero, in order. */
  function Positive(lines: seq<string>): seq<int> {
    if lines == [] then []
    else
      var pid := ToInt(Strtoul(lines[0], 10));
      (if pid > 0 then [pid] else []) + Positive(lines[1..])
  }

  function PidsOf(text: string): seq<int> { Positive(Lines(text)) }

  function Newlines(s: string): nat {
    if s == "" then 0 else (if s[0] == '\n' then 1 else 0) + Newlines(s[1..])
  }

  /** The room counted before the lines are read is enough for them. */
  lemma {:induction false} LinesFit(s: string)
    ensures |Positive(Lines(s))| <= |Lines(s)|
    ensures s != "" ==> |Lines(s)| <= 1 + Newlines(s[1..])
    ensures |Lines(s)| <= 1 + Newlines(s)
    ensures s != "" && s[0] == '\n' ==> |Lines(s)| <= Newlines(s)
    decreases |s|
  {
    PositiveFit(Lines(s));
    if s != "" && s[0] == '\n' {
      LinesFit(s[1..]);
    } else if s != "" {
      var n := Find(s, '\n');
      LinesFit(s[n..]);
      NewlinesSplit(s[1..], n - 1);
      assert s[1..][n - 1..] == s[n..];
    }
  }

  lemma {:induction false} PositiveFit(lines: seq<string>)
    ensures |Positive(lines)| <= |lines|
  {
    if lines != [] {
      PositiveFit(lines[1..]);
    }
  }

  lemma {:induction false} NewlinesSplit(s: string, k: nat)
    requires k <= |s|
    ensures Newlines(s) >= Newlines(s[k..])
  {
    if k > 0 {
      NewlinesSplit(s[1..], k - 1);
      assert s[1..][k - 1..] == s[k..];
    }
  }

  // ---- The walk on values ----

  /** The pids found, up to the first error. */
  datatype Found = Found(pids: seq<int>, ok: bool)

  function Walk(g: Cgroup, recurse: bool): Found
    decreases g
  {
    if g.procs.None? then Found([], false)
    else if !recurse then Found(PidsOf(g.procs.value), true)
    else
      var below := WalkEntries(g, 0);
      Found(PidsOf(g.procs.value) + below.pids, below.ok)
  }

  function WalkEntries(g: Cgroup, from: nat): Found
    requires from <= |g.entries|
    decreases g, |g.entries| - from
  {
    if from == |g.entries| then Found([], true)
    else
      match g.entries[from]
      case Dir(None) => Found([], false)
      case Dir(Some(sub)) =>
        var here := Walk(sub, true);
        if !here.ok then here
        else
          var rest := WalkEntries(g, from + 1);
          Found(here.pids + rest.pids, rest.ok)
      case _ => WalkEntries(g, from + 1)
  }

  /** Some pid file that is read holds anything at all. */
  predicate AnyText(g: Cgroup, recurse: bool)
    decreases g
  {
    g.procs.Some? && (g.procs.value != "" || (recurse && AnyTextBelow(g, 0)))
  }

  predicate AnyTextBelow(g: Cgroup, from: nat)
    requires from <= |g.entries|
    decreases g, |g.entries| - from
  {
    from < |g.entries| &&
    match g.entries[from]
    case Dir(None) => false
    case Dir(Some(sub)) => AnyText(sub, true) || (Walk(sub, true).ok && AnyTextBelow(g, from + 1))
    case _ => AnyTextBelow(g, from + 1)
  }

  // ---- The array ----

  /** The three values that the recursion shares: the array, how much of it is used, and how much there is. */
  class PidList {
    var pids: array<int>
    var used: nat
    var room: nat

    ghost predicate Valid()
      reads this, pids
    {
      used <= room == pids.Length
    }

    ghost predicate Ended()
      requires Valid()
      reads this, pids
    {
      used < room && pids[used] == 0
    }

    ghost function Contents(): seq<int>
      requires Valid()
      reads this, pids
    {
      pids[..used]
    }

    constructor ()
      ensures Valid() && Contents() == [] && fresh(pids)
    {
      pids, used, room := new int[0], 0, 0;
    }

    /** realloc keeps what was there. */
    method Grow(size: nat)
      requires Valid() && size >= room
      modifies this
      ensures Valid() && fresh(pids) && room == size && used == old(used) && Contents() == old(Contents())
    {
      var bigger := new int[size];
      forall i | 0 <= i < room {
        bigger[i] := pids[i];
      }
      pids, room := bigger, size;
    }

    method Add(pid: int)
      requires Valid() && used < room
      modifies this`used, pids
      ensures Valid() && Contents() == old(Contents()) + [pid]
    {
      pids[used] := pid;
      used := used + 1;
    }

    /** Appends the pids above zero, a line at a time. */
    method AppendLines(text: string)
      requires Valid() && used + |Lines(text)| <= room
      modifies this`used, pids
      ensures Valid() && used <= old(used) + |Lines(text)| && Contents() == old(Contents()) + PidsOf(text)
    {
      hide Lines, Positive, Strtoul, ToInt;
      var it := 0;
      ghost var done := [];
      ghost var first := Contents();
      assert text[0..] == text;
      while true
        invariant it <= |text| && Valid() && used + |Lines(text[it..])| <= old(used) + |Lines(text)|
        invariant Contents() == first + done && PidsOf(text) == done + PidsOf(text[it..])
        decreases |text| - it
      {
        var token, next := NextLine(text, it);
        if token == "" {
          PositiveStep("", []);
          break;
        }
        PositiveStep(token, Lines(text[next..]));
        it := next;
        var pid := ToInt(Strtoul(token, 10));
        if pid > 0 {
          Add(pid);
          Assoc(first, done, [pid]);
          Assoc(done, [pid], PidsOf(text[it..]));
          done := done + [pid];
        }
      }
    }

    /** One file: make room for one pid a line, append those above zero, and end the list. */
    method ReadProcs(text: string)
      requires Valid()
      modifies this, pids
      ensures Valid() && (pids == old(pids) || fresh(pids))
      ensures Contents() == old(Contents()) + PidsOf(text)
      ensures text != "" || old(Ended()) ==> Ended()
    {
      if |text| > 0 {
        hide Lines, Positive, Newlines;
        var more := CountLines(text);
        LinesFit(text);
        if room < used + more + 1 {
          Grow(used + more + 1);
        }
        AppendLines(text);
        ghost var all := Contents();
        pids[used] := 0;
        assert Contents() == all;
      }
    }

    /** The recursion: the pids of the walk are appended, whether or not it ends in an error. */
    method ReadPids(g: Cgroup, recurse: bool) returns (ok: bool)
      requires Valid()
      modifies this, pids
      ensures Valid() && (pids == old(pids) || fresh(pids))
      ensures Contents() == old(Contents()) + Walk(g, recurse).pids && ok == Walk(g, recurse).ok
      ensures AnyText(g, recurse) || old(Ended()) ==> Ended()
      decreases g
    {
      hide PidsOf;
      if g.procs.None? {
        return false;
      }
      ReadProcs(g.procs.value);
      ok := true;
      if recurse {
        Assoc(old(Contents()), PidsOf(g.procs.value), WalkEntries(g, 0).pids);
        ok := ReadEntries(g);
      }
    }

    /** The loop over the directory. */
    method ReadEntries(g: Cgroup) returns (ok: bool)
      requires Valid()
      modifies this, pids
      ensures Valid() && (pids == old(pids) || fresh(pids))
      ensures Contents() == old(Contents()) + WalkEntries(g, 0).pids && ok == WalkEntries(g, 0).ok
      ensures AnyTextBelow(g, 0) || old(Ended()) ==> Ended()
      decreases g, 0
    {
      hide Walk, AnyText;
      var i := 0;
      ghost var done := [];
      ghost var first, ended := Contents(), Ended();
      while i < |g.entries|
        invariant i <= |g.entries| && Valid() && (pids == old(pids) || fresh(pids))
        invariant Contents() == first + done && WalkEntries(g, 0) == Then(done, WalkEntries(g, i))
        invariant ended ==> Ended()
        invariant AnyTextBelow(g, 0) ==> Ended() || AnyTextBelow(g, i)
      {
        if g.entries[i].Dir? {
          if g.entries[i].sub.None? {
            return false;
          }
          ghost var sub := Walk(g.entries[i].sub.value, true);
          var whole := ReadPids(g.entries[i].sub.value, true);
          Assoc(first, done, sub.pids);
          Assoc(done, sub.pids, WalkEntries(g, i + 1).pids);
          if !whole {
            return false;
          }
          done := done + sub.pids;
        }
        i := i + 1;
      }
      ok := true;
    }
  }

  /** What was found so far, then the rest. */
  ghost function Then(done: seq<int>, rest: Found): Found { Found(done + rest.pids, rest.ok) }

  lemma PositiveStep(token: string, lines: seq<string>)
    ensures Positive([]) == []
    ensures var pid := ToInt(Strtoul(token, 10));
            Positive([token] + lines) == (if pid > 0 then [pid] else []) + Positive(lines)
  {
    hide ToInt, Strtoul;
    assert ([token] + lines)[1..] == lines;
  }

  /** One more than the newlines behind the first character. */
  method CountLines(text: string) returns (n: nat)
    requires text != ""
    ensures n == 1 + Newlines(text[1..])
  {
    n := 1;
    var it := 1;
    while it < |text|
      invariant 1 <= it <= |text| && n + Newlines(text[it..]) == 1 + Newlines(text[1..])
    {
      if text[it] == '\n' {
        n := n + 1;
      }
      it := it + 1;
    }
  }

  /** strtok: the next line that is not empty, and what comes behind it. */
  method NextLine(text: string, from: nat) returns (token: string, next: nat)
    requires from <= |text|
    ensures from <= next <= |text|
    ensures token == "" ==> Lines(text[from..]) == []
    ensures token != "" ==> from < next && Lines(text[from..]) == [token] + Lines(text[next..])
  {
    hide Find;
    var start := from;
    while start < |text| && text[start] == '\n'
      invariant from <= start <= |text| && Lines(text[start..]) == Lines(text[from..])
    {
      assert text[start..][1..] == text[start + 1..];
      start := start + 1;
    }
    next := start;
    while next < |text| && text[next] != '\n'
      invariant start <= next <= |text| && forall i :: start <= i < next ==> text[i] != '\n'
    {
      next := next + 1;
    }
    token := text[start..next];
    if token != "" {
      LineAt(text, start, next);
    }
  }

  lemma LineAt(text: string, start: nat, next: nat)
    requires start < next <= |text| && (forall i :: start <= i < next ==> text[i] != '\n') &&
      (next < |text| ==> text[next] == '\n')
    ensures Lines(text[start..]) == [text[start..next]] + Lines(text[next..])
  {
    var s, n := text[start..], next - start;
    FindIs(s, '\n', n);
    hide Find;
    assert s[..n] == text[start..next] && s[n..] == text[next..];
  }
}
