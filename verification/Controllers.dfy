/**
Enabling controllers from the root of the cgroup tree down to a new cgroup: every slash of the path is cut in
turn, the directory so far is made, and its controllers are enabled unless it is the last one.
*/
module Controllers {
  import opened Common
  import opened Paths
  import opened ControllerFile

  datatype Event = Make(path: string) | Enable(path: string, controllers: Set)

  /** What the system says: about the file of every cgroup and set of controllers, and to making a directory. */
  datatype System = System(file: (string, Set) -> File, make: string -> bool)

  predicate Succeeds(sys: System, e: Event) {
    match e
    case Make(path) => sys.make(path)
    case Enable(path, controllers) => Outcome(sys.file(path, controllers), controllers) == Success
  }

  /** The events up to the first that fails. */
  function UntilFailure(sys: System, events: seq<Event>): (done: seq<Event>)
    ensures done <= events
  {
    if events == [] then []
    else [events[0]] + if Succeeds(sys, events[0]) then UntilFailure(sys, events[1..]) else []
  }

  predicate AllSucceed(sys: System, events: seq<Event>): (all: bool)
    ensures all <==> forall e :: e in events ==> Succeeds(sys, e)
  {
    events == [] || (Succeeds(sys, events[0]) && AllSucceed(sys, events[1..]))
  }

  /** The first step fails. */
  lemma FirstFails(sys: System, events: seq<Event>)
    requires events != [] && !Succeeds(sys, events[0])
    ensures UntilFailure(sys, events) == [events[0]] && !AllSucceed(sys, events)
  {
    assert [events[0]] + [] == [events[0]];
  }

  lemma FirstSucceeds(sys: System, a: Event, rest: seq<Event>)
    requires Succeeds(sys, a)
    ensures UntilFailure(sys, [a] + rest) == [a] + UntilFailure(sys, rest)
    ensures AllSucceed(sys, [a] + rest) <==> AllSucceed(sys, rest)
  {
    assert ([a] + rest)[1..] == rest;
  }

  lemma NothingLeft(sys: System)
    ensures UntilFailure(sys, []) == [] && AllSucceed(sys, [])
  {
  }

  /** What happens below the root when nothing fails, from the slash at or behind `i` on. */
  function Plan(path: string, i: nat, controllers: Set): seq<Event>
    decreases |path| + 1 - i
  {
    if i > |path| then []
    else if i == |path| then [Make(path)]
    else if path[i] == '/' then [Make(path[..i]), Enable(path[..i], controllers)] + Plan(path, i + 1, controllers)
    else Plan(path, i + 1, controllers)
  }

  /** strchr for a slash. */
  method FindSlash(text: array<char>, from: nat, ghost end: nat) returns (it: Option<nat>)
    requires from <= end < text.Length && text[end] == '\0' && forall i :: 0 <= i < end ==> text[i] != '\0'
    ensures it.Some? ==>
      from <= it.value < end && text[it.value] == '/' && forall i :: from <= i < it.value ==> text[i] != '/'
    ensures it.None? ==> forall i :: from <= i < end ==> text[i] != '/'
  {
    var i := from;
    while text[i] != '\0'
      invariant from <= i <= end && forall k :: from <= k < i ==> text[k] != '/'
      decreases end - i
    {
      if text[i] == '/' {
        return Some(i);
      }
      i := i + 1;
    }
    it := None;
  }

  lemma {:induction false} PlanSkips(path: string, i: nat, j: nat, controllers: Set)
    requires i <= j <= |path| && forall k :: i <= k < j ==> path[k] != '/'
    ensures Plan(path, i, controllers) == Plan(path, j, controllers)
    decreases j - i
  {
    if i < j {
      PlanSkips(path, i + 1, j, controllers);
    }
  }

  /** The root: without cpu when enabling it is refused as invalid. */
  method EnableRoot(available: Set, sys: System) returns (controllers: Option<Set>, log: seq<Event>)
    ensures var retry := Outcome(sys.file("", available), available) == Invalid && "cpu" in available;
            && log == [Enable("", available)] + (if retry then [Enable("", available - {"cpu"})] else [])
            && (controllers.Some? ==> controllers.value == if retry then available - {"cpu"} else available)
    ensures controllers.Some? <==> Succeeds(sys, log[|log| - 1])
  {
    hide Outcome, Writes;
    var reply, writes := WriteControllers(sys.file("", available), available);
    var tried := available;
    log := [Enable("", tried)];
    if reply == Invalid && "cpu" in available {
      tried := available - {"cpu"};
      reply, writes := WriteControllers(sys.file("", tried), tried);
      log := log + [Enable("", tried)];
    }
    controllers := if reply == Success then Some(tried) else None;
  }

  /** The path with a slash behind it, in a buffer that ends with NUL. */
  ghost predicate HoldsPath(text: array<char>, path: string)
    reads text
  {
    text.Length == |path| + 2 && text[|path|] == '/' && text[|path| + 1] == '\0' &&
    forall i :: 0 <= i < |path| ==> text[i] == path[i] != '\0'
  }

  /** What the plan says about one slash. */
  lemma PlanHere(path: string, it: nat, next: nat, controllers: Set)
    requires 1 <= it < next <= |path| && path[it] == '/' && forall k :: it < k < next ==> path[k] != '/'
    ensures Plan(path, it, controllers)
            == [Make(path[..it])] + ([Enable(path[..it], controllers)] + Plan(path, next, controllers))
  {
    PlanSkips(path, it + 1, next, controllers);
    Assoc([Make(path[..it])], [Enable(path[..it], controllers)], Plan(path, next, controllers));
    assert forall a: Event, b: Event :: [a] + [b] == [a, b];
  }

  lemma PlanEnds(path: string, controllers: Set)
    ensures Plan(path, |path|, controllers) == [Make(path[..|path|])] + []
  {
    assert path[..|path|] == path;
  }

  /** One slash: the buffer is cut there and mended. */
  method Visit(text: array<char>, path: string, it: nat, controllers: Set, sys: System)
    returns (ok: bool, next: Option<nat>, log: seq<Event>)
    requires HoldsPath(text, path) && 1 <= it <= |path| && text[it] == '/'
    modifies text
    ensures ok ==> HoldsPath(text, path)
    ensures next.Some? ==> it < next.value <= |path| && (ok ==> text[next.value] == '/')
    ensures var plan := Plan(path, it, controllers);
            var rest := if next.Some? then Plan(path, next.value, controllers) else [];
            && UntilFailure(sys, plan) == (if ok then log + UntilFailure(sys, rest) else log)
            && (AllSucceed(sys, plan) <==> ok && AllSucceed(sys, rest))
  {
    hide Outcome, Writes, UntilFailure, AllSucceed, Plan;
    next := FindSlash(text, it + 1, |path| + 1);
    ghost var make, enable, plan := Make(path[..it]), Enable(path[..it], controllers), Plan(path, it, controllers);
    ghost var rest := if next.Some? then Plan(path, next.value, controllers) else [];
    ghost var others := if next.Some? then [enable] + rest else [];
    assert text[|path|] == '/';
    if next.Some? {
      assert text[it] == path[it] && forall k :: it < k < next.value ==> text[k] == path[k];
      PlanHere(path, it, next.value, controllers);
    } else {
      PlanEnds(path, controllers);
    }
    assert plan == [make] + others;
    text[it] := '\0';
    assert text[..it] == path[..it];
    log := [Make(text[..it])];
    if !sys.make(text[..it]) {
      FirstFails(sys, plan);
      return false, next, log;
    }
    FirstSucceeds(sys, make, others);
    if next.Some? {
      log := log + [Enable(text[..it], controllers)];
      var reply, writes := WriteControllers(sys.file(text[..it], controllers), controllers);
      if reply != Success {
        FirstFails(sys, others);
        return false, next, log;
      }
      FirstSucceeds(sys, enable, rest);
      Assoc([make], [enable], UntilFailure(sys, rest));
    }
    text[it] := '/';
    ok := true;
  }

  /**
  The whole function. What is done below the root is the plan up to the first step that fails, and it succeeds exactly
  when no step fails.
  */
  method EnableControllers(path: string, available: Option<Set>, sys: System)
    returns (ok: bool, root: seq<Event>, below: seq<Event>, controllers: Option<Set>)
    requires NulFree(path)
    ensures available.None? ==> !ok && root == below == [] && controllers.None?
    ensures available.Some? ==>
      var retry := Outcome(sys.file("", available.value), available.value) == Invalid && "cpu" in available.value;
      && root == [Enable("", available.value)] + (if retry then [Enable("", available.value - {"cpu"})] else [])
      && controllers == if Succeeds(sys, root[|root| - 1]) then Some(root[|root| - 1].controllers) else None
    ensures controllers.None? ==> !ok && below == []
    ensures controllers.Some? ==>
      var plan := Plan(path, 1, controllers.value);
      below == UntilFailure(sys, plan) && (ok <==> AllSucceed(sys, plan))
  {
    root, below, controllers := [], [], None;
    if available.None? {
      return false, root, below, controllers;
    }
    controllers, root := EnableRoot(available.value, sys);
    if controllers.None? {
      return false, root, below, controllers;
    }
    ok, below := EnableBelow(path, controllers.value, sys);
  }

  method CopyPath(path: string) returns (text: array<char>)
    requires NulFree(path)
    ensures fresh(text) && HoldsPath(text, path)
  {
    text := new char[|path| + 2];
    forall i | 0 <= i < |path| {
      text[i] := path[i];
    }
    text[|path|], text[|path| + 1] := '/', '\0';
  }

  /** The cgroups below the root, slash by slash. */
  method EnableBelow(path: string, controllers: Set, sys: System) returns (ok: bool, below: seq<Event>)
    requires NulFree(path)
    ensures below == UntilFailure(sys, Plan(path, 1, controllers))
    ensures ok <==> AllSucceed(sys, Plan(path, 1, controllers))
  {
    below := [];
    var text := CopyPath(path);
    var it := FindSlash(text, 1, |path| + 1);
    assert text[|path|] == '/';
    if it.Some? {
      assert forall k :: 1 <= k < it.value ==> text[k] == path[k];
      PlanSkips(path, 1, it.value, controllers);
    }
    ghost var plan := Plan(path, 1, controllers);
    ghost var rest := if it.Some? then Plan(path, it.value, controllers) else [];
    hide Plan, UntilFailure, Succeeds, AllSucceed;
    assert [] + UntilFailure(sys, plan) == UntilFailure(sys, plan);
    while it.Some?
      invariant HoldsPath(text, path) && fresh(text)
      invariant it.Some? ==> 1 <= it.value <= |path| && text[it.value] == '/'
      invariant rest == if it.Some? then Plan(path, it.value, controllers) else []
      invariant UntilFailure(sys, plan) == below + UntilFailure(sys, rest)
      invariant AllSucceed(sys, plan) <==> AllSucceed(sys, rest)
      decreases if it.Some? then |path| + 1 - it.value else 0
    {
      var log;
      ok, it, log := Visit(text, path, it.value, controllers, sys);
      rest := if it.Some? then Plan(path, it.value, controllers) else [];
      Assoc(below, log, UntilFailure(sys, rest));
      below := below + log;
      if !ok {
        return false, below;
      }
    }
    NothingLeft(sys);
    ok := true;
  }

  // ---- What the plan does, as cgroups ----

  /**
  In front of position `n`, this cgroup has had its controllers enabled, or is the root, which comes first of all.
  */
  predicate EnabledBefore(log: seq<Event>, n: nat, level: seq<string>)
    requires n <= |log|
  {
    level == [] || exists m :: 0 <= m < n && log[m].Enable? && Components(log[m].path) == level
  }

  /** Every step enables, or makes, a prefix of the path that ends in front of a slash, after all shorter ones. */
  lemma {:induction false} PlanAt(path: string, i: nat, controllers: Set, n: nat) returns (j: nat)
    requires 1 <= i && n < |Plan(path, i, controllers)|
    ensures var e := Plan(path, i, controllers)[n];
            && i <= j <= |path| && e.path == path[..j] && (j < |path| ==> path[j] == '/') && (e.Enable? ==> j < |path|)
            && (e.Enable? ==>
              e.controllers == controllers && n > 0 && Plan(path, i, controllers)[n - 1] == Make(e.path))
    ensures forall k :: i <= k < j && path[k] == '/' ==>
              exists m :: 0 <= m < n && Plan(path, i, controllers)[m] == Enable(path[..k], controllers)
    decreases |path| + 1 - i
  {
    var plan := Plan(path, i, controllers);
    if i == |path| {
      assert path[..i] == path;
      j := i;
    } else if path[i] != '/' {
      j := PlanAt(path, i + 1, controllers, n);
    } else if n < 2 {
      j := i;
    } else {
      var rest := Plan(path, i + 1, controllers);
      assert forall m :: 0 <= m < |rest| ==> plan[m + 2] == rest[m];
      j := PlanAt(path, i + 1, controllers, n - 2);
      assert plan[1] == Enable(path[..i], controllers);
      forall k | i < k < j && path[k] == '/'
        ensures exists m :: 0 <= m < n && plan[m] == Enable(path[..k], controllers) {
        var m :| 0 <= m < n - 2 && rest[m] == Enable(path[..k], controllers);
        assert plan[m + 2] == rest[m];
      }
    }
  }

  /** Every prefix in front of a slash is enabled. */
  lemma {:induction false} PlanHas(path: string, i: nat, controllers: Set, j: nat)
    requires 1 <= i <= j < |path| && path[j] == '/'
    ensures Enable(path[..j], controllers) in Plan(path, i, controllers)
    decreases |path| - i
  {
    if i < j {
      PlanHas(path, i + 1, controllers, j);
    }
  }

  /** The components in front of a slash begin the components of the path. */
  lemma CutComponents(path: string, j: nat)
    requires j < |path| && path[j] == '/'
    ensures Components(path) == Components(path[..j]) + Components(path[j..])
  {
    assert path == path[..j] + path[j..];
    ComponentsAppend(path[..j], path[j..]);
  }

  /** The parent of a cgroup that is not directly below the root ends in front of a slash, too. */
  lemma ParentCut(s: string) returns (j: nat)
    requires |Components(s)| > 1
    ensures 1 <= j < |s| && s[j] == '/' && Components(s[..j]) == Components(s)[..|Components(s)| - 1]
  {
    hide Components, TrimName, TrimSlashes;
    var parent := ParentText(s);
    ParentComponents(s);
    OnlyEmpty(parent);
    j := |parent| - 1;
    assert parent == s[..j] + "/";
    NoSlashLost(s[..j]);
    OnlyEmpty(s[..j]);
  }

  /** Top-down: whenever controllers are enabled in a cgroup, that was done in its parent before. */
  lemma TopDown(path: string, controllers: Set, log: seq<Event>, n: nat)
    requires log <= Plan(path, 1, controllers) && n < |log| && log[n].Enable?
    ensures var level := Components(log[n].path);
            level != [] ==> EnabledBefore(log, n, level[..|level| - 1])
    ensures n > 0 && log[n - 1] == Make(log[n].path)
  {
    hide Components, Plan;
    var j := PlanAt(path, 1, controllers, n);
    var s := path[..j];
    if |Components(s)| > 1 {
      var k := ParentCut(s);
      assert s[..k] == path[..k] && s[k] == path[k];
      var m :| 0 <= m < n && Plan(path, 1, controllers)[m] == Enable(path[..k], controllers);
      assert log[m] == Enable(path[..k], controllers);
    }
  }

  /** Every cgroup above the new one is enabled in a run that ends well. */
  lemma {:induction false} AncestorCut(s: string, k: nat) returns (j: nat)
    requires 1 <= k < |Components(s)|
    ensures 1 <= j < |s| && s[j] == '/' && Components(s[..j]) == Components(s)[..k]
    decreases |s|
  {
    hide Components;
    j := ParentCut(s);
    if k < |Components(s)| - 1 {
      var j' := AncestorCut(s[..j], k);
      assert s[..j][..j'] == s[..j'] && s[..j][j'] == s[j'];
      assert Components(s)[..|Components(s)| - 1][..k] == Components(s)[..k];
      j := j';
    }
  }

  lemma AncestorsEnabled(path: string, controllers: Set, k: nat)
    requires k < |Components(path)|
    ensures EnabledBefore(Plan(path, 1, controllers), |Plan(path, 1, controllers)|, Components(path)[..k])
  {
    hide Components, Plan;
    if k > 0 {
      var j := AncestorCut(path, k);
      PlanHas(path, 1, controllers, j);
    }
  }

  lemma {:induction false} PlanEndsWithLeaf(path: string, i: nat, controllers: Set)
    requires 1 <= i <= |path|
    ensures Make(path) in Plan(path, i, controllers)
    decreases |path| - i
  {
    if i < |path| {
      PlanEndsWithLeaf(path, i + 1, controllers);
    }
  }

  /** Every cgroup from below the root to the new one is made. */
  lemma AllMade(path: string, controllers: Set, k: nat)
    requires 1 <= k <= |Components(path)|
    ensures exists m :: 0 <= m < |Plan(path, 1, controllers)| && Plan(path, 1, controllers)[m].Make? &&
                        Components(Plan(path, 1, controllers)[m].path) == Components(path)[..k]
  {
    var plan := Plan(path, 1, controllers);
    OnlyEmpty(path);
    if k < |Components(path)| {
      var j := AncestorCut(path, k);
      PlanHas(path, 1, controllers, j);
      var n :| 0 <= n < |plan| && plan[n] == Enable(path[..j], controllers);
      hide Components, Plan;
      TopDown(path, controllers, plan, n);
      assert plan[n - 1].Make?;
    } else {
      PlanEndsWithLeaf(path, 1, controllers);
      hide Components, Plan;
      var n :| 0 <= n < |plan| && plan[n] == Make(path);
      assert Components(path)[..k] == Components(path);
    }
  }

  /** The new cgroup itself is left without controllers exactly when the path does not end with a slash. */
  lemma LeafEnabled(path: string, controllers: Set)
    requires Components(path) != []
    ensures EnabledBefore(Plan(path, 1, controllers), |Plan(path, 1, controllers)|, Components(path)) <==>
      EndsWithSlash(path)
  {
    hide Plan;
    var plan := Plan(path, 1, controllers);
    if EndsWithSlash(path) {
      var j := |path| - 1;
      assert path == path[..j] + "/";
      NoSlashLost(path[..j]);
      OnlyEmpty(path[..j]);
      PlanHas(path, 1, controllers, j);
    }
    if EnabledBefore(plan, |plan|, Components(path)) {
      var m :| 0 <= m < |plan| && plan[m].Enable? && Components(plan[m].path) == Components(path);
      var j := PlanAt(path, 1, controllers, m);
      CutComponents(path, j);
      NoComponents(path[j..]);
      assert path[|path| - 1] in path[j..] by { assert path[j..][|path| - 1 - j] == path[|path| - 1]; }
    }
  }
}
