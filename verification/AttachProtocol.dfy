/**
Replacing the device program of a cgroup while others do the same.

Each call of ebpf_attach_program is a state machine whose steps are its system
calls; the steps of any number of calls interleave freely on one cgroup. A call
is named by the id of the program it attaches, so ids of calls are distinct from
each other and from the ids of the programs that were attached beforehand.
Reading the list of attached programs is one atomic query.
*/
module AttachProtocol {
  import opened Common

  type Prog = nat

  const MAX_ATTEMPTS := 20

  datatype Call =
    | Querying(attempt: nat, skip: bool)
    | Opening(attempt: nat, progs: seq<Prog>)
    | Attaching(attempt: nat, skip: bool, progs: seq<Prog>)
    | Replacing(attempt: nat, progs: seq<Prog>)
    | Removing(progs: seq<Prog>, i: nat)
    | Returned(ok: bool, progs: seq<Prog>)
  {
    /** The call's own program is not attached yet. */
    predicate Before() { Querying? || Opening? || Attaching? || Replacing? }

    /** The programs found by the last query. */
    function Seen(): seq<Prog> { if Querying? then [] else progs }
  }

  /** The cgroup's programs, those that were ever attached, the one attached last by a call, and the calls. */
  datatype World = World(attached: set<Prog>, ever: set<Prog>, newest: Option<Prog>, calls: map<Prog, Call>)

  /** What the kernel answers to the system call a call is at. */
  datatype Reply = Listing(progs: seq<Prog>) | Success | NoEntry | Invalid | OtherError

  predicate IsListing(progs: seq<Prog>, attached: set<Prog>) {
    (set p | p in progs) == attached && |progs| == |attached|
  }

  /** The replies the kernel can give: a listing is exact, a replaced or detached program was attached, and
      an attached program or its id is never reported missing. */
  predicate CanReply(w: World, u: Prog, r: Reply)
    requires u in w.calls
  {
    match w.calls[u]
    case Querying(_, _) => r.OtherError? || (r.Listing? && IsListing(r.progs, w.attached))
    case Opening(_, progs) => r.Success? || r.OtherError? || (r.NoEntry? && |progs| == 1 && progs[0] !in w.attached)
    case Attaching(_, _, _) => !r.Listing?
    case Replacing(_, progs) =>
      |progs| == 1 && ((r.Success? && progs[0] in w.attached) || (r.NoEntry? && progs[0] !in w.attached) ||
        r.Invalid? || r.OtherError?)
    case Removing(progs, i) =>
      i < |progs| && ((r.Success? && progs[i] in w.attached) || (r.NoEntry? && progs[i] !in w.attached) ||
        r.OtherError?)
    case Returned(_, _) => false
  }

  function Retry(attempt: nat, progs: seq<Prog>): Call {
    if attempt < MAX_ATTEMPTS then Querying(attempt + 1, false) else Returned(false, progs)
  }

  /** After an attach without replacement the programs seen before are removed, if there were any. */
  function AfterAttach(progs: seq<Prog>): Call {
    if progs == [] then Returned(true, progs) else Removing(progs, 0)
  }

  function AfterRemoval(progs: seq<Prog>, i: nat): Call {
    if i + 1 < |progs| then Removing(progs, i + 1) else Returned(true, progs)
  }

  function NextCall(c: Call, r: Reply): Call {
    match c
    case Querying(attempt, skip) =>
      if !r.Listing? then Returned(false, [])
      else if !skip && |r.progs| == 1 then Opening(attempt, r.progs)
      else Attaching(attempt, skip, r.progs)
    case Opening(attempt, progs) =>
      if r.Success? then Replacing(attempt, progs)
      else if r.NoEntry? then Retry(attempt, progs)
      else Returned(false, progs)
    case Attaching(_, _, progs) => if r.Success? then AfterAttach(progs) else Returned(false, progs)
    case Replacing(attempt, progs) =>
      if r.Success? then Returned(true, progs)
      else if r.NoEntry? then Retry(attempt, progs)
      else if r.Invalid? then Querying(attempt + 1, true)
      else Returned(false, progs)
    case Removing(progs, i) => if r.OtherError? then Returned(false, progs) else AfterRemoval(progs, i)
    case Returned(_, _) => c
  }

  /** One system call of the call u. */
  function Step(w: World, u: Prog, r: Reply): World
    requires u in w.calls && CanReply(w, u, r)
  {
    var c := w.calls[u];
    var calls := w.calls[u := NextCall(c, r)];
    if r.Success? && c.Attaching? then World(w.attached + {u}, w.ever + {u}, Some(u), calls)
    else if r.Success? && c.Replacing? then World(w.attached - {c.progs[0]} + {u}, w.ever + {u}, Some(u), calls)
    else if r.Success? && c.Removing? then World(w.attached - {c.progs[c.i]}, w.ever, w.newest, calls)
    else w.(calls := calls)
  }

  predicate IsStep(w: World, u: Prog, r: Reply, w': World) {
    u in w.calls && CanReply(w, u, r) && w' == Step(w, u, r)
  }

  predicate Init(w: World) {
    && w.newest == None && w.ever == w.attached
    && forall u :: u in w.calls ==> w.calls[u] == Querying(0, false) && u !in w.attached
  }

  ghost predicate StepsTo(w: World, u: Prog, w': World) {
    exists r :: IsStep(w, u, r, w')
  }

  ghost predicate Follows(w: World, w': World) {
    exists u :: StepsTo(w, u, w')
  }

  /** A run: any interleaving of the calls' steps. */
  ghost predicate IsRun(run: seq<World>) {
    && |run| > 0 && Init(run[0])
    && forall i :: 0 <= i < |run| - 1 ==> Follows(run[i], run[i + 1])
  }

  // ------------------------------------------------------------ passes bound

  /** The counter of the retry loop stays below 22, and reaches 21 only without replacement. */
  predicate PassesOk(c: Call) {
    match c
    case Querying(attempt, skip) => attempt <= MAX_ATTEMPTS || (attempt == MAX_ATTEMPTS + 1 && skip)
    case Opening(attempt, progs) => attempt <= MAX_ATTEMPTS && |progs| == 1
    case Attaching(attempt, skip, _) => attempt <= MAX_ATTEMPTS || (attempt == MAX_ATTEMPTS + 1 && skip)
    case Replacing(attempt, progs) => attempt <= MAX_ATTEMPTS && |progs| == 1
    case Removing(progs, i) => i < |progs|
    case Returned(_, _) => true
  }

  /** A measure of what a call still has to do. */
  function Left(c: Call): (nat, nat)
    requires PassesOk(c)
  {
    match c
    case Querying(attempt, _) => (4 * (MAX_ATTEMPTS + 1 - attempt) + 4, 0)
    case Opening(attempt, _) => (4 * (MAX_ATTEMPTS + 1 - attempt) + 3, 0)
    case Attaching(attempt, _, _) => (4 * (MAX_ATTEMPTS + 1 - attempt) + 2, 0)
    case Replacing(attempt, _) => (4 * (MAX_ATTEMPTS + 1 - attempt) + 2, 0)
    case Removing(progs, i) => (1, |progs| - i)
    case Returned(_, _) => (0, 0)
  }

  /** Every step keeps the bound of 22 passes and brings the call closer to its return. */
  lemma StepCountsDown(w: World, u: Prog, r: Reply)
    requires u in w.calls && CanReply(w, u, r) && PassesOk(w.calls[u])
    ensures var c, c' := w.calls[u], Step(w, u, r).calls[u];
            PassesOk(c') && (Left(c').0 < Left(c).0 || (Left(c').0 == Left(c).0 && Left(c').1 < Left(c).1))
  {
  }

  // --------------------------------------------------------------- invariant

  /** What holds of one call; `before` are the programs that were attached before any call. */
  predicate CallOk(w: World, before: set<Prog>, v: Prog, c: Call) {
    && PassesOk(c) && v !in before
    && (c.Before() ==> v !in w.ever)
    && (forall p :: p in c.Seen() ==> p in w.ever)
    // Nobody is going to remove the newest program, and what was removed is gone for good.
    && (c.Removing? ==>
      w.newest.Some? && w.newest.value !in c.progs && forall k :: 0 <= k < c.i ==> c.progs[k] !in w.attached)
    && (c.Returned? && c.ok ==> w.newest.Some? && forall p :: p in c.progs ==> p !in w.attached)
    // A program from before that is still attached was in the listing.
    && (c.Querying? || (c.Returned? && !c.ok) || forall p :: p in before && p in w.attached ==> p in c.Seen())
  }

  predicate Inv(w: World, before: set<Prog>) {
    && w.attached <= w.ever && before <= w.ever
    && (w.newest.Some? ==> w.newest.value in w.attached)
    && forall v :: v in w.calls ==> CallOk(w, before, v, w.calls[v])
  }

  /** The call that steps. */
  lemma OwnStepOk(w: World, u: Prog, r: Reply, before: set<Prog>)
    requires u in w.calls && CanReply(w, u, r) && Inv(w, before)
    ensures CallOk(Step(w, u, r), before, u, Step(w, u, r).calls[u])
  {
    var c, w' := w.calls[u], Step(w, u, r);
    assert CallOk(w, before, u, c);
    if c.Querying? && r.Listing? {
      assert forall p :: p in r.progs <==> p in w.attached by {
        assert forall p :: p in r.progs <==> p in set q | q in r.progs;
      }
    }
  }

  /** All other calls. */
  lemma OtherStepOk(w: World, u: Prog, r: Reply, before: set<Prog>, v: Prog)
    requires u in w.calls && CanReply(w, u, r) && Inv(w, before) && v in w.calls && v != u
    ensures CallOk(Step(w, u, r), before, v, w.calls[v])
  {
    assert CallOk(w, before, u, w.calls[u]) && CallOk(w, before, v, w.calls[v]);
  }

  lemma StepKeepsInv(w: World, u: Prog, r: Reply, before: set<Prog>)
    requires u in w.calls && CanReply(w, u, r) && Inv(w, before)
    ensures Inv(Step(w, u, r), before)
  {
    assert CallOk(w, before, u, w.calls[u]);
    OwnStepOk(w, u, r, before);
    forall v | v in w.calls && v != u
      ensures CallOk(Step(w, u, r), before, v, w.calls[v]) { OtherStepOk(w, u, r, before, v); }
  }

  lemma {:induction false} RunKeepsInv(run: seq<World>, i: nat)
    requires IsRun(run) && i < |run|
    ensures Inv(run[i], run[0].attached) && run[i].calls.Keys == run[0].calls.Keys
  {
    if i > 0 {
      RunKeepsInv(run, i - 1);
      assert Follows(run[i - 1], run[i - 1 + 1]);
      var u :| StepsTo(run[i - 1], u, run[i]);
      var r :| IsStep(run[i - 1], u, r, run[i]);
      StepKeepsInv(run[i - 1], u, r, run[0].attached);
    }
  }

  // -------------------------------------------------------------- main results

  lemma {:induction false} NewestStays(run: seq<World>, i: nat, j: nat)
    requires IsRun(run) && i <= j < |run| && run[i].newest.Some?
    ensures run[j].newest.Some?
  {
    if i < j {
      NewestStays(run, i, j - 1);
      assert Follows(run[j - 1], run[j - 1 + 1]);
    }
  }

  /** In every interleaving: once a call has attached its program, the cgroup is never again without one. */
  lemma NeverUnprotected(run: seq<World>, i: nat, j: nat)
    requires IsRun(run) && i <= j < |run| && run[i].newest.Some?
    ensures run[j].newest.Some? && run[j].newest.value in run[j].attached
    ensures forall v :: v in run[j].calls && run[j].calls[v].Removing? ==> run[j].newest.value !in run[j].calls[v].progs
  {
    NewestStays(run, i, j);
    RunKeepsInv(run, j);
    forall v | v in run[j].calls && run[j].calls[v].Removing? ensures run[j].newest.value !in run[j].calls[v].progs {
      assert CallOk(run[j], run[0].attached, v, run[j].calls[v]);
    }
  }

  /**
  In every interleaving: after a call has returned 0, no program from before any call is attached, nor one that it
  listed.
  */
  lemma SuccessCleansUp(run: seq<World>, i: nat, v: Prog)
    requires IsRun(run) && i < |run| && v in run[i].calls && run[i].calls[v].Returned? && run[i].calls[v].ok
    ensures run[i].attached !! run[0].attached
    ensures forall p :: p in run[i].calls[v].progs ==> p !in run[i].attached
    ensures run[i].attached <= run[0].calls.Keys
  {
    RunKeepsInv(run, i);
    assert CallOk(run[i], run[0].attached, v, run[i].calls[v]);
    EverIsKnown(run, i);
  }

  lemma {:induction false} EverIsKnown(run: seq<World>, i: nat)
    requires IsRun(run) && i < |run|
    ensures run[i].ever <= run[0].attached + run[0].calls.Keys
  {
    if i > 0 {
      EverIsKnown(run, i - 1);
      RunKeepsInv(run, i - 1);
      assert Follows(run[i - 1], run[i - 1 + 1]);
    }
  }

  /** Every call of every run has made at most 22 passes through its loop. */
  lemma AtMost22Passes(run: seq<World>, i: nat, v: Prog)
    requires IsRun(run) && i < |run| && v in run[i].calls
    ensures run[i].calls[v].Before() ==> run[i].calls[v].attempt < 22
  {
    RunKeepsInv(run, i);
    assert CallOk(run[i], run[0].attached, v, run[i].calls[v]);
  }

  /** A run in which only the call u takes steps. */
  ghost predicate IsSoloRun(run: seq<World>, u: Prog) {
    IsRun(run) && forall i :: 0 <= i < |run| - 1 ==> StepsTo(run[i], u, run[i + 1])
  }

  lemma {:induction false} SoloEver(run: seq<World>, u: Prog, i: nat)
    requires IsSoloRun(run, u) && i < |run|
    ensures run[i].ever <= run[0].attached + {u}
  {
    if i > 0 {
      SoloEver(run, u, i - 1);
      assert StepsTo(run[i - 1], u, run[i - 1 + 1]);
    }
  }

  /** A call that runs alone and returns 0 leaves exactly its own program. */
  lemma AloneLeavesOwn(run: seq<World>, u: Prog, i: nat)
    requires IsSoloRun(run, u) && i < |run| && u in run[i].calls && run[i].calls[u].Returned? && run[i].calls[u].ok
    ensures run[i].attached == {u}
  {
    SuccessCleansUp(run, i, u);
    SoloEver(run, u, i);
    RunKeepsInv(run, i);
    assert CallOk(run[i], run[0].attached, u, run[i].calls[u]);
  }

  lemma {:induction false} ListingExists(s: set<Prog>) returns (progs: seq<Prog>)
    ensures IsListing(progs, s)
  {
    if s == {} {
      progs := [];
    } else {
      var p :| p in s;
      var rest := ListingExists(s - {p});
      progs := [p] + rest;
      assert forall q :: q in rest <==> q in s - {p} by { assert forall q :: q in rest <==> q in set x | x in rest; }
      assert (set q | q in progs) == s;
    }
  }

  /** A call that has not returned is never stuck: some reply other than a failure is possible. */
  lemma NeverStuck(w: World, u: Prog) returns (r: Reply)
    requires u in w.calls && PassesOk(w.calls[u]) && !w.calls[u].Returned?
    ensures CanReply(w, u, r) && !r.OtherError? && !r.Invalid?
  {
    match w.calls[u]
    case Querying(_, _) =>
      var progs := ListingExists(w.attached);
      r := Listing(progs);
    case Opening(_, _) => r := Success;
    case Attaching(_, _, _) => r := Success;
    case Replacing(_, progs) => r := if progs[0] in w.attached then Success else NoEntry;
    case Removing(progs, i) => r := if progs[i] in w.attached then Success else NoEntry;
  }
}
