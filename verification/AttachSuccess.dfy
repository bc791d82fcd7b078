/** When replacing the device program succeeds, and the reasons for which it may fail. */
module AttachSuccess {
  import opened Common
  import opened AttachProtocol

  /** The replies that make a call give up. */
  predicate GivesUp(c: Call, r: Reply) {
    || r.OtherError?
    || (c.Attaching? && (r.NoEntry? || r.Invalid?))
    || ((c.Opening? || c.Replacing?) && c.attempt == 20 && r.NoEntry?)
  }

  /** One step: exactly these replies end in a failure. */
  lemma GivesUpIsExact(w: World, u: Prog, r: Reply)
    requires u in w.calls && CanReply(w, u, r) && PassesOk(w.calls[u])
    ensures NextCall(w.calls[u], r).Returned? && !NextCall(w.calls[u], r).ok <==> GivesUp(w.calls[u], r)
  {
  }

  /** How often the call has started over so far. */
  ghost function StartedOver(run: seq<World>, v: Prog, i: nat): nat
    requires i < |run|
  {
    if i == 0 then 0
    else
      StartedOver(run, v, i - 1) +
      if v in run[i - 1].calls && v in run[i].calls && !run[i - 1].calls[v].Querying? && run[i].calls[v].Querying?
      then 1 else 0
  }

  lemma StepOf(run: seq<World>, i: nat) returns (u: Prog, r: Reply)
    requires IsRun(run) && 0 < i < |run|
    ensures IsStep(run[i - 1], u, r, run[i])
  {
    hide Init, IsStep;
    assert Follows(run[i - 1], run[i - 1 + 1]);
    u :| StepsTo(run[i - 1], u, run[i]);
    r :| IsStep(run[i - 1], u, r, run[i]);
  }

  lemma CallsAfter(w: World, u: Prog, r: Reply, v: Prog)
    requires u in w.calls && v in w.calls && CanReply(w, u, r)
    ensures v in Step(w, u, r).calls
    ensures Step(w, u, r).calls[v] == if u == v then NextCall(w.calls[u], r) else w.calls[v]
  {
    hide NextCall;
  }

  /** A step of another call leaves this one alone. */
  lemma StepAt(run: seq<World>, i: nat, v: Prog) returns (r: Option<Reply>)
    requires IsRun(run) && 0 < i < |run| && v in run[i].calls
    ensures v in run[i - 1].calls && PassesOk(run[i - 1].calls[v])
    ensures r.None? ==> run[i].calls[v] == run[i - 1].calls[v]
    ensures r.Some? ==> IsStep(run[i - 1], v, r.value, run[i])
    ensures r.Some? ==> run[i].calls[v] == NextCall(run[i - 1].calls[v], r.value)
  {
    hide CanReply, NextCall, Step, PassesOk, IsRun;
    RunKeepsInv(run, i - 1);
    RunKeepsInv(run, i);
    assert CallOk(run[i - 1], run[0].attached, v, run[i - 1].calls[v]);
    var u, reply := StepOf(run, i);
    hide CallOk, Inv;
    CallsAfter(run[i - 1], u, reply, v);
    r := if u == v then Some(reply) else None;
  }

  lemma StillThere(run: seq<World>, i: nat, v: Prog)
    requires IsRun(run) && i < |run| && v in run[0].calls
    ensures v in run[i].calls
  {
    hide Inv;
    RunKeepsInv(run, i);
  }

  /** The counter counts the passes that were given up. */
  lemma {:induction false} AttemptsCount(run: seq<World>, v: Prog, i: nat)
    requires IsRun(run) && i < |run| && v in run[i].calls
    ensures run[i].calls[v].Before() ==> run[i].calls[v].attempt == StartedOver(run, v, i)
  {
    if i > 0 {
      var r := StepAt(run, i, v);
      AttemptsCount(run, v, i - 1);
      hide IsRun, CanReply;
    }
  }

  /**
  In every interleaving a call that has failed was given such a reply: an error, a refusal to attach, or, after starting
  over 20 times, once more the news that the program to be replaced was gone.
  */
  lemma {:induction false} FailureHasReason(run: seq<World>, v: Prog, i: nat) returns (k: nat, r: Reply)
    requires IsRun(run) && i < |run| && v in run[i].calls && run[i].calls[v].Returned? && !run[i].calls[v].ok
    ensures k < i && IsStep(run[k], v, r, run[k + 1]) && GivesUp(run[k].calls[v], r)
    ensures !r.OtherError? && !run[k].calls[v].Attaching? ==> r.NoEntry? && StartedOver(run, v, k) == 20
  {
    var reply := StepAt(run, i, v);
    if run[i - 1].calls[v].Returned? {
      k, r := FailureHasReason(run, v, i - 1);
    } else {
      k, r := i - 1, reply.value;
      GivesUpIsExact(run[k], v, r);
      AttemptsCount(run, v, k);
    }
  }

  // ---- Alone ----

  /** A run of one call with these replies. */
  ghost predicate IsAlone(run: seq<World>, u: Prog, replies: seq<Reply>) {
    && IsRun(run) && |run| == |replies| + 1
    && forall k :: 0 <= k < |replies| ==> IsStep(run[k], u, replies[k], run[k + 1])
  }

  /** No error, and a plain attach is not refused. That replacing is not supported is no error. */
  predicate Benign(c: Call, r: Reply) { !r.OtherError? && (c.Attaching? ==> r.Success?) }

  /** What a call that is alone has seen is still there. */
  predicate SeenStays(w: World, u: Prog) {
    u in w.calls &&
    match w.calls[u]
    case Opening(_, progs) => |progs| == 1 && progs[0] in w.attached
    case Replacing(_, progs) => |progs| == 1 && progs[0] in w.attached
    case Returned(ok, _) => ok
    case _ => true
  }

  lemma BenignStep(w: World, u: Prog, r: Reply)
    requires u in w.calls && CanReply(w, u, r) && PassesOk(w.calls[u]) && SeenStays(w, u) && Benign(w.calls[u], r)
    ensures SeenStays(Step(w, u, r), u)
  {
    if w.calls[u].Querying? && |r.progs| == 1 {
      assert r.progs[0] in set q | q in r.progs;
    }
  }

  lemma {:induction false} AloneKeeps(run: seq<World>, u: Prog, replies: seq<Reply>, i: nat)
    requires IsAlone(run, u, replies) && i < |run| && u in run[0].calls
    requires forall k :: 0 <= k < |replies| && u in run[k].calls ==> Benign(run[k].calls[u], replies[k])
    ensures SeenStays(run[i], u)
  {
    hide CanReply, NextCall, PassesOk, Benign;
    if i > 0 {
      AloneKeeps(run, u, replies, i - 1);
      assert IsStep(run[i - 1], u, replies[i - 1], run[i - 1 + 1]);
      StillThere(run, i, u);
      var r := StepAt(run, i, u);
      hide IsRun, Step, SeenStays;
      BenignStep(run[i - 1], u, replies[i - 1]);
    } else {
      assert run[0].calls[u] == Querying(0, false);
    }
  }

  /** A call that runs alone and meets no error returns 0 and leaves exactly its own program. */
  lemma AloneSucceeds(run: seq<World>, u: Prog, replies: seq<Reply>)
    requires IsAlone(run, u, replies) && u in run[0].calls
    requires forall k :: 0 <= k < |replies| && u in run[k].calls ==> Benign(run[k].calls[u], replies[k])
    requires u in run[|replies|].calls && run[|replies|].calls[u].Returned?
    ensures run[|replies|].calls[u].ok && run[|replies|].attached == {u}
  {
    AloneKeeps(run, u, replies, |replies|);
    forall i | 0 <= i < |run| - 1 ensures StepsTo(run[i], u, run[i + 1]) {
      assert IsStep(run[i], u, replies[i], run[i + 1]);
    }
    AloneLeavesOwn(run, u, |replies|);
  }

  /** Replacing the only program. */
  predicate OneProgram(w: World, u: Prog) {
    |w.attached| == 1 && u in w.calls &&
    match w.calls[u]
    case Querying(_, skip) => !skip
    case Attaching(_, _, _) => false
    case Removing(_, _) => false
    case _ => true
  }

  lemma OneProgramStep(w: World, u: Prog, r: Reply)
    requires u in w.calls && CanReply(w, u, r) && OneProgram(w, u) && !r.Invalid?
    requires w.calls[u].Replacing? ==> u !in w.attached
    ensures OneProgram(Step(w, u, r), u)
  {
  }

  /** In a cgroup with one program, where replacing is supported, there is one program at every moment. */
  lemma {:induction false} AloneIsAtomic(run: seq<World>, u: Prog, replies: seq<Reply>, i: nat)
    requires IsAlone(run, u, replies) && i < |run| && u in run[0].calls && |run[0].attached| == 1
    requires forall k :: 0 <= k < |replies| ==> !replies[k].Invalid?
    ensures |run[i].attached| == 1 && OneProgram(run[i], u)
  {
    hide CanReply, NextCall;
    if i > 0 {
      AloneIsAtomic(run, u, replies, i - 1);
      assert IsStep(run[i - 1], u, replies[i - 1], run[i - 1 + 1]);
      RunKeepsInv(run, i - 1);
      assert CallOk(run[i - 1], run[0].attached, u, run[i - 1].calls[u]);
      hide IsRun, Step, OneProgram;
      OneProgramStep(run[i - 1], u, replies[i - 1]);
    } else {
      assert run[0].calls[u] == Querying(0, false);
    }
  }
}
