/**
What the handshake is for: when nothing fails, the container gets set up. Together with the absence of deadlock and the
bound on the length of runs this makes success inevitable.
*/
module HandshakeSuccess {
  import opened Handshake

  predicate AllSmooth(actions: seq<Action>) { forall k :: 0 <= k < |actions| ==> Smooth(actions[k]) }

  /** Neither side has failed, there is no error message, and the terminal and the program's path are handed over. */
  predicate OnCourse(cfg: Config, s: State) {
    && Live(s.r) && s.i <= IExec && !s.past.errorSent && Error !in s.net.toRuntime
    && (s.env.terminalClosed ==> s.i >= ISend4)
    && (s.i >= ISetup5 && cfg.terminal ==> s.env.terminalSent)
    && (s.i >= ISend4 ==> s.env.execPath)
    && (s.i == IFifo ==> cfg.create)
  }

  lemma RKeepsCourse(cfg: Config, s: State, a: Action)
    requires cfg.callback && Inv(cfg, s) && OnCourse(cfg, s) && REnabled(cfg, s, a) && Smooth(a)
    ensures OnCourse(cfg, RStep(cfg, s, a))
  {
    hide SyncsBeforeError, HooksOk, StatusOk;
  }

  lemma IKeepsCourse(cfg: Config, s: State, a: Action)
    requires cfg.callback && Inv(cfg, s) && OnCourse(cfg, s) && IEnabled(s, a) && Smooth(a)
    ensures OnCourse(cfg, IStep(cfg, s, a))
  {
    hide SyncsBeforeError, HooksOk, StatusOk;
  }

  lemma StepAt(cfg: Config, run: seq<State>, actions: seq<Action>, k: nat)
    requires IsRun(cfg, run, actions) && 0 < k < |run|
    ensures Enabled(cfg, run[k - 1], actions[k - 1]) && run[k] == Step(cfg, run[k - 1], actions[k - 1])
  {
    hide Enabled, Step;
    assert IsStep(cfg, run[k - 1], actions[k - 1], run[k - 1 + 1]);
  }

  lemma StepKeepsCourse(cfg: Config, s: State, a: Action)
    requires cfg.callback && Inv(cfg, s) && OnCourse(cfg, s) && Enabled(cfg, s, a) && Smooth(a)
    ensures OnCourse(cfg, Step(cfg, s, a))
  {
    hide Inv, REnabled, IEnabled, RStep, IStep;
    if a.StartCommand? {
    } else if REnabled(cfg, s, a) {
      RKeepsCourse(cfg, s, a);
    } else {
      IKeepsCourse(cfg, s, a);
    }
  }

  lemma NoSuddenDeath(cfg: Config, s: State, a: Action)
    requires Enabled(cfg, s, a) && !a.RDie? && s.r != RDied
    ensures Step(cfg, s, a).r != RDied
  {
  }

  lemma {:induction false} StaysOnCourse(cfg: Config, run: seq<State>, actions: seq<Action>, k: nat)
    requires IsRun(cfg, run, actions) && k < |run| && AllSmooth(actions)
    ensures if cfg.callback then OnCourse(cfg, run[k]) else run[k].r != RDied
  {
    if k > 0 {
      StaysOnCourse(cfg, run, actions, k - 1);
      RunKeepsInv(cfg, run, actions, k - 1);
      StepAt(cfg, run, actions, k);
      hide Inv, OnCourse, Enabled, Step, IsRun;
      assert Smooth(actions[k - 1]);
      if cfg.callback {
        StepKeepsCourse(cfg, run[k - 1], actions[k - 1]);
      } else {
        NoSuddenDeath(cfg, run[k - 1], actions[k - 1]);
      }
    }
  }

  /** The fifo has been written exactly when there was a start command. */
  lemma {:induction false} FifoMeansStart(cfg: Config, run: seq<State>, actions: seq<Action>, k: nat)
    requires IsRun(cfg, run, actions) && k < |run|
    ensures run[k].env.fifo <==> StartCommand in actions[..k]
  {
    if k > 0 {
      FifoMeansStart(cfg, run, actions, k - 1);
      StepAt(cfg, run, actions, k);
      assert actions[..k] == actions[..k - 1] + [actions[k - 1]];
      OnlyStartWrites(cfg, run[k - 1], actions[k - 1]);
      hide IsRun, Enabled, Step;
    }
  }

  lemma OnlyStartWrites(cfg: Config, s: State, a: Action)
    requires Enabled(cfg, s, a)
    ensures Step(cfg, s, a).env.fifo <==> s.env.fifo || a.StartCommand?
  {
    hide REnabled, IEnabled, RStep, IStep;
    if a.StartCommand? {
    } else if REnabled(cfg, s, a) {
      RLeavesFifo(cfg, s, a);
    } else {
      ILeavesFifo(cfg, s, a);
    }
  }

  lemma RLeavesFifo(cfg: Config, s: State, a: Action)
    requires REnabled(cfg, s, a)
    ensures RStep(cfg, s, a).env.fifo == s.env.fifo
  {
  }

  lemma ILeavesFifo(cfg: Config, s: State, a: Action)
    requires IEnabled(s, a)
    ensures IStep(cfg, s, a).env.fifo == s.env.fifo
  {
  }

  /**
  Every run in which nothing fails and that is over: with the callback the runtime has got to its end with a written
  status and init executes the program, or waits for a start command after `create`; without it the runtime has failed.
  */
  lemma SmoothRunsSucceed(cfg: Config, run: seq<State>, actions: seq<Action>)
    requires IsRun(cfg, run, actions) && AllSmooth(actions) && Over(run[|actions|])
    ensures var s := run[|actions|];
            && (cfg.callback ==>
                  && s.r == RWatch && s.env.status && SetUp(s)
                  && s.i == if cfg.create && StartCommand !in actions then IFifo else IExec)
            && (!cfg.callback ==> s.r == RFailed && s.i == IDead && !s.env.status)
  {
    var n := |actions|;
    StaysOnCourse(cfg, run, actions, n);
    RunKeepsInv(cfg, run, actions, n);
    FifoMeansStart(cfg, run, actions, n);
    assert actions[..n] == actions;
    hide IsRun, Syncs, SyncsBeforeError;
  }

  /** Every such run can be brought to its end without a failure, and each step counts down to it. */
  lemma {:induction false} SmoothRunsEnd(cfg: Config, run: seq<State>, actions: seq<Action>)
    returns (run': seq<State>, actions': seq<Action>)
    requires IsRun(cfg, run, actions) && AllSmooth(actions)
    ensures IsRun(cfg, run', actions') && AllSmooth(actions') && Over(run'[|actions'|])
    ensures run <= run' && actions <= actions'
    decreases Left(run[|actions|])
  {
    var s := run[|actions|];
    if Over(s) {
      return run, actions;
    }
    var a := NoDeadlock(cfg, run, actions, |actions|);
    StepCountsDown(cfg, s, a);
    hide Step, Enabled, Left, Over, Smooth;
    var longer, more := run + [Step(cfg, s, a)], actions + [a];
    assert IsRun(cfg, longer, more);
    run', actions' := SmoothRunsEnd(cfg, longer, more);
  }

  // ---- What the history says is what happened ----

  /** Before this point of the run the runtime's hooks at this place returned 0. */
  predicate RuntimeRan(run: seq<State>, actions: seq<Action>, k: nat, place: nat)
    requires k <= |actions| <= |run|
  {
    exists j :: 0 <= j < k && run[j].r == place && actions[j] == RHook(0)
  }

  predicate InitRan(run: seq<State>, actions: seq<Action>, k: nat, place: nat)
    requires k <= |actions| <= |run|
  {
    exists j :: 0 <= j < k && run[j].i == place && actions[j] == IHook(0)
  }

  /** What one step can do to the places behind the hooks, and to the history. */
  lemma StepPassesHooks(cfg: Config, s: State, a: Action)
    requires Enabled(cfg, s, a)
    ensures var t := Step(cfg, s, a);
            && (RCreateRuntime <= t.r <= RWatch ==>
                  RCreateRuntime <= s.r <= RWatch || (s.r == RPrestart && a == RHook(0)))
            && (t.past.runtimeHooksOk ==> s.past.runtimeHooksOk || (s.r == RCreateRuntime && a == RHook(0)))
            && (t.past.containerHooksOk ==> s.past.containerHooksOk || (s.i == IHooks && a == IHook(0)))
            && (t.i == IExec ==> s.i == IExec || (s.i == IStartHooks && a == IHook(0)))
  {
    hide REnabled, IEnabled, RStep, IStep;
    if a.StartCommand? {
    } else if REnabled(cfg, s, a) {
      RPassesHooks(cfg, s, a);
    } else {
      IPassesHooks(cfg, s, a);
    }
  }

  lemma RPassesHooks(cfg: Config, s: State, a: Action)
    requires REnabled(cfg, s, a)
    ensures var t := RStep(cfg, s, a);
            && (RCreateRuntime <= t.r <= RWatch ==>
                  RCreateRuntime <= s.r <= RWatch || (s.r == RPrestart && a == RHook(0)))
            && (t.past.runtimeHooksOk ==> s.past.runtimeHooksOk || (s.r == RCreateRuntime && a == RHook(0)))
            && t.past.containerHooksOk == s.past.containerHooksOk && (t.i == s.i || t.i == IDead)
  {
  }

  lemma IPassesHooks(cfg: Config, s: State, a: Action)
    requires IEnabled(s, a)
    ensures var t := IStep(cfg, s, a);
            && t.r == s.r && t.past.runtimeHooksOk == s.past.runtimeHooksOk
            && (t.past.containerHooksOk ==> s.past.containerHooksOk || (s.i == IHooks && a == IHook(0)))
            && (t.i == IExec ==> s.i == IExec || (s.i == IStartHooks && a == IHook(0)))
  {
  }

  lemma {:induction false} PastIsReal(cfg: Config, run: seq<State>, actions: seq<Action>, k: nat)
    requires IsRun(cfg, run, actions) && k < |run|
    ensures RCreateRuntime <= run[k].r <= RWatch ==> RuntimeRan(run, actions, k, RPrestart)
    ensures run[k].past.runtimeHooksOk ==>
      RuntimeRan(run, actions, k, RPrestart) && RuntimeRan(run, actions, k, RCreateRuntime)
    ensures run[k].past.containerHooksOk ==> InitRan(run, actions, k, IHooks)
    ensures run[k].i == IExec ==> InitRan(run, actions, k, IStartHooks)
  {
    if k > 0 {
      hide Enabled, Step, RuntimeRan, InitRan;
      PastIsReal(cfg, run, actions, k - 1);
      StepAt(cfg, run, actions, k);
      StepPassesHooks(cfg, run[k - 1], actions[k - 1]);
      hide IsRun;
      RanMore(run, actions, k, RPrestart);
      RanMore(run, actions, k, RCreateRuntime);
      RanMore(run, actions, k, IHooks);
      RanMore(run, actions, k, IStartHooks);
    } else {
      hide RuntimeRan, InitRan;
    }
  }

  lemma RanMore(run: seq<State>, actions: seq<Action>, k: nat, place: nat)
    requires 0 < k <= |actions| <= |run|
    ensures RuntimeRan(run, actions, k - 1, place) || (run[k - 1].r == place && actions[k - 1] == RHook(0)) ==>
      RuntimeRan(run, actions, k, place)
    ensures InitRan(run, actions, k - 1, place) || (run[k - 1].i == place && actions[k - 1] == IHook(0)) ==>
      InitRan(run, actions, k, place)
  {
  }

  /**
  With a written status the prestart, createRuntime and createContainer hooks have run and returned 0; before any
  createContainer hook, with the callback, the first two; and before the program is executed all of them and the
  startContainer hooks.
  */
  lemma HooksRan(cfg: Config, run: seq<State>, actions: seq<Action>, k: nat)
    requires IsRun(cfg, run, actions) && k < |run|
    ensures run[k].env.status || (cfg.callback && (run[k].i == IHooks || run[k].i == IExec)) ==>
      RuntimeRan(run, actions, k, RPrestart) && RuntimeRan(run, actions, k, RCreateRuntime)
    ensures run[k].env.status || run[k].i == IExec ==> InitRan(run, actions, k, IHooks)
    ensures run[k].i == IExec ==> InitRan(run, actions, k, IStartHooks)
  {
    PastIsReal(cfg, run, actions, k);
    RunKeepsInv(cfg, run, actions, k);
    if cfg.callback {
      HooksRunInOrder(cfg, run, actions, k);
    }
    hide IsRun, RuntimeRan, InitRan, ClosedOk, ToInitOk, ToRuntimeOk;
  }

  // ---- Errors reach the runtime ----

  /** Nobody dies, and the runtime itself does not fail. */
  predicate Honest(a: Action) { !a.RFail? && !a.RDie? && !a.IDie? && (a.RHook? ==> a.code == 0) }

  predicate AllHonest(actions: seq<Action>) { forall k :: 0 <= k < |actions| ==> Honest(actions[k]) }

  /** A failure of init's setup, or of a createContainer hook. */
  predicate SetupFails(s: State, a: Action) {
    (a.IError? && BeforeSync4(s.i)) || (a.IHook? && a.code != 0 && s.i == IHooks)
  }

  /** What has not been told yet is about to be: init has failed and the runtime is still listening. */
  predicate AboutToTell(s: State) {
    s.i == IFail && Live(s.r) && Error !in s.net.toRuntime && !s.env.terminalClosed
  }

  /** Without an error the runtime has no reason to fail as long as init is at its setup. */
  predicate NoErrorYet(s: State) {
    !s.past.errorSent && s.i <= ISetup5 ==> Live(s.r) && Error !in s.net.toRuntime && !s.env.terminalClosed
  }

  lemma RStaysCalm(cfg: Config, s: State, a: Action)
    requires Inv(cfg, s) && REnabled(cfg, s, a) && Honest(a) && NoErrorYet(s)
    ensures NoErrorYet(RStep(cfg, s, a))
    ensures AboutToTell(s) && !s.past.errorSent ==> AboutToTell(RStep(cfg, s, a))
    ensures RStep(cfg, s, a).past.errorSent == s.past.errorSent
  {
    hide SyncsBeforeError, HooksOk, StatusOk;
  }

  lemma IStaysCalm(cfg: Config, s: State, a: Action)
    requires Inv(cfg, s) && IEnabled(s, a) && Honest(a) && NoErrorYet(s)
    ensures NoErrorYet(IStep(cfg, s, a))
    ensures s.past.errorSent ==> IStep(cfg, s, a).past.errorSent
    ensures SetupFails(s, a) || AboutToTell(s) ==>
      IStep(cfg, s, a).past.errorSent || AboutToTell(IStep(cfg, s, a))
  {
    hide SyncsBeforeError, HooksOk, StatusOk, Syncs;
  }

  lemma StepStaysCalm(cfg: Config, s: State, a: Action)
    requires Inv(cfg, s) && Enabled(cfg, s, a) && Honest(a) && NoErrorYet(s)
    ensures var t := Step(cfg, s, a);
            && NoErrorYet(t) && (s.past.errorSent ==> t.past.errorSent)
            && (SetupFails(s, a) || AboutToTell(s) ==> t.past.errorSent || AboutToTell(t))
  {
    hide Inv, REnabled, IEnabled, RStep, IStep;
    if a.StartCommand? {
    } else if REnabled(cfg, s, a) {
      RStaysCalm(cfg, s, a);
      RIsNotInit(cfg, s, a);
    } else {
      IStaysCalm(cfg, s, a);
    }
  }

  lemma RIsNotInit(cfg: Config, s: State, a: Action)
    requires REnabled(cfg, s, a)
    ensures !SetupFails(s, a)
  {
  }

  lemma {:induction false} FailureIsTold(cfg: Config, run: seq<State>, actions: seq<Action>, k: nat)
    requires IsRun(cfg, run, actions) && k < |run| && AllHonest(actions)
    ensures NoErrorYet(run[k])
    ensures (exists j :: 0 <= j < k && SetupFails(run[j], actions[j])) ==> run[k].past.errorSent || AboutToTell(run[k])
  {
    if k > 0 {
      FailureIsTold(cfg, run, actions, k - 1);
      RunKeepsInv(cfg, run, actions, k - 1);
      StepAt(cfg, run, actions, k);
      hide Inv, Enabled, Step, IsRun, SetupFails, AboutToTell, NoErrorYet, Honest;
      assert Honest(actions[k - 1]);
      StepStaysCalm(cfg, run[k - 1], actions[k - 1]);
    }
  }

  /**
  When init's setup or a createContainer hook fails, and nobody dies, the runtime is told: once it is over an error was
  sent, the runtime has failed, init is gone, and there is no status.
  */
  lemma FailuresAreReported(cfg: Config, run: seq<State>, actions: seq<Action>, j: nat)
    requires IsRun(cfg, run, actions) && AllHonest(actions) && Over(run[|actions|])
    requires j < |actions| && SetupFails(run[j], actions[j])
    ensures var s := run[|actions|]; s.past.errorSent && s.r == RFailed && s.i == IDead && !s.env.status
  {
    var n := |actions|;
    FailureIsTold(cfg, run, actions, n);
    RunKeepsInv(cfg, run, actions, n);
    ErrorForbidsStatus(cfg, run, actions, n, n);
    NobodyDied(cfg, run, actions, n);
    hide IsRun, Syncs, SyncsBeforeError;
  }

  lemma {:induction false} NobodyDied(cfg: Config, run: seq<State>, actions: seq<Action>, k: nat)
    requires IsRun(cfg, run, actions) && k < |run| && AllHonest(actions)
    ensures run[k].r != RDied
  {
    if k > 0 {
      NobodyDied(cfg, run, actions, k - 1);
      StepAt(cfg, run, actions, k);
      assert Honest(actions[k - 1]);
      hide IsRun, Enabled, Step;
      NoSuddenDeath(cfg, run[k - 1], actions[k - 1]);
    }
  }
}
