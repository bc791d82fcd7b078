/**
The handshake between the runtime and the container's init process.

Both sides step through their program, exchanging the pid and syncs 1 to 4 over a
socket pair that keeps order and message boundaries; init also sends log and error
messages. Any system call may fail, hooks return any code, either side may die at
any point, and "start" commands may come at any time. The queues are unbounded.
*/
module Handshake {

  datatype Msg = Pid | Sync | Error | Log

  /** `callback`: the root filesystem and the mounts are configured, so that libcrun_set_mounts calls its callback. */
  datatype Config = Config(callback: bool, terminal: bool, create: bool)

  // Places in the two programs, in the order they are reached; the ends of a failure come last.
  type RuntimePc = n: nat | n <= RDied
  type InitPc = n: nat | n <= IDead

  const RSetup: nat := 0
  const RSendPid: nat := 1
  const RSend1: nat := 2
  const RWait2: nat := 3
  const RConfigure: nat := 4
  const RPrestart: nat := 5
  const RCreateRuntime: nat := 6
  const RSeccomp: nat := 7
  const RSend3: nat := 8
  const RTerminal: nat := 9
  const RWait4: nat := 10
  const RClose: nat := 11
  const RStatus: nat := 12
  const RPoststart: nat := 13
  const RWatch: nat := 14
  const RKill: nat := 15
  const RDrain: nat := 16
  const RFailed: nat := 17
  const RDied: nat := 18

  const IReadPid: nat := 0
  const ISetup1: nat := 1
  const IWait1: nat := 2
  const ISetup2: nat := 3
  const ISend2: nat := 4
  const IWait3: nat := 5
  const ISetup3: nat := 6
  const IHooks: nat := 7
  const ISetup4: nat := 8
  const ISetup5: nat := 9
  const ISend4: nat := 10
  const IClose: nat := 11
  const IFifo: nat := 12
  const IPrepare: nat := 13
  const IStartHooks: nat := 14
  const IExec: nat := 15
  const IFail: nat := 16
  const IDead: nat := 17

  /** The socket pair: messages on their way and which ends are open. */
  datatype Net = Net(toInit: seq<Msg>, toRuntime: seq<Msg>, runtimeOpen: bool, initOpen: bool)

  /**
  The terminal's file descriptor and its socket, the path of the user program, the exec fifo and the container status.
  */
  datatype Env = Env(terminalSent: bool, terminalClosed: bool, execPath: bool, fifo: bool, status: bool)

  /** History: syncs init has sent, whether it has sent an error, and which hooks have all returned 0. */
  datatype Past = Past(initSyncs: nat, errorSent: bool, runtimeHooksOk: bool, containerHooksOk: bool)

  datatype State = State(r: RuntimePc, i: InitPc, net: Net, env: Env, past: Past)

  function Start(): State {
    State(RSetup, IReadPid, Net([], [], true, true), Env(false, false, false, false, false),
      Past(0, false, false, false))
  }

  datatype Action =
    | RWork | RFail | RHook(code: int) | RWrite | RRead | RReceiveTerminal | RKillInit | RDie
    | IWork | IError | IHook(code: int) | IWrite | IRead | ILog | IReadFifo | IDie
    | StartCommand

  // ----------------------------------------------------------------- runtime

  predicate RunsHooks(r: RuntimePc) { r == RPrestart || r == RCreateRuntime || r == RPoststart }

  /** The runtime is on its way to success. */
  predicate Live(r: RuntimePc) { r <= RWatch }

  predicate REnded(r: RuntimePc) { r == RWatch || r == RFailed || r == RDied }

  predicate REnabled(cfg: Config, s: State, a: Action) {
    match a
    case RWork =>
      s.r == RSetup || s.r == RConfigure || s.r == RSeccomp || (s.r == RTerminal && !cfg.terminal) || s.r == RClose ||
        s.r == RStatus
      || (s.r == RDrain && !s.net.runtimeOpen)
    case RFail => Live(s.r) && s.r != RWatch
    case RHook(_) => RunsHooks(s.r)
    case RWrite => s.r == RSendPid || s.r == RSend1 || s.r == RSend3
    case RRead => (s.r == RWait2 || s.r == RWait4 || (s.r == RDrain && s.net.runtimeOpen)) &&
      (s.net.toRuntime != [] || !s.net.initOpen)
    case RReceiveTerminal => s.r == RTerminal && cfg.terminal && (s.env.terminalSent || s.env.terminalClosed)
    case RKillInit => s.r == RKill
    case RDie => !REnded(s.r)
    case _ => false
  }

  function RWorkStep(s: State): State
    requires s.r < RDied
  {
    if s.r == RClose then s.(r := RStatus, net := s.net.(runtimeOpen := false))
    else if s.r == RStatus then s.(r := RPoststart, env := s.env.(status := true))
    else s.(r := s.r + 1)
  }

  function RHookStep(s: State, code: int): State {
    if code != 0 then s.(r := RKill)
    else if s.r == RPrestart then s.(r := RCreateRuntime)
    else if s.r == RCreateRuntime then s.(r := RSeccomp, past := s.past.(runtimeHooksOk := true))
    else s.(r := RWatch)
  }

  /** A sync that cannot be written makes the runtime look at one message before it gives up. */
  function RWriteStep(s: State): State {
    if !s.net.initOpen then
      var looks := s.r != RSendPid && s.net.toRuntime != [];
      s.(r := RKill, net := if looks then s.net.(toRuntime := s.net.toRuntime[1..]) else s.net)
    else if s.r == RSendPid then s.(r := RSend1, net := s.net.(toInit := s.net.toInit + [Pid]))
    else s.(r := if s.r == RSend1 then RWait2 else RTerminal, net := s.net.(toInit := s.net.toInit + [Sync]))
  }

  /** Waiting for a sync skips log messages and stops at an error; draining skips syncs too. */
  function RReadStep(s: State): State {
    var stop := if s.r == RDrain then RFailed else RKill;
    if s.net.toRuntime == [] then s.(r := stop)
    else
      var m, net' := s.net.toRuntime[0], s.net.(toRuntime := s.net.toRuntime[1..]);
      if m.Error? then s.(r := stop, net := net')
      else if m.Sync? && s.r != RDrain then s.(r := if s.r == RWait2 then RConfigure else RClose, net := net')
      else s.(net := net')
  }

  function RStep(cfg: Config, s: State, a: Action): State
    requires REnabled(cfg, s, a)
  {
    match a
    case RWork => RWorkStep(s)
    case RFail => s.(r := RKill, net := s.net.(runtimeOpen := s.net.runtimeOpen && s.r != RClose))
    case RHook(code) => RHookStep(s, code)
    case RWrite => RWriteStep(s)
    case RRead => RReadStep(s)
    case RReceiveTerminal => s.(r := if s.env.terminalSent then RWait4 else RKill)
    case RKillInit => Dead(s).(r := RDrain)
    case RDie => s.(r := RDied, net := s.net.(runtimeOpen := false))
  }

  // -------------------------------------------------------------------- init

  /** The init process is gone and its ends of the sockets are closed. */
  function Dead(s: State): State {
    s.(i := IDead, net := s.net.(initOpen := false), env := s.env.(terminalClosed := true))
  }

  predicate IEnded(i: InitPc) { i == IFifo || i == IExec || i == IDead }

  /** Setup work during which messages logged by init go to the socket. */
  predicate SettingUp(i: InitPc) {
    i == ISetup1 || i == ISetup2 || i == ISetup3 || i == IHooks || i == ISetup4 || i == ISetup5
  }

  /** Before sync 4, where an error is reported over the socket. */
  predicate BeforeSync4(i: InitPc) {
    i == IReadPid || i == IWait1 || i == ISend2 || i == IWait3 || SettingUp(i)
  }

  predicate IEnabled(s: State, a: Action) {
    match a
    case IWork => s.i == ISetup1 || s.i == ISetup2 || s.i == ISetup3 || s.i == ISetup4 || s.i == ISetup5 ||
      s.i == IClose || s.i == IPrepare
    case IError => BeforeSync4(s.i) || s.i == ISend4 || s.i == IPrepare
    case IHook(_) => s.i == IHooks || s.i == IStartHooks
    case IWrite => s.i == ISend2 || s.i == ISend4 || s.i == IFail
    case IRead => (s.i == IReadPid || s.i == IWait1 || s.i == IWait3) && (s.net.toInit != [] || !s.net.runtimeOpen)
    case ILog => SettingUp(s.i)
    case IReadFifo => s.i == IFifo && s.env.fifo
    case IDie => s.i != IExec && s.i != IDead
    case _ => false
  }

  /** A message to the runtime; it is lost when the runtime has closed its end. */
  function Tell(s: State, m: Msg): State {
    if !s.net.runtimeOpen then s
    else s.(net := s.net.(toRuntime := s.net.toRuntime + [m]),
      past := s.past.(errorSent := s.past.errorSent || m == Error))
  }

  function IWorkStep(cfg: Config, s: State): State
    requires s.i < IDead
  {
    if s.i == ISetup2 then s.(i := if cfg.callback then ISend2 else IHooks)
    else if s.i == ISetup4 then s.(i := ISetup5, env := s.env.(terminalSent := cfg.terminal))
    else if s.i == ISetup5 then s.(i := ISend4, env := s.env.(execPath := true, terminalClosed := true))
    else if s.i == IClose then s.(i := if cfg.create then IFifo else IPrepare, net := s.net.(initOpen := false))
    else if s.i == IPrepare && !s.env.execPath then Dead(s)
    else s.(i := s.i + 1)
  }

  /** A createContainer hook that fails is logged as an error; only a negative code also ends the setup. */
  function IHookStep(s: State, code: int): State {
    if s.i == IStartHooks then (if code == 0 then s.(i := IExec) else Dead(s))
    else if code == 0 then s.(i := ISetup4, past := s.past.(containerHooksOk := true))
    else if code < 0 then Tell(s, Error).(i := IFail)
    else Tell(s, Error).(i := ISend4, env := s.env.(terminalClosed := true))
  }

  function IWriteStep(s: State): State {
    if s.i == IFail then Dead(Tell(s, Error))
    else if !s.net.runtimeOpen then (if s.i == ISend2 then s.(i := IFail) else Dead(s))
    else
      s.(i := if s.i == ISend2 then IWait3 else IClose,
         net := s.net.(toRuntime := s.net.toRuntime + [Sync]),
         past := s.past.(initSyncs := s.past.initSyncs + 1))
  }

  function IReadStep(s: State): State {
    if s.net.toInit == [] then s.(i := IFail)
    else
      var m, net' := s.net.toInit[0], s.net.(toInit := s.net.toInit[1..]);
      if s.i == IReadPid then s.(i := if m.Pid? then ISetup1 else IFail, net := net')
      else if m.Sync? then s.(i := if s.i == IWait1 then ISetup2 else ISetup3, net := net')
      else s.(net := net')
  }

  function IStep(cfg: Config, s: State, a: Action): State
    requires IEnabled(s, a)
  {
    match a
    case IWork => IWorkStep(cfg, s)
    case IError => if BeforeSync4(s.i) then s.(i := IFail) else Dead(s)
    case IHook(code) => IHookStep(s, code)
    case IWrite => IWriteStep(s)
    case IRead => IReadStep(s)
    case ILog => Tell(s, Log)
    case IReadFifo => s.(i := IPrepare)
    case IDie => Dead(s)
  }

  // -------------------------------------------------------------------- runs

  predicate Enabled(cfg: Config, s: State, a: Action) {
    if a.StartCommand? then cfg.create && s.env.status else REnabled(cfg, s, a) || IEnabled(s, a)
  }

  /** `start` reads the container status before it writes the exec fifo. */
  function Step(cfg: Config, s: State, a: Action): State
    requires Enabled(cfg, s, a)
  {
    if a.StartCommand? then s.(env := s.env.(fifo := true)) else if REnabled(cfg, s, a) then RStep(cfg, s, a)
      else IStep(cfg, s, a)
  }

  predicate IsStep(cfg: Config, s: State, a: Action, s': State) {
    Enabled(cfg, s, a) && s' == Step(cfg, s, a)
  }

  /** Any interleaving of the two sides. */
  predicate IsRun(cfg: Config, run: seq<State>, actions: seq<Action>) {
    && |run| == |actions| + 1 && run[0] == Start()
    && forall k :: 0 <= k < |actions| ==> IsStep(cfg, run[k], actions[k], run[k + 1])
  }

  // --------------------------------------------------------------- invariant

  /** What the runtime writes, in order. */
  const Script: seq<Msg> := [Pid, Sync, Sync]

  /** How much the runtime has written and how many syncs it has read, while it is live. */
  function Written(r: RuntimePc): nat {
    if r <= RSendPid then 0 else if r == RSend1 then 1 else if r <= RSend3 then 2 else 3
  }

  function SyncsRead(r: RuntimePc): nat { if r <= RWait2 then 0 else if r <= RWait4 then 1 else 2 }

  /** How much init has read and how many syncs it has sent, while it has not failed. */
  function Read(cfg: Config, i: InitPc): nat {
    if i == IReadPid then 0 else if i <= IWait1 then 1 else if i <= IWait3 || !cfg.callback then 2 else 3
  }

  function Sent(cfg: Config, i: InitPc): nat {
    (if i > ISend2 && cfg.callback then 1 else 0) + (if i > ISend4 then 1 else 0)
  }

  function Syncs(q: seq<Msg>): nat {
    if q == [] then 0 else (if q[0].Sync? then 1 else 0) + Syncs(q[1..])
  }

  /** The syncs in front of the first error. */
  function SyncsBeforeError(q: seq<Msg>): nat {
    if q == [] || q[0].Error? then 0 else (if q[0].Sync? then 1 else 0) + SyncsBeforeError(q[1..])
  }

  /** Which ends of the sockets are closed. */
  predicate ClosedOk(s: State) {
    && (s.net.initOpen <==> s.i <= IClose || s.i == IFail)
    && (ISend4 <= s.i && s.i != IFail ==> s.env.terminalClosed)
    && (s.r <= RClose ==> s.net.runtimeOpen)
    && (RStatus <= s.r <= RWatch || s.r == RDied ==> !s.net.runtimeOpen)
    && (s.r == RDrain || s.r == RFailed ==> s.i == IDead)
  }

  /** What init has not read yet is the rest of the script; the last sync comes after the runtime's hooks. */
  predicate ToInitOk(cfg: Config, s: State) {
    && (!cfg.callback ==> s.i != ISend2 && s.i != IWait3 && s.i != ISetup3)
    && (s.i <= IExec ==>
          var read, written := Read(cfg, s.i), Read(cfg, s.i) + |s.net.toInit|;
          && written <= 3 && s.net.toInit == Script[read..written]
          && (written == 3 ==> s.past.runtimeHooksOk)
          && (Live(s.r) ==> written == Written(s.r)))
    && (RSeccomp <= s.r <= RWatch ==> s.past.runtimeHooksOk)
  }

  /** Syncs are neither lost nor invented, and an error stands in front of sync 4. */
  predicate ToRuntimeOk(cfg: Config, s: State) {
    && (s.i <= IExec ==> s.past.initSyncs == Sent(cfg, s.i))
    && s.past.initSyncs <= (if cfg.callback then 2 else 1) - (if s.i == IFail then 1 else 0)
    && (Live(s.r) ==> SyncsRead(s.r) + Syncs(s.net.toRuntime) == s.past.initSyncs)
    && (Live(s.r) && s.past.errorSent ==>
      Error in s.net.toRuntime && SyncsRead(s.r) + SyncsBeforeError(s.net.toRuntime) <= 1)
  }

  /** Sync 4 follows the hooks or an error message. */
  predicate HooksOk(s: State) {
    && (s.i == ISetup4 || s.i == ISetup5 || s.env.execPath ==> s.past.containerHooksOk)
    && (s.i == IStartHooks || s.i == IExec ==> s.env.execPath)
    && (s.i == ISend4 ==> s.past.containerHooksOk || s.past.errorSent || !s.net.runtimeOpen)
    && (s.past.initSyncs == 2 ==> s.past.runtimeHooksOk && (s.past.containerHooksOk || s.past.errorSent))
  }

  predicate SetUp(s: State) {
    s.past.initSyncs == 2 && !s.past.errorSent && s.past.containerHooksOk && s.past.runtimeHooksOk
  }

  predicate StatusOk(cfg: Config, s: State) {
    && (s.r == RPoststart || s.r == RWatch ==> s.env.status)
    && (s.env.status ==> SetUp(s) && !s.net.runtimeOpen)
    && (s.env.fifo ==> s.env.status)
    && (cfg.create && IPrepare <= s.i <= IExec ==> s.env.fifo)
  }

  predicate Inv(cfg: Config, s: State) {
    ClosedOk(s) && ToInitOk(cfg, s) && ToRuntimeOk(cfg, s) && HooksOk(s) && StatusOk(cfg, s)
  }

  lemma {:induction false} SyncsAppend(q: seq<Msg>, m: Msg)
    ensures Syncs(q + [m]) == Syncs(q) + if m.Sync? then 1 else 0
    ensures SyncsBeforeError(q + [m]) == SyncsBeforeError(q) + if m.Sync? && Error !in q then 1 else 0
    ensures SyncsBeforeError(q) <= Syncs(q)
  {
    if q != [] {
      SyncsAppend(q[1..], m);
      assert (q + [m])[1..] == q[1..] + [m];
      assert q == [q[0]] + q[1..];
    }
  }

  lemma RWorkKeepsInv(cfg: Config, s: State)
    requires Inv(cfg, s) && REnabled(cfg, s, RWork)
    ensures Inv(cfg, RWorkStep(s))
  {
    hide Syncs, SyncsBeforeError;
  }

  lemma RWriteKeepsInv(cfg: Config, s: State)
    requires Inv(cfg, s) && REnabled(cfg, s, RWrite)
    ensures Inv(cfg, RWriteStep(s))
  {
    hide Syncs, SyncsBeforeError;
  }

  lemma RReadKeepsInv(cfg: Config, s: State)
    requires Inv(cfg, s) && REnabled(cfg, s, RRead)
    ensures Inv(cfg, RReadStep(s))
  {
    var q := s.net.toRuntime;
    if q != [] {
      assert q == [q[0]] + q[1..];
      assert Syncs(q) == (if q[0].Sync? then 1 else 0) + Syncs(q[1..]);
      assert !q[0].Error? ==> SyncsBeforeError(q) == (if q[0].Sync? then 1 else 0) + SyncsBeforeError(q[1..]);
    }
    hide Syncs, SyncsBeforeError;
  }

  lemma RHookKeepsInv(cfg: Config, s: State, code: int)
    requires Inv(cfg, s) && REnabled(cfg, s, RHook(code))
    ensures Inv(cfg, RHookStep(s, code))
  {
    hide Syncs, SyncsBeforeError;
  }

  lemma ROtherKeepsInv(cfg: Config, s: State, a: Action)
    requires Inv(cfg, s) && REnabled(cfg, s, a) && !a.RWork? && !a.RWrite? && !a.RRead? && !a.RHook?
    ensures Inv(cfg, RStep(cfg, s, a))
  {
    hide Syncs, SyncsBeforeError;
  }

  lemma IWorkKeepsInv(cfg: Config, s: State)
    requires Inv(cfg, s) && IEnabled(s, IWork)
    ensures Inv(cfg, IWorkStep(cfg, s))
  {
    hide Inv, IWorkStep;
    if s.i == ISetup1 || s.i == ISetup2 || s.i == ISetup3 {
      SetupKeepsInv(cfg, s);
    } else if s.i == ISetup4 || s.i == ISetup5 {
      LateSetupKeepsInv(cfg, s);
    } else if s.i == IClose {
      CloseKeepsInv(cfg, s);
    } else {
      PrepareKeepsInv(cfg, s);
    }
  }

  lemma SetupKeepsInv(cfg: Config, s: State)
    requires Inv(cfg, s) && (s.i == ISetup1 || s.i == ISetup2 || s.i == ISetup3)
    ensures Inv(cfg, IWorkStep(cfg, s))
  {
    hide Syncs, SyncsBeforeError;
  }

  lemma LateSetupKeepsInv(cfg: Config, s: State)
    requires Inv(cfg, s) && (s.i == ISetup4 || s.i == ISetup5)
    ensures Inv(cfg, IWorkStep(cfg, s))
  {
    hide Syncs, SyncsBeforeError;
  }

  lemma CloseKeepsInv(cfg: Config, s: State)
    requires Inv(cfg, s) && s.i == IClose
    ensures Inv(cfg, IWorkStep(cfg, s))
  {
    hide Syncs, SyncsBeforeError;
  }

  lemma PrepareKeepsInv(cfg: Config, s: State)
    requires Inv(cfg, s) && s.i == IPrepare
    ensures Inv(cfg, IWorkStep(cfg, s))
  {
    hide Syncs, SyncsBeforeError;
  }

  lemma IHookKeepsInv(cfg: Config, s: State, code: int)
    requires Inv(cfg, s) && IEnabled(s, IHook(code))
    ensures Inv(cfg, IHookStep(s, code))
  {
    SyncsAppend(s.net.toRuntime, Error);
    hide Syncs, SyncsBeforeError;
  }

  lemma IWriteKeepsInv(cfg: Config, s: State)
    requires Inv(cfg, s) && IEnabled(s, IWrite)
    ensures Inv(cfg, IWriteStep(s))
  {
    SyncsAppend(s.net.toRuntime, Sync);
    SyncsAppend(s.net.toRuntime, Error);
    hide Syncs, SyncsBeforeError;
  }

  lemma IReadKeepsInv(cfg: Config, s: State)
    requires Inv(cfg, s) && IEnabled(s, IRead)
    ensures Inv(cfg, IReadStep(s))
  {
    hide Syncs, SyncsBeforeError;
  }

  lemma IOtherKeepsInv(cfg: Config, s: State, a: Action)
    requires Inv(cfg, s) && IEnabled(s, a) && !a.IWork? && !a.IHook? && !a.IWrite? && !a.IRead?
    ensures Inv(cfg, IStep(cfg, s, a))
  {
    SyncsAppend(s.net.toRuntime, Log);
    hide Syncs, SyncsBeforeError;
  }

  lemma StepKeepsInv(cfg: Config, s: State, a: Action)
    requires Inv(cfg, s) && Enabled(cfg, s, a)
    ensures Inv(cfg, Step(cfg, s, a))
  {
    hide Inv;
    match a
    case RWork => RWorkKeepsInv(cfg, s);
    case RWrite => RWriteKeepsInv(cfg, s);
    case RRead => RReadKeepsInv(cfg, s);
    case RHook(code) => RHookKeepsInv(cfg, s, code);
    case IWork => IWorkKeepsInv(cfg, s);
    case IHook(code) => IHookKeepsInv(cfg, s, code);
    case IWrite => IWriteKeepsInv(cfg, s);
    case IRead => IReadKeepsInv(cfg, s);
    case StartCommand => StartKeepsInv(cfg, s);
    case _ =>
      if REnabled(cfg, s, a) {
        ROtherKeepsInv(cfg, s, a);
      } else {
        IOtherKeepsInv(cfg, s, a);
      }
  }

  lemma StartKeepsInv(cfg: Config, s: State)
    requires Inv(cfg, s) && Enabled(cfg, s, StartCommand)
    ensures Inv(cfg, Step(cfg, s, StartCommand))
  {
  }

  lemma {:induction false} RunKeepsInv(cfg: Config, run: seq<State>, actions: seq<Action>, k: nat)
    requires IsRun(cfg, run, actions) && k < |run|
    ensures Inv(cfg, run[k])
  {
    if k > 0 {
      RunKeepsInv(cfg, run, actions, k - 1);
      assert IsStep(cfg, run[k - 1], actions[k - 1], run[k - 1 + 1]);
      StepKeepsInv(cfg, run[k - 1], actions[k - 1]);
    }
  }

  // ------------------------------------------------------------ main results

  /**
  prestart and createRuntime hooks run while init waits for sync 3 (or has failed),
  createContainer hooks run after all of those returned 0, and startContainer
  hooks and the user program after the createContainer hooks returned 0.
  */
  predicate HooksInOrder(s: State) {
    && (s.r == RPrestart || s.r == RCreateRuntime ==>
      (s.i == IWait3 && s.net.toInit == []) || s.i == IFail || s.i == IDead)
    && (s.i == IHooks ==> s.past.runtimeHooksOk)
    && (s.i == IStartHooks || s.i == IExec ==> s.past.runtimeHooksOk && s.past.containerHooksOk)
  }

  lemma HooksRunInOrder(cfg: Config, run: seq<State>, actions: seq<Action>, k: nat)
    requires IsRun(cfg, run, actions) && k < |run| && cfg.callback
    ensures HooksInOrder(run[k])
  {
    RunKeepsInv(cfg, run, actions, k);
    hide Syncs, SyncsBeforeError;
  }

  /** Without the callback init never waits, and its hooks can overtake the runtime's: a run of seven steps shows it. */
  lemma HooksOvertake(cfg: Config) returns (run: seq<State>, actions: seq<Action>)
    requires !cfg.callback
    ensures IsRun(cfg, run, actions) && !HooksInOrder(run[|run| - 1])
  {
    actions := [RWork, RWrite, RWrite, IRead, IWork, IRead, IWork];
    var s0 := Start();
    var s1 := Step(cfg, s0, RWork);
    var s2 := Step(cfg, s1, RWrite);
    var s3 := Step(cfg, s2, RWrite);
    assert s3.net.toInit == [Pid, Sync];
    var s4 := Step(cfg, s3, IRead);
    var s5 := Step(cfg, s4, IWork);
    assert s5.net.toInit == [Sync];
    var s6 := Step(cfg, s5, IRead);
    var s7 := Step(cfg, s6, IWork);
    run := [s0, s1, s2, s3, s4, s5, s6, s7];
  }

  /** Nothing fails, every hook returns 0 and neither side dies. */
  predicate Smooth(a: Action) {
    !a.RFail? && !a.RDie? && !a.IError? && !a.IDie? && (a.RHook? || a.IHook? ==> a.code == 0)
  }

  /** Both sides have ended; an init that waits for a start command has not been given one. */
  predicate Over(s: State) { REnded(s.r) && IEnded(s.i) && (s.i == IFifo ==> !s.env.fifo) }

  /** No deadlock: as long as it is not over, a side can step without any failure happening. */
  lemma NoDeadlock(cfg: Config, run: seq<State>, actions: seq<Action>, k: nat) returns (a: Action)
    requires IsRun(cfg, run, actions) && k < |run| && !Over(run[k])
    ensures Enabled(cfg, run[k], a) && Smooth(a) && !a.ILog? && !a.StartCommand?
  {
    RunKeepsInv(cfg, run, actions, k);
    a := SomeStep(cfg, run[k]);
  }

  lemma SomeStep(cfg: Config, s: State) returns (a: Action)
    requires Inv(cfg, s) && !Over(s)
    ensures Enabled(cfg, s, a) && Smooth(a) && !a.ILog? && !a.StartCommand?
  {
    hide Inv, REnabled, IEnabled, Over;
    if REnabled(cfg, s, RWork) { return RWork; }
    if REnabled(cfg, s, RWrite) { return RWrite; }
    if REnabled(cfg, s, RRead) { return RRead; }
    if REnabled(cfg, s, RHook(0)) { return RHook(0); }
    if REnabled(cfg, s, RReceiveTerminal) { return RReceiveTerminal; }
    if REnabled(cfg, s, RKillInit) { return RKillInit; }
    if IEnabled(s, IWork) { return IWork; }
    if IEnabled(s, IWrite) { return IWrite; }
    if IEnabled(s, IHook(0)) { return IHook(0); }
    if IEnabled(s, IReadFifo) { return IReadFifo; }
    a := IRead;
    BlockedReads(cfg, s);
  }

  /** When nothing else is possible, init reads. */
  lemma BlockedReads(cfg: Config, s: State)
    requires Inv(cfg, s) && !Over(s) && !REnabled(cfg, s, RWork) && !REnabled(cfg, s, RWrite)
    requires !REnabled(cfg, s, RRead) && !REnabled(cfg, s, RHook(0)) && !REnabled(cfg, s, RReceiveTerminal)
    requires !REnabled(cfg, s, RKillInit) && !IEnabled(s, IWork) && !IEnabled(s, IWrite) && !IEnabled(s, IHook(0))
    requires !IEnabled(s, IReadFifo)
    ensures IEnabled(s, IRead)
  {
    hide Syncs, SyncsBeforeError;
    BlockedMeansMail(cfg, s);
  }

  /** When the runtime cannot step, an init that reads has something to read. */
  lemma BlockedMeansMail(cfg: Config, s: State)
    requires Inv(cfg, s) && (s.i == IReadPid || s.i == IWait1 || s.i == IWait3)
    requires s.r == RWait2 || s.r == RWait4 || s.r == RTerminal || REnded(s.r)
    requires s.r == RWait2 || s.r == RWait4 ==> s.net.toRuntime == []
    ensures s.net.toInit != [] || !s.net.runtimeOpen
  {
  }

  /**
  An error message that init puts on the socket before sync 4 keeps the runtime from succeeding, now and ever after.
  */
  lemma ErrorForbidsStatus(cfg: Config, run: seq<State>, actions: seq<Action>, k: nat, j: nat)
    requires IsRun(cfg, run, actions) && k <= j < |run| && run[k].past.errorSent
    ensures !run[j].env.status && !(RClose <= run[j].r <= RWatch)
  {
    ErrorStaysSent(cfg, run, actions, k, j);
    RunKeepsInv(cfg, run, actions, j);
    SentErrorStops(cfg, run[j]);
  }

  lemma SentErrorStops(cfg: Config, s: State)
    requires Inv(cfg, s) && s.past.errorSent
    ensures !s.env.status && !(RClose <= s.r <= RWatch)
  {
    hide Syncs, SyncsBeforeError;
  }

  lemma {:induction false} ErrorStaysSent(cfg: Config, run: seq<State>, actions: seq<Action>, k: nat, j: nat)
    requires IsRun(cfg, run, actions) && k <= j < |run| && run[k].past.errorSent
    ensures run[j].past.errorSent
  {
    if k < j {
      ErrorStaysSent(cfg, run, actions, k, j - 1);
      assert IsStep(cfg, run[j - 1], actions[j - 1], run[j - 1 + 1]);
      ErrorStays(cfg, run[j - 1], actions[j - 1]);
    }
  }

  lemma ErrorStays(cfg: Config, s: State, a: Action)
    requires Enabled(cfg, s, a) && s.past.errorSent
    ensures Step(cfg, s, a).past.errorSent
  {
  }

  /** A written status means a setup without errors that reached sync 4, with both kinds of hooks done. */
  lemma StatusMeansSetUp(cfg: Config, run: seq<State>, actions: seq<Action>, k: nat)
    requires IsRun(cfg, run, actions) && k < |run| && run[k].env.status
    ensures SetUp(run[k]) && cfg.callback
  {
    RunKeepsInv(cfg, run, actions, k);
  }

  /** After `create`, the user program runs only once the container status has been written. */
  lemma ExecAfterStatus(cfg: Config, run: seq<State>, actions: seq<Action>, k: nat)
    requires IsRun(cfg, run, actions) && k < |run| && cfg.create && run[k].i == IExec
    ensures run[k].env.status && SetUp(run[k])
  {
    RunKeepsInv(cfg, run, actions, k);
  }

  // ------------------------------------------------------------- termination

  /** What the two sides can still do. */
  function Left(s: State): nat {
    2 * (RDied - s.r) + 3 * (IDead - s.i) + |s.net.toInit| + |s.net.toRuntime|
  }

  lemma StepCountsDown(cfg: Config, s: State, a: Action)
    requires Enabled(cfg, s, a)
    ensures Left(Step(cfg, s, a)) <= Left(s) + if a.ILog? then 1 else if a.StartCommand? then 0 else -1
  {
    if REnabled(cfg, s, a) {
      RCountsDown(cfg, s, a);
    } else if IEnabled(s, a) {
      ICountsDown(cfg, s, a);
    }
  }

  lemma RCountsDown(cfg: Config, s: State, a: Action)
    requires REnabled(cfg, s, a)
    ensures Left(RStep(cfg, s, a)) < Left(s)
  {
  }

  lemma ICountsDown(cfg: Config, s: State, a: Action)
    requires IEnabled(s, a)
    ensures Left(IStep(cfg, s, a)) <= Left(s) + if a.ILog? then 1 else -1
  {
  }

  /** Counts the messages logged, or the steps of the two sides that are none. */
  function Count(actions: seq<Action>, logs: bool): nat {
    if actions == [] then 0
    else
      var a := actions[|actions| - 1];
      var counts := if logs then a.ILog? else !a.ILog? && !a.StartCommand?;
      Count(actions[..|actions| - 1], logs) + if counts then 1 else 0
  }

  /** Every run is finite: at most 87 steps, and one more for each message logged. */
  lemma {:induction false} RunsEnd(cfg: Config, run: seq<State>, actions: seq<Action>)
    requires IsRun(cfg, run, actions)
    ensures Count(actions, false) + Left(run[|actions|]) <= 87 + Count(actions, true)
  {
    var n := |actions|;
    if n > 0 {
      assert IsStep(cfg, run[n - 1], actions[n - 1], run[n - 1 + 1]);
      StepCountsDown(cfg, run[n - 1], actions[n - 1]);
      RunsEnd(cfg, run[..n], actions[..n - 1]);
    }
  }
}
