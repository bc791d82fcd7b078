/**
chroot_realpath as a machine on strings: `got` is the path resolved so far and
`rest` what is still to be resolved. One step is one iteration of the loop.
*/
module ChrootSteps {
  import opened Paths

  const PATH_MAX := 4096
  const MAX_READLINKS := 32

  /** What readlink says about a path: not a link, missing, another error, or the target. */
  datatype Reply = NotLink | Missing | Failed | Link(target: string)

  /** readlink, as a function of the number of the call and of the components of its argument. */
  type Fs = (nat, seq<string>) -> Reply

  /** `OutOfBounds`: a pointer was about to move in front of its buffer. */
  datatype Outcome = Resolved(path: string) | Partial(path: string) | TooLong | TooManyLinks | Unreadable | OutOfBounds

  /** `length` is the length of the text in the buffer that `rest` is the end of; `calls` counts readlink calls. */
  datatype St = St(got: string, rest: string, length: nat, calls: nat)

  datatype Move = Go(st: St) | Stop(out: Outcome)

  predicate IsDot(rest: string) {
    |rest| >= 1 && rest[0] == '.' && (|rest| == 1 || rest[1] == '/')
  }

  predicate IsDotDot(rest: string) {
    |rest| >= 2 && rest[0] == '.' && rest[1] == '.' && (|rest| == 2 || rest[2] == '/')
  }

  /** The longest prefix shorter than `s[..k]` plus one that ends with a slash; 0 when there is none. */
  function PopTo(s: string, k: nat): (j: nat)
    requires k <= |s|
    ensures j <= k
    ensures j > 0 ==> s[j - 1] == '/'
    ensures forall i :: j <= i < k ==> s[i] != '/'
  {
    if k == 0 || s[k - 1] == '/' then k else PopTo(s, k - 1)
  }

  /** What readlink puts into its buffer. */
  function Truncated(target: string): (t: string)
    ensures |target| < 4096 ==> t == target
    ensures |target| >= 4096 ==> |t| == 4095 && t <= target
  {
    if |target| < PATH_MAX then target else target[..PATH_MAX - 1]
  }

  /** `..`: nothing at the root, otherwise back to behind the previous slash. */
  function DotDotStep(chroot: string, st: St): Move
    requires IsDotDot(st.rest)
  {
    var rest := st.rest[2..];
    if |st.got| == |chroot| + 1 then Go(st.(rest := rest))
    else
      var k := if |st.got| == 0 then 0 else PopTo(st.got, |st.got| - 1);
      if k == 0 then Stop(OutOfBounds) else Go(st.(got := st.got[..k], rest := rest))
  }

  /** The component fits both buffers. */
  predicate NameFits(chroot: string, st: St, n: nat) {
    st.length - |st.rest| + n - 1 <= PATH_MAX - |chroot| - 3 && |st.got| + n - 1 < PATH_MAX - 1
  }

  /** The slash behind a component that was not the last one. */
  function AddSlash(st: St, last: bool): Move {
    if last then Go(st)
    else if |st.got| >= PATH_MAX - 1 then Stop(TooLong)
    else Go(st.(got := st.got + "/"))
  }

  /** A symbolic link: back over the component, or to the root, with the target in front of the rest. */
  function LinkStep(chroot: string, q: string, target: string, rest: string, calls: nat): Move {
    var k := PopTo(q, |q|);
    if |target| == 0 || target[0] != '/' then
      if k == 0 then Stop(OutOfBounds)
      else if |rest| + |target| >= PATH_MAX - 2 then Stop(TooLong)
      else AddSlash(St(q[..k - 1], target + rest, |target + rest|, calls), rest == "")
    else if |rest| + |target| >= PATH_MAX - 2 then Stop(TooLong)
    else AddSlash(St(chroot + "/", target + rest, |target + rest|, calls), rest == "")
  }

  /** What readlink says about the path `q` decides how to go on. */
  function Ask(chroot: string, fs: Fs, q: string, rest: string, length: nat, calls: nat): Move {
    match fs(calls, Components(q))
    case Missing => if |q + rest| >= PATH_MAX then Stop(TooLong) else Stop(Partial(q + rest))
    case Failed => Stop(Unreadable)
    case NotLink => AddSlash(St(q, rest, length, calls + 1), rest == "")
    case Link(target) => LinkStep(chroot, q, Truncated(target), rest, calls + 1)
  }

  /** A name: copy it and ask readlink about the path so far. */
  function NameStep(chroot: string, fs: Fs, st: St): Move {
    var n := NameLength(st.rest);
    if !NameFits(chroot, st, n) then Stop(TooLong)
    else if st.calls > MAX_READLINKS then Stop(TooManyLinks)
    else Ask(chroot, fs, st.got + st.rest[..n], st.rest[n..], st.length, st.calls)
  }

  /** Each step uses up a readlink call, or characters of the rest. */
  function Step(chroot: string, fs: Fs, st: St): (m: Move)
    requires st.rest != ""
    ensures m.Go? ==>
      (m.st.calls == st.calls && |m.st.rest| < |st.rest|) || (m.st.calls == st.calls + 1 <= MAX_READLINKS + 1)
  {
    if st.rest[0] == '/' || IsDot(st.rest) then Go(st.(rest := st.rest[1..]))
    else if IsDotDot(st.rest) then DotDotStep(chroot, st)
    else NameStep(chroot, fs, st)
  }

  /** One trailing slash is dropped unless it is the whole path. */
  function Finish(got: string): Outcome {
    if got == "" then OutOfBounds
    else if |got| != 1 && EndsWithSlash(got) then Resolved(got[..|got| - 1])
    else Resolved(got)
  }

  /** Links left, then characters left. */
  function Run(chroot: string, fs: Fs, st: St): Outcome
    decreases MAX_READLINKS + 1 - st.calls, |st.rest|
  {
    if st.rest == "" then Finish(st.got)
    else
      match Step(chroot, fs, st)
      case Go(st') => Run(chroot, fs, st')
      case Stop(out) => out
  }

  function Start(chroot: string, path: string): St {
    St(chroot + "/", path, |path|, 0)
  }

  /** The whole function; without a chroot the path is its own answer. */
  function Resolve(chroot: string, path: string, fs: Fs): Outcome {
    if chroot == "" || chroot == "/" then (if |path| >= PATH_MAX then TooLong else Resolved(path))
    else if |chroot| + |path| >= PATH_MAX - 3 then TooLong
    else Run(chroot, fs, Start(chroot, path))
  }
}
