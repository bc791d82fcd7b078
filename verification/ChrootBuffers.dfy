/**
The machine on strings together with what its buffer holds in the chroot's place: an absolute link starts over there,
whatever was written to it. This describes every run, also one that has left the chroot.
*/
module ChrootBuffers {
  import opened Common
  import opened Paths
  import opened ChrootSteps
  import opened ChrootResolver

  /** `base` is what the buffer holds in the place of the chroot. */
  datatype Buf = Buf(base: string, st: St)

  datatype BufMove = More(buf: Buf) | End(out: Outcome)

  /** A text written to the start of the buffer, as far as the chroot's place goes. */
  function Overlay(base: string, text: string): (r: string)
    ensures |r| == |base|
  {
    if |text| >= |base| then text[..|base|] else text + base[|text|..]
  }

  function Moved(base: string, m: Move): BufMove {
    match m
    case Go(st) => More(Buf(Overlay(base, st.got), st))
    case Stop(out) => End(out)
  }

  /** NUL goes behind the path, and readlink sees the path up to the first NUL. */
  function BufAsk(base: string, fs: Fs, q: string, rest: string, length: nat, calls: nat): (m: BufMove)
    ensures m.More? ==> m.buf.st.calls == calls + 1
  {
    var base', seen := Overlay(base, q + "\0"), UntilNul(q);
    match fs(calls, Components(seen))
    case Missing => End(if |seen + rest| >= PATH_MAX then TooLong else Partial(seen + rest))
    case Failed => End(Unreadable)
    case NotLink => Moved(base', AddSlash(St(q, rest, length, calls + 1), rest == ""))
    case Link(target) => Moved(base', LinkStep(base', q, Truncated(target), rest, calls + 1))
  }

  function BufName(chroot: string, fs: Fs, b: Buf): (m: BufMove)
    ensures m.More? ==> m.buf.st.calls == b.st.calls + 1 <= MAX_READLINKS + 1
  {
    var n := NameLength(b.st.rest);
    if !NameFits(chroot, b.st, n) then End(TooLong)
    else if b.st.calls > MAX_READLINKS then End(TooManyLinks)
    else BufAsk(b.base, fs, b.st.got + b.st.rest[..n], b.st.rest[n..], b.st.length, b.st.calls)
  }

  function BufStep(chroot: string, fs: Fs, b: Buf): (m: BufMove)
    requires b.st.rest != ""
    ensures m.More? ==>
      || (m.buf.st.calls == b.st.calls && |m.buf.st.rest| < |b.st.rest|)
      || m.buf.st.calls == b.st.calls + 1 <= MAX_READLINKS + 1
  {
    var st := b.st;
    if st.rest[0] == '/' || IsDot(st.rest) then More(b.(st := st.(rest := st.rest[1..])))
    else if IsDotDot(st.rest) then Moved(b.base, DotDotStep(chroot, st))
    else BufName(chroot, fs, b)
  }

  /** The result is copied up to the first NUL. */
  function BufFinish(got: string): Outcome {
    match Finish(got)
    case Resolved(p) => Resolved(UntilNul(p))
    case out => out
  }

  function BufRun(chroot: string, fs: Fs, b: Buf): Outcome
    decreases MAX_READLINKS + 1 - b.st.calls, |b.st.rest|
  {
    if b.st.rest == "" then BufFinish(b.st.got)
    else
      match BufStep(chroot, fs, b)
      case More(b') => BufRun(chroot, fs, b')
      case End(out) => out
  }

  /** The whole function, for every input. */
  function BufResolve(chroot: string, path: string, fs: Fs): Outcome {
    if chroot == "" || chroot == "/" then (if |path| >= PATH_MAX then TooLong else Resolved(path))
    else if |chroot| + |path| >= PATH_MAX - 3 then TooLong
    else BufRun(chroot, fs, Buf(chroot, Start(chroot, path)))
  }

  // ---- The buffer ----

  /** Two texts that start the same buffer: the shorter begins the longer. */
  predicate Fits(base: string, text: string) { base <= text || text <= base }

  lemma OverlayFits(base: string, text: string)
    ensures Overlay(base, text) == base <==> Fits(base, text)
    ensures Fits(Overlay(base, text), text)
  {
  }

  /** What the buffer itself holds fits. */
  lemma SameBuffer(all: string, root: nat, n: nat)
    requires root <= |all| && n <= |all|
    ensures Overlay(all[..root], all[..n]) == all[..root]
  {
  }

  /** One character written behind the path. */
  lemma OverlayOne(all: string, root: nat, n: nat, c: char)
    requires root <= |all| && n < |all|
    ensures all[n := c][..root] == Overlay(all[..root], all[..n] + [c])
  {
  }

  /** Two buffers that differ only inside a text are the same once the text is written. */
  lemma OverlayHides(all: string, before: string, root: nat, text: string)
    requires root <= |all| == |before| && |text| <= |all| && all[|text|..] == before[|text|..]
    ensures Overlay(all[..root], text) == Overlay(before[..root], text)
  {
    if |text| < root {
      assert all[..root][|text|..] == all[|text|..][..root - |text|];
      assert before[..root][|text|..] == before[|text|..][..root - |text|];
    }
  }

  // ---- The machine on strings ----

  /** Every link target is a C string. */
  ghost predicate Readable(fs: Fs) {
    forall n: nat, p: seq<string> :: fs(n, p).Link? ==> NulFree(fs(n, p).target)
  }

  lemma TruncatedIsReadable(target: string)
    requires NulFree(target)
    ensures NulFree(Truncated(target)) && |Truncated(target)| < PATH_MAX
  {
  }

  /** The buffer shows what the machine on strings has, and, while `intact`, the chroot in its place. */
  ghost predicate Shows(chroot: string, b: Buf, intact: bool) {
    && |b.base| == |chroot| && Fits(b.base, b.st.got) && NulFree(b.st.got) && NulFree(b.st.rest)
    && (intact ==> b.base == chroot)
  }

  /** Both machines do the same. */
  ghost predicate SameMove(chroot: string, m: Move, bm: BufMove, intact: bool) {
    match m
    case Go(st) => bm.More? && bm.buf.st == st && Shows(chroot, bm.buf, intact)
    case Stop(out) => bm == End(out)
  }

  lemma MovedShows(chroot: string, base: string, m: Move, intact: bool)
    requires |base| == |chroot| && (intact ==> base == chroot)
    requires m.Go? ==> NulFree(m.st.got) && NulFree(m.st.rest) && (intact ==> Fits(base, m.st.got))
    ensures SameMove(chroot, m, Moved(base, m), intact)
  {
    if m.Go? {
      OverlayFits(base, m.st.got);
    }
  }

  /** Where a link leads is a C string again, and the buffer still begins with the same text. */
  lemma LinkShows(base: string, q: string, target: string, rest: string, calls: nat)
    requires NulFree(q) && NulFree(target) && NulFree(rest)
    requires target != "" && target[0] == '/' ==> NulFree(base)
    ensures var m := LinkStep(base, q, target, rest, calls);
      m.Go? ==> NulFree(m.st.got) && NulFree(m.st.rest) && (base <= q ==> Fits(base, m.st.got))
  {
    var k := PopTo(q, |q|);
    if k > 0 {
      assert q[..k - 1] + "/" == q[..k];
    }
  }

  lemma SlashShows(base: string, st: St, last: bool)
    requires NulFree(st.got) && NulFree(st.rest)
    ensures var m := AddSlash(st, last);
      m.Go? ==> NulFree(m.st.got) && NulFree(m.st.rest) && (base <= st.got ==> Fits(base, m.st.got))
  {
  }

  /** A relative link does not look at the chroot. */
  lemma RelativeIgnoresRoot(base: string, chroot: string, q: string, target: string, rest: string, calls: nat)
    requires target == "" || target[0] != '/'
    ensures LinkStep(base, q, target, rest, calls) == LinkStep(chroot, q, target, rest, calls)
  {
  }

  lemma FollowShows(chroot: string, base: string, q: string, target: string, rest: string, calls: nat, intact: bool)
    requires NulFree(q) && NulFree(target) && NulFree(rest) && NulFree(chroot) && |base| == |chroot|
    requires intact ==> base == chroot <= q
    requires target != "" && target[0] == '/' ==> intact
    ensures SameMove(chroot, LinkStep(chroot, q, target, rest, calls),
      Moved(base, LinkStep(base, q, target, rest, calls)), intact)
  {
    hide LinkStep, Fits, SameMove, Moved, NulFree;
    if target == "" || target[0] != '/' {
      RelativeIgnoresRoot(base, chroot, q, target, rest, calls);
    }
    LinkShows(base, q, target, rest, calls);
    MovedShows(chroot, base, LinkStep(base, q, target, rest, calls), intact);
  }

  lemma BaseStays(base: string, q: string)
    requires base <= q
    ensures Overlay(base, q + "\0") == base
  {
  }

  /** No link: the path so far is a C string, so that readlink and the buffer show all of it. */
  lemma StayShows(chroot: string, base: string, q: string, rest: string, length: nat, calls: nat, intact: bool)
    requires NulFree(q) && NulFree(rest) && |base| == |chroot| && (intact ==> base == chroot <= q)
    ensures var m := AddSlash(St(q, rest, length, calls), rest == ""); SameMove(chroot, m, Moved(base, m), intact)
  {
    hide AddSlash, Fits, Moved, NulFree, SameMove;
    SlashShows(base, St(q, rest, length, calls), rest == "");
    MovedShows(chroot, base, AddSlash(St(q, rest, length, calls), rest == ""), intact);
  }

  lemma ReadShows(chroot: string, base: string, q: string, target: string, rest: string, calls: nat, intact: bool)
    requires NulFree(q) && NulFree(target) && NulFree(rest) && NulFree(chroot) && |base| == |chroot|
    requires (intact ==> base == chroot <= q) && (IsAbsolute(target) ==> intact)
    ensures SameMove(chroot, LinkStep(chroot, q, Truncated(target), rest, calls),
      Moved(base, LinkStep(base, q, Truncated(target), rest, calls)), intact)
  {
    hide LinkStep, Moved, NulFree, SameMove, Truncated, IsAbsolute;
    TruncatedIsReadable(target);
    SameStart(target);
    FollowShows(chroot, base, q, Truncated(target), rest, calls, intact);
  }

  lemma AskShows(chroot: string, base: string, fs: Fs, q: string, rest: string, length: nat, calls: nat, intact: bool)
    requires Readable(fs) && NulFree(q) && NulFree(rest) && NulFree(chroot) && |base| == |chroot|
    requires intact ==> base == chroot <= q
    requires SaysAbsolute(fs(calls, Components(q))) ==> intact
    ensures SameMove(chroot, Ask(chroot, fs, q, rest, length, calls), BufAsk(base, fs, q, rest, length, calls), intact)
  {
    hide LinkStep, AddSlash, Components, Overlay, Moved, NulFree, Shows, Truncated, IsAbsolute;
    UntilNulIsClean(q);
    var base', reply := Overlay(base, q + "\0"), fs(calls, Components(q));
    if intact {
      BaseStays(base, q);
    }
    if reply.NotLink? {
      StayShows(chroot, base', q, rest, length, calls + 1, intact);
    } else if reply.Link? {
      ReadShows(chroot, base', q, reply.target, rest, calls + 1, intact);
    }
  }

  /** `..` goes back inside what the buffer holds. */
  lemma DotDotShows(chroot: string, b: Buf, intact: bool)
    requires Shows(chroot, b, intact) && IsDotDot(b.st.rest)
    ensures SameMove(chroot, DotDotStep(chroot, b.st), Moved(b.base, DotDotStep(chroot, b.st)), intact)
  {
    var m := DotDotStep(chroot, b.st);
    hide PopTo, SameMove, Moved;
    MovedShows(chroot, b.base, m, intact);
  }

  lemma NameShows(chroot: string, fs: Fs, b: Buf, intact: bool)
    requires Readable(fs) && NulFree(chroot) && Shows(chroot, b, intact) && AtName(b.st.rest)
    requires var intact' := intact && |b.st.got| >= |chroot|; AtAbsoluteLink(fs, b.st) ==> intact'
    ensures SameMove(chroot, NameStep(chroot, fs, b.st), BufName(chroot, fs, b), intact && |b.st.got| >= |chroot|)
  {
    var n := NameLength(b.st.rest);
    hide NameLength, Ask, BufAsk, Components, SaysAbsolute;
    AskShows(chroot, b.base, fs, b.st.got + b.st.rest[..n], b.st.rest[n..], b.st.length, b.st.calls,
      intact && |b.st.got| >= |chroot|);
  }

  /** One step, as long as no absolute link starts over at a chroot whose text was overwritten. */
  lemma StepShows(chroot: string, fs: Fs, b: Buf, intact: bool)
    requires Readable(fs) && NulFree(chroot) && Shows(chroot, b, intact) && b.st.rest != ""
    requires AtAbsoluteLink(fs, b.st) ==> intact && |b.st.got| >= |chroot|
    ensures SameMove(chroot, Step(chroot, fs, b.st), BufStep(chroot, fs, b),
      intact && (AtName(b.st.rest) ==> |b.st.got| >= |chroot|))
  {
    hide NameStep, BufName, DotDotStep, AtAbsoluteLink, Components, PopTo;
    if AtName(b.st.rest) {
      NameShows(chroot, fs, b, intact);
    } else if b.st.rest[0] != '/' && !IsDot(b.st.rest) {
      DotDotShows(chroot, b, intact);
    }
  }

  /** Then both machines give the same answer. */
  lemma {:induction false} RunShows(chroot: string, fs: Fs, b: Buf, intact: bool)
    requires Readable(fs) && NulFree(chroot) && Shows(chroot, b, intact) && Traceable(chroot, fs, b.st, intact)
    ensures BufRun(chroot, fs, b) == Run(chroot, fs, b.st)
    decreases MAX_READLINKS + 1 - b.st.calls, |b.st.rest|
  {
    if b.st.rest == "" {
      UntilNulIsClean(b.st.got);
      if |b.st.got| > 0 {
        UntilNulIsClean(b.st.got[..|b.st.got| - 1]);
      }
    } else {
      StepShows(chroot, fs, b, intact);
      hide Step, BufStep, Finish, AtName, AtAbsoluteLink, Shows;
      match Step(chroot, fs, b.st) {
        case Go(_) => RunShows(chroot, fs, BufStep(chroot, fs, b).buf,
                               intact && (AtName(b.st.rest) ==> |b.st.got| >= |chroot|));
        case Stop(_) =>
      }
    }
  }

  /** The whole function is the machine on strings unless an absolute link starts over at an overwritten chroot. */
  lemma ResolveShows(chroot: string, path: string, fs: Fs)
    requires NulFree(chroot) && NulFree(path) && Readable(fs)
    requires chroot in {"", "/"} || Traceable(chroot, fs, Start(chroot, path), true)
    ensures BufResolve(chroot, path, fs) == Resolve(chroot, path, fs)
  {
    hide BufRun, Run, Traceable;
    if chroot !in {"", "/"} {
      RunShows(chroot, fs, Buf(chroot, Start(chroot, path)), true);
    }
  }
}
