/**
When chroot_realpath stays inside its buffer. Both of its backward loops look for a slash; once the text of the chroot
is no longer in front of the path, whether they find one depends on how many slashes are left.
*/
module ChrootBounds {
  import opened Common
  import opened Paths
  import opened ChrootSteps
  import opened ChrootResolver
  import opened ChrootConverse
  import opened ChrootBuffers

  // ---- Slashes ----

  function Slashes(s: string): nat {
    if s == "" then 0 else (if s[|s| - 1] == '/' then 1 else 0) + Slashes(s[..|s| - 1])
  }

  /** The slashes in front of the last character. */
  function InnerSlashes(s: string): nat
    requires s != ""
  {
    Slashes(s[..|s| - 1])
  }

  lemma {:induction false} SlashesTail(s: string, k: nat)
    requires k <= |s| && (forall i :: k <= i < |s| ==> s[i] != '/') && (k > 0 ==> s[k - 1] == '/')
    ensures Slashes(s) == if k == 0 then 0 else Slashes(s[..k - 1]) + 1
  {
    if k < |s| {
      var init := s[..|s| - 1];
      SlashesTail(init, k);
      assert k > 0 ==> init[..k - 1] == s[..k - 1];
    }
  }

  lemma {:induction false} SlashesPrefix(s: string, k: nat)
    requires k <= |s|
    ensures Slashes(s[..k]) <= Slashes(s)
  {
    if k < |s| {
      SlashesPrefix(s[..|s| - 1], k);
      assert s[..|s| - 1][..k] == s[..k];
    } else {
      assert s[..k] == s;
    }
  }

  /** Each `..` goes back over exactly one slash, and runs off when there is none. */
  lemma PopSlashes(got: string)
    requires got != ""
    ensures var k := PopTo(got, |got| - 1);
            if k == 0 then InnerSlashes(got) == 0
            else got[..k] != "" && InnerSlashes(got[..k]) + 1 == InnerSlashes(got)
  {
    hide PopTo, Slashes;
    var k, init := PopTo(got, |got| - 1), got[..|got| - 1];
    SlashesTail(init, k);
    if k > 0 {
      assert init[..k - 1] == got[..k][..k - 1];
    }
  }

  // ---- What is left to resolve ----

  /** The `..` in front of the first name. */
  function Ups(todo: seq<string>): nat {
    if todo == [] then 0
    else if todo[0] == "." then Ups(todo[1..])
    else if todo[0] == ".." then 1 + Ups(todo[1..])
    else 0
  }

  predicate OnlyDots(todo: seq<string>) {
    todo == [] || ((todo[0] == "." || todo[0] == "..") && OnlyDots(todo[1..]))
  }

  /** No names are left, and there is a slash for every `..`. */
  predicate Enough(got: string, todo: seq<string>) {
    got != "" && OnlyDots(todo) && Ups(todo) <= InnerSlashes(got)
  }

  /** The first component, and what it does to the measures. */
  lemma FirstTodo(rest: string)
    requires rest != ""
    ensures rest[0] == '/' ==> Components(rest) == Components(rest[1..])
    ensures IsDot(rest) ==>
      && Ups(Components(rest)) == Ups(Components(rest[1..]))
      && OnlyDots(Components(rest)) == OnlyDots(Components(rest[1..]))
    ensures IsDotDot(rest) ==>
      && Ups(Components(rest)) == 1 + Ups(Components(rest[2..]))
      && OnlyDots(Components(rest)) == OnlyDots(Components(rest[2..]))
    ensures AtName(rest) ==> Ups(Components(rest)) == 0 && !OnlyDots(Components(rest))
  {
    if rest[0] != '/' {
      FirstName(rest);
      var n := NameLength(rest);
      assert ([rest[..n]] + Components(rest[n..]))[1..] == Components(rest[n..]);
    }
  }

  // ---- Steps that ask nothing ----

  /** A slash or `.`. */
  lemma SkipStep(chroot: string, fs: Fs, st: St, intact: bool)
    requires st.rest != "" && (st.rest[0] == '/' || IsDot(st.rest))
    ensures var next := st.(rest := st.rest[1..]);
            Run(chroot, fs, st) == Run(chroot, fs, next) &&
            (Traceable(chroot, fs, next, intact) ==> Traceable(chroot, fs, st, intact))
  {
    hide NameStep, DotDotStep, IsDotDot;
  }

  function Back(got: string): nat { if got == "" then 0 else PopTo(got, |got| - 1) }

  /** `..` where the path is no longer than the chroot. */
  lemma UpStep(chroot: string, fs: Fs, st: St, intact: bool)
    requires |st.got| <= |chroot| && IsDotDot(st.rest)
    ensures var k := Back(st.got);
            if k == 0 then Run(chroot, fs, st) == OutOfBounds && Traceable(chroot, fs, st, intact)
            else
              var next := st.(got := st.got[..k], rest := st.rest[2..]);
              Run(chroot, fs, st) == Run(chroot, fs, next) &&
              (Traceable(chroot, fs, next, intact) ==> Traceable(chroot, fs, st, intact))
  {
    hide NameStep, PopTo;
  }

  /** With enough slashes the dots are worked off and the run ends. */
  lemma {:induction false} DotsStayInside(chroot: string, fs: Fs, st: St, intact: bool)
    requires |st.got| <= |chroot| && Enough(st.got, Components(st.rest))
    ensures Run(chroot, fs, st).Resolved? && Traceable(chroot, fs, st, intact)
    decreases |st.rest|
  {
    if st.rest != "" {
      FirstTodo(st.rest);
      PopSlashes(st.got);
      hide Run, Step, Components, PopTo, InnerSlashes, Traceable, AtName, Ups, OnlyDots;
      if st.rest[0] == '/' || IsDot(st.rest) {
        SkipStep(chroot, fs, st, intact);
        DotsStayInside(chroot, fs, st.(rest := st.rest[1..]), intact);
      } else if IsDotDot(st.rest) {
        UpStep(chroot, fs, st, intact);
        DotsStayInside(chroot, fs, st.(got := st.got[..Back(st.got)], rest := st.rest[2..]), intact);
      }
    }
  }

  /** With more `..` than slashes the pointer moves in front of the buffer. */
  lemma {:induction false} DotsRunOff(chroot: string, fs: Fs, st: St, intact: bool)
    requires |st.got| <= |chroot| && Ups(Components(st.rest)) > if st.got == "" then 0 else InnerSlashes(st.got)
    ensures Run(chroot, fs, st) == OutOfBounds && Traceable(chroot, fs, st, intact)
    decreases |st.rest|
  {
    if st.rest != "" {
      FirstTodo(st.rest);
      if st.got != "" {
        PopSlashes(st.got);
      }
      hide Run, Step, Components, PopTo, InnerSlashes, Traceable, AtName, Ups, OnlyDots;
      if st.rest[0] == '/' || IsDot(st.rest) {
        SkipStep(chroot, fs, st, intact);
        DotsRunOff(chroot, fs, st.(rest := st.rest[1..]), intact);
      } else if IsDotDot(st.rest) {
        UpStep(chroot, fs, st, intact);
        if Back(st.got) > 0 {
          DotsRunOff(chroot, fs, st.(got := st.got[..Back(st.got)], rest := st.rest[2..]), intact);
        }
      }
    }
  }

  // ---- A link to dots ----

  /** `..` this often, with slashes between. */
  function Dots(n: nat): (s: string)
    requires n > 0
    ensures |s| == 3 * n - 1 && s[0] == '.'
  {
    if n == 1 then ".." else "../" + Dots(n - 1)
  }

  /** Dots in front of what is left, as components. */
  lemma {:induction false} DotsTodo(n: nat, more: string)
    requires n > 0 && (more == "" || more[0] == '/')
    ensures Ups(Components(Dots(n) + more)) >= n
    ensures more == "" ==> OnlyDots(Components(Dots(n) + more)) && Ups(Components(Dots(n) + more)) == n
  {
    hide Components, Ups, OnlyDots;
    var s := Dots(n) + more;
    assert IsDotDot(s) by { assert n == 1 ==> s == ".." + more; }
    FirstTodo(s);
    if n == 1 {
      assert s[2..] == more;
      NoTodo();
    } else {
      var t := Dots(n - 1) + more;
      assert s[2..] == "/" + t && ("/" + t)[1..] == t;
      FirstTodo("/" + t);
      DotsTodo(n - 1, more);
    }
  }

  /** In every chroot: a last link to n times `..` leaves the buffer exactly when n is more than its slashes. */
  lemma DotsLeaveTheBuffer(chroot: string, a: string, n: nat, fs: Fs)
    requires chroot != "" && chroot != "/" && |chroot| + |a| < PATH_MAX - 3
    requires IsName(a) && a != "." && a != ".." && n > 0 && 3 * n < PATH_MAX - 1
    requires fs(0, Components(chroot + "/" + a)) == Link(Dots(n))
    ensures Resolve(chroot, a, fs) == OutOfBounds <==> n > InnerSlashes(chroot)
    ensures Traceable(chroot, fs, Start(chroot, a), true)
  {
    hide Components, Step, InnerSlashes, NameLength;
    LastLinkStep(chroot, a, Dots(n), fs);
    var st := St(chroot, Dots(n), |Dots(n)|, 1);
    DotsTodo(n, "");
    assert Dots(n) + "" == Dots(n);
    hide Dots, Ups, OnlyDots;
    if n > InnerSlashes(chroot) {
      DotsRunOff(chroot, fs, st, true);
    } else {
      DotsStayInside(chroot, fs, st, true);
    }
  }

  lemma NoTodo()
    ensures Components("") == [] && Ups([]) == 0 && OnlyDots([])
  {
  }

  // ---- Any continuation ----

  /** Room for what is left, for a link to one `..` more than there are slashes, and a readlink call. */
  predicate Roomy(chroot: string, st: St) {
    Spare(chroot, st) && 3 * (Slashes(st.got) + 1) + |st.rest| < PATH_MAX - 2
  }

  lemma TwistedReadable(fs: Fs, n: nat, p: seq<string>, reply: Reply)
    requires reply.Link? ==> NulFree(reply.target)
    ensures Readable(fs) ==> Readable(Twisted(fs, n, p, reply))
  {
  }

  lemma {:induction false} DotsReadable(n: nat)
    requires n > 0
    ensures NulFree(Dots(n))
  {
    if n > 1 {
      DotsReadable(n - 1);
    }
  }

  /** A name where the path is shorter than the chroot: some answer of readlink moves the pointer out of the buffer. */
  lemma NameRunsOff(chroot: string, fs: Fs, st: St, intact: bool) returns (fs': Fs)
    requires |st.got| < |chroot| && Roomy(chroot, st) && AtName(st.rest)
    ensures SameBelow(fs, fs', st.calls) && Run(chroot, fs', st) == OutOfBounds && Traceable(chroot, fs', st, intact)
    ensures Readable(fs) ==> Readable(fs')
  {
    hide Components, PopTo, Slashes, InnerSlashes, Dots, NameLength, Readable;
    var n := NameLength(st.rest);
    var q, rest := st.got + st.rest[..n], st.rest[n..];
    FirstName(st.rest);
    var k := BackOverName(st.got, st.rest[..n]);
    if k == 0 {
      fs' := Twisted(fs, st.calls, Components(q), Link(""));
      TwistedReadable(fs, st.calls, Components(q), Link(""));
      AskedAbout(chroot, fs', st);
      hide Step;
    } else {
      var got := if rest == "" then q[..k - 1] else q[..k];
      var ups := 1 + if got == "" then 0 else InnerSlashes(got);
      var target := Dots(ups);
      fs' := Twisted(fs, st.calls, Components(q), Link(target));
      DotsReadable(ups);
      TwistedReadable(fs, st.calls, Components(q), Link(target));
      AskedAbout(chroot, fs', st);
      SlashesLeft(st.got, q, k, rest == "");
      var next := St(got, target + rest, |target + rest|, st.calls + 1);
      LinkBack(chroot, q, k, target, rest, st.calls + 1);
      assert Step(chroot, fs', st) == Go(next);
      DotsTodo(ups, rest);
      hide Step;
      DotsRunOff(chroot, fs', next, false);
    }
  }

  /** Backing up from behind a name ends in front of it. */
  lemma BackOverName(got: string, name: string) returns (k: nat)
    requires IsName(name)
    ensures k == PopTo(got + name, |got + name|) <= |got|
  {
    hide PopTo;
    var q := got + name;
    k := PopTo(q, |q|);
    assert forall i :: |got| <= i < |q| ==> q[i] == name[i - |got|];
  }

  lemma SlashesLeft(got: string, q: string, k: nat, last: bool)
    requires got <= q && 0 < k <= |got|
    ensures var left := if last then q[..k - 1] else q[..k];
            |left| <= |got| && (left != "" ==> InnerSlashes(left) <= Slashes(got))
  {
    hide Slashes;
    var left := if last then q[..k - 1] else q[..k];
    assert left == got[..|left|];
    SlashesPrefix(got, |left|);
    if left != "" {
      SlashesPrefix(left, |left| - 1);
    }
  }

  /** A relative link, back to the slash in front of the component. */
  lemma LinkBack(chroot: string, q: string, k: nat, target: string, rest: string, calls: nat)
    requires k == PopTo(q, |q|) > 0 && target != "" && target[0] != '/'
    requires |rest| + |target| < PATH_MAX - 2 && |q| < PATH_MAX - 1
    ensures LinkStep(chroot, q, target, rest, calls)
            == Go(St(if rest == "" then q[..k - 1] else q[..k], target + rest, |target + rest|, calls))
  {
    hide PopTo;
    assert q[..k - 1] + "/" == q[..k];
  }

  /** With a path shorter than the chroot and too few slashes, or a name left, some run leaves the buffer. */
  lemma {:induction false} SomeRunsOff(chroot: string, fs: Fs, st: St, intact: bool) returns (fs': Fs)
    requires |st.got| < |chroot| && Roomy(chroot, st) && !Enough(st.got, Components(st.rest))
    ensures SameBelow(fs, fs', st.calls) && Run(chroot, fs', st) == OutOfBounds && Traceable(chroot, fs', st, intact)
    ensures Readable(fs) ==> Readable(fs')
    decreases |st.rest|
  {
    fs' := fs;
    if st.rest != "" {
      FirstTodo(st.rest);
      hide Run, Step, Components, PopTo, InnerSlashes, Traceable, Ups, OnlyDots, Slashes, Readable;
      if st.rest[0] == '/' || IsDot(st.rest) {
        fs' := SomeRunsOff(chroot, fs, st.(rest := st.rest[1..]), intact);
        SkipStep(chroot, fs', st, intact);
      } else if IsDotDot(st.rest) {
        if Back(st.got) > 0 {
          EnoughUp(st.got, st.rest);
          SlashesPrefix(st.got, Back(st.got));
          fs' := SomeRunsOff(chroot, fs, st.(got := st.got[..Back(st.got)], rest := st.rest[2..]), intact);
        }
        UpStep(chroot, fs', st, intact);
      } else {
        fs' := NameRunsOff(chroot, fs, st, intact);
      }
    }
  }

  lemma EnoughUp(got: string, rest: string)
    requires IsDotDot(rest) && Back(got) > 0
    ensures Enough(got[..Back(got)], Components(rest[2..])) == Enough(got, Components(rest))
  {
    hide Components, PopTo, InnerSlashes, Ups, OnlyDots;
    PopSlashes(got);
    FirstTodo(rest);
  }

  // ---- From the first state without the chroot in front ----

  /** The state at which the text of the chroot is no longer in front of the path. */
  function FirstShort(chroot: string, fs: Fs, st: St): (u: St)
    requires !StaysAbove(chroot, fs, st)
    ensures u.calls >= st.calls && !(chroot <= u.got)
    decreases MAX_READLINKS + 1 - st.calls, |st.rest|
  {
    if !(chroot <= st.got) then st else FirstShort(chroot, fs, Step(chroot, fs, st).st)
  }

  /** Where a link leads from a path below the chroot. */
  lemma LinkCuts(chroot: string, q: string, target: string, rest: string, calls: nat)
    requires chroot <= q && LinkStep(chroot, q, target, rest, calls).Go?
    ensures var got := LinkStep(chroot, q, target, rest, calls).st.got; chroot <= got || got < chroot
  {
    var k := PopTo(q, |q|);
    hide PopTo;
    assert k > 0 ==> q[..k - 1] + "/" == q[..k];
  }

  /** One step can only cut the path down to a beginning of the chroot. */
  lemma StepCuts(chroot: string, fs: Fs, st: St)
    requires chroot <= st.got && st.rest != "" && Step(chroot, fs, st).Go?
    ensures var got := Step(chroot, fs, st).st.got; chroot <= got || got < chroot
  {
    hide Components, PopTo, NameFits, LinkStep, Truncated, NameLength;
    if AtName(st.rest) {
      var n := NameLength(st.rest);
      var q := st.got + st.rest[..n];
      var reply := fs(st.calls, Components(q));
      if reply.Link? {
        LinkCuts(chroot, q, Truncated(reply.target), st.rest[n..], st.calls + 1);
      }
    }
  }

  lemma {:induction false} FirstShortIsPrefix(chroot: string, fs: Fs, st: St)
    requires chroot <= st.got && !StaysAbove(chroot, fs, st)
    ensures FirstShort(chroot, fs, st).got < chroot
    decreases MAX_READLINKS + 1 - st.calls, |st.rest|
  {
    StepCuts(chroot, fs, st);
    var m := Step(chroot, fs, st);
    hide Step;
    if chroot <= m.st.got {
      FirstShortIsPrefix(chroot, fs, m.st);
    }
  }

  /** Up to that state the run is the same for every file system that answers alike. */
  lemma {:induction false} ReachesShort(chroot: string, fs: Fs, fs': Fs, st: St)
    requires !StaysAbove(chroot, fs, st) && SameBelow(fs, fs', FirstShort(chroot, fs, st).calls)
    ensures var u := FirstShort(chroot, fs, st);
            Run(chroot, fs', st) == Run(chroot, fs', u) &&
            (Traceable(chroot, fs', u, true) ==> Traceable(chroot, fs', st, true))
    decreases MAX_READLINKS + 1 - st.calls, |st.rest|
  {
    if chroot <= st.got {
      var m := Step(chroot, fs, st);
      SameStep(chroot, fs, fs', st, FirstShort(chroot, fs, st).calls);
      hide Step, SameBelow, AtAbsoluteLink, AtName;
      ReachesShort(chroot, fs, fs', m.st);
    }
  }

  /** Whatever the file system answers after these calls, no pointer leaves its buffer: of the machine on strings. */
  ghost predicate InsideSoFar(chroot: string, path: string, fs: Fs, calls: nat) {
    forall fs' :: SameBelow(fs, fs', calls) ==> Resolve(chroot, path, fs') != OutOfBounds
  }

  /** And of the machine with the buffer, while all link targets are C strings. */
  ghost predicate BufferInsideSoFar(chroot: string, path: string, fs: Fs, calls: nat) {
    forall fs' :: Readable(fs') && SameBelow(fs, fs', calls) ==> BufResolve(chroot, path, fs') != OutOfBounds
  }

  /**
  The exact condition. At the first state without the chroot in front, with room and a call left: no file system that
  has answered like this one so far makes a pointer leave the buffer if and only if the path is not empty, only `.` and
  `..` are left, and there is a slash for every `..`.
  */
  lemma InsideIsExact(chroot: string, path: string, fs: Fs)
    requires chroot != "" && chroot != "/" && |chroot| + |path| < PATH_MAX - 3
    requires !StaysAbove(chroot, fs, Start(chroot, path)) && Roomy(chroot, FirstShort(chroot, fs, Start(chroot, path)))
    ensures var u := FirstShort(chroot, fs, Start(chroot, path));
            && (InsideSoFar(chroot, path, fs, u.calls) <==> Enough(u.got, Components(u.rest)))
            && (NulFree(chroot) && NulFree(path) && Readable(fs) ==>
                (BufferInsideSoFar(chroot, path, fs, u.calls) <==> Enough(u.got, Components(u.rest))))
  {
    hide StaysAbove, Run, Step, Components, Roomy, FirstShort, SameBelow, Traceable, Enough, BufResolve, Readable,
      NulFree;
    var st := Start(chroot, path);
    var u := FirstShort(chroot, fs, st);
    FirstShortIsPrefix(chroot, fs, st);
    if Enough(u.got, Components(u.rest)) {
      forall fs' | SameBelow(fs, fs', u.calls)
        ensures Resolve(chroot, path, fs') != OutOfBounds
        ensures NulFree(chroot) && NulFree(path) && Readable(fs') ==> BufResolve(chroot, path, fs') != OutOfBounds
      {
        ReachesShort(chroot, fs, fs', st);
        DotsStayInside(chroot, fs', u, true);
        SameAnswer(chroot, path, fs');
      }
    } else {
      var fs' := SomeRunsOff(chroot, fs, u, true);
      ReachesShort(chroot, fs, fs', st);
      SameAnswer(chroot, path, fs');
    }
  }

  lemma SameAnswer(chroot: string, path: string, fs: Fs)
    ensures NulFree(chroot) && NulFree(path) && Readable(fs) && Traceable(chroot, fs, Start(chroot, path), true) ==>
      BufResolve(chroot, path, fs) == Resolve(chroot, path, fs)
  {
    hide Traceable, Readable, NulFree, BufResolve, Run;
    if NulFree(chroot) && NulFree(path) && Readable(fs) && Traceable(chroot, fs, Start(chroot, path), true) {
      ResolveShows(chroot, path, fs);
    }
  }

  // ---- While the chroot is in front ----

  /** While the text of an absolute chroot stays in front, the pointer never leaves the buffer. */
  lemma {:induction false} AboveIsSafe(chroot: string, fs: Fs, st: St)
    requires chroot != "" && chroot != "/" && chroot[0] == '/' && StaysAbove(chroot, fs, st)
    ensures Run(chroot, fs, st) != OutOfBounds
    decreases MAX_READLINKS + 1 - st.calls, |st.rest|
  {
    if st.rest != "" {
      StepIsSafe(chroot, fs, st);
      var m := Step(chroot, fs, st);
      hide Step;
      if m.Go? {
        AboveIsSafe(chroot, fs, m.st);
      }
    }
  }

  lemma StepIsSafe(chroot: string, fs: Fs, st: St)
    requires chroot != "" && chroot != "/" && chroot[0] == '/' && chroot <= st.got && st.rest != ""
    ensures Step(chroot, fs, st) != Stop(OutOfBounds)
  {
    hide Components, PopTo, NameFits;
    var q := st.got + st.rest[..NameLength(st.rest)];
    assert st.got[0] == '/' && q[0] == '/' && |st.got| > 1;
  }

  /** The chroot stays in front, or what is left when it does not are dots with enough slashes. */
  predicate StaysInside(chroot: string, fs: Fs, st: St) {
    StaysAbove(chroot, fs, st) || var u := FirstShort(chroot, fs, st); Enough(u.got, Components(u.rest))
  }

  /** Runs that stay inside, and the buffers show them. */
  lemma InsideIsTraceable(chroot: string, fs: Fs, st: St)
    requires chroot != "" && chroot != "/" && chroot[0] == '/' && chroot <= st.got && StaysInside(chroot, fs, st)
    ensures Run(chroot, fs, st) != OutOfBounds && Traceable(chroot, fs, st, true)
  {
    hide Run, Step, Components, StaysAbove, FirstShort, Traceable, Enough;
    if StaysAbove(chroot, fs, st) {
      AboveIsSafe(chroot, fs, st);
      AboveIsTraceable(chroot, fs, st);
    } else {
      FirstShortIsPrefix(chroot, fs, st);
      DotsStayInside(chroot, fs, FirstShort(chroot, fs, st), true);
      ReachesShort(chroot, fs, fs, st);
    }
  }
}
