/**
The other half: a run that is not clean is wrong. From its first unclean state on, some file system that answered
every call so far in the same way makes the outcome differ from the resolver's answer.
*/
module ChrootConverse {
  import opened Common
  import opened Paths
  import opened ChrootSteps
  import opened ChrootResolver

  /** The state at which the run stops being clean. */
  function FirstUnclean(chroot: string, fs: Fs, st: St): (u: St)
    requires !Clean(chroot, fs, st)
    ensures u.calls >= st.calls
    ensures if u.rest == "" then |u.got| <= |chroot| && EndsWithSlash(chroot) else !GoodStep(chroot, u)
    decreases MAX_READLINKS + 1 - st.calls, |st.rest|
  {
    if st.rest == "" || !GoodStep(chroot, st) then st else FirstUnclean(chroot, fs, Step(chroot, fs, st).st)
  }

  /** There is room for what is left, and a readlink call. */
  predicate Spare(chroot: string, st: St) {
    && st.calls <= MAX_READLINKS && |st.rest| <= st.length
    && |chroot| + st.length + 3 <= PATH_MAX && |st.got| + |st.rest| + 2 <= PATH_MAX
  }

  ghost predicate SameBelow(fs: Fs, fs': Fs, calls: nat) {
    forall n: nat, p: seq<string> :: n < calls ==> fs'(n, p) == fs(n, p)
  }

  /** The same answers before call `c`; then `reply` for one path at that call, and no links. */
  function Twisted(fs: Fs, c: nat, path: seq<string>, reply: Reply): Fs {
    (n: nat, p: seq<string>) => if n < c then fs(n, p) else if n == c && p == path then reply else NotLink
  }

  /** A resolver that meets no links after this call does not fail to read. */
  lemma {:induction false} WalkReads(root: seq<string>, fs: Fs, stack: seq<string>, todo: seq<string>, calls: nat)
    requires forall n: nat, p: seq<string> :: n >= calls ==> fs(n, p) == NotLink
    ensures !Walk(root, fs, stack, todo, calls).CannotRead?
    decreases MAX_READLINKS + 1 - calls, |todo|
  {
    if todo == [] {
    } else if todo[0] == "." {
      WalkReads(root, fs, stack, todo[1..], calls);
    } else if todo[0] == ".." {
      WalkReads(root, fs, Popped(stack), todo[1..], calls);
    } else if calls <= MAX_READLINKS {
      assert fs(calls, root + (stack + [todo[0]])) == NotLink;
      WalkReads(root, fs, stack + [todo[0]], todo[1..], calls + 1);
    }
  }

  /** The string machine on a name that fits. */
  lemma AskedAbout(chroot: string, fs: Fs, st: St)
    requires Spare(chroot, st) && st.rest != "" && st.rest[0] != '/' && !IsDot(st.rest) && !IsDotDot(st.rest)
    ensures var n := NameLength(st.rest);
            var q, rest := st.got + st.rest[..n], st.rest[n..];
            && Step(chroot, fs, st) == Ask(chroot, fs, q, rest, st.length, st.calls) && |q + rest| < PATH_MAX
            && q + rest == st.got + st.rest
  {
    hide Ask, NameLength;
    var n := NameLength(st.rest);
    assert st.rest == st.rest[..n] + st.rest[n..];
    Assoc(st.got, st.rest[..n], st.rest[n..]);
  }

  /** A query that is not the resolver's: a failure of just this query is a failure of the machine only. */
  lemma WrongQuery(chroot: string, fs: Fs, st: St, stack: seq<string>) returns (fs': Fs)
    requires Spare(chroot, st) && st.rest != "" && st.rest[0] != '/' && !IsDot(st.rest) && !IsDotDot(st.rest)
    requires var name := st.rest[..NameLength(st.rest)];
             Components(st.got + name) != Components(chroot) + (stack + [name])
    ensures SameBelow(fs, fs', st.calls)
    ensures !Agrees(chroot, Run(chroot, fs', st), Walk(Components(chroot), fs', stack, Components(st.rest), st.calls))
  {
    var n := NameLength(st.rest);
    var name, root := st.rest[..n], Components(chroot);
    fs' := Twisted(fs, st.calls, Components(st.got + name), Failed);
    FirstName(st.rest);
    AskedAbout(chroot, fs', st);
    assert Run(chroot, fs', st) == Unreadable;
    hide Run, Step, Components;
    WalkName(root, fs', stack, name, Components(st.rest[n..]), st.calls);
    WalkReads(root, fs', stack + [name], Components(st.rest[n..]), st.calls + 1);
  }

  /** A path that is missing is returned as it is. */
  lemma MissingIsReturned(chroot: string, fs: Fs, st: St) returns (fs': Fs)
    requires Spare(chroot, st) && st.rest != "" && st.rest[0] != '/' && !IsDot(st.rest) && !IsDotDot(st.rest)
    ensures SameBelow(fs, fs', st.calls) && Run(chroot, fs', st) == Partial(st.got + st.rest)
  {
    fs' := Twisted(fs, st.calls, Components(st.got + st.rest[..NameLength(st.rest)]), Missing);
    AskedAbout(chroot, fs', st);
    hide Components, Step;
  }

  /** A name at a place that does not stand for the stack. */
  lemma NameIsWrong(chroot: string, fs: Fs, st: St, stack: seq<string>) returns (fs': Fs)
    requires Spare(chroot, st) && st.rest != "" && st.rest[0] != '/' && !IsDot(st.rest) && !IsDotDot(st.rest)
    requires var name := st.rest[..NameLength(st.rest)];
             Components(st.got + name) != Components(chroot) + (stack + [name]) || !Contained(chroot, st.got + st.rest)
    ensures SameBelow(fs, fs', st.calls)
    ensures !Agrees(chroot, Run(chroot, fs', st), Walk(Components(chroot), fs', stack, Components(st.rest), st.calls))
  {
    hide Run, Step, Components, Walk, Spare, Contained;
    if Contained(chroot, st.got + st.rest) {
      fs' := WrongQuery(chroot, fs, st, stack);
    } else {
      fs' := MissingIsReturned(chroot, fs, st);
    }
  }

  // ---- `..` applied to the bare chroot ----

  /** Above the chroot: a shorter beginning of it, up to a slash. */
  predicate Off(chroot: string, got: string) {
    got < chroot && EndsWithSlash(got)
  }

  /**
  A name behind such a path has fewer components than the resolver asks about, or the chroot is not in front of it.
  */
  lemma OffName(chroot: string, got: string, name: string, rest: string)
    requires Off(chroot, got) && IsName(name)
    ensures Components(got + name) != Components(chroot) + ([] + [name]) || !Contained(chroot, got + (name + rest))
  {
    var t := chroot[|got|..];
    assert chroot == got + t;
    ComponentsAppend(got, t);
    ComponentsAppend(got, name);
    NameComponents(name);
    assert [] + [name] == [name];
    hide Components;
    if Components(t) == [] {
      NoComponents(t);
      assert t[0] in t && chroot[|got|] == '/';
      assert (got + (name + rest))[|got|] == name[0] && name[0] in name;
    }
  }

  lemma WalkSkips(root: seq<string>, fs: Fs, stack: seq<string>, rest: string, calls: nat)
    requires rest != ""
    ensures rest[0] == '/' ==>
      Walk(root, fs, stack, Components(rest), calls) == Walk(root, fs, stack, Components(rest[1..]), calls)
    ensures IsDot(rest) ==>
      Walk(root, fs, stack, Components(rest), calls) == Walk(root, fs, stack, Components(rest[1..]), calls)
    ensures IsDotDot(rest) ==>
      Walk(root, fs, stack, Components(rest), calls) == Walk(root, fs, Popped(stack), Components(rest[2..]), calls)
  {
    if rest[0] != '/' {
      FirstName(rest);
      var n := NameLength(rest);
      assert ([rest[..n]] + Components(rest[n..]))[1..] == Components(rest[n..]);
    }
  }

  /** From above the chroot every run goes wrong: at the next name, at the end, or in front of the buffer. */
  lemma {:induction false} OffIsWrong(chroot: string, fs: Fs, st: St) returns (fs': Fs)
    requires Off(chroot, st.got) && Spare(chroot, st)
    ensures SameBelow(fs, fs', st.calls)
    ensures !Agrees(chroot, Run(chroot, fs', st), Walk(Components(chroot), fs', [], Components(st.rest), st.calls))
    decreases |st.rest|
  {
    hide Walk, Components, PopTo, Contained, NameStep;
    fs' := fs;
    if st.rest == "" {
      TooShort(chroot, st.got);
    } else if st.rest[0] == '/' || IsDot(st.rest) {
      var next := st.(rest := st.rest[1..]);
      fs' := OffIsWrong(chroot, fs, next);
      WalkSkips(Components(chroot), fs', [], st.rest, st.calls);
    } else if IsDotDot(st.rest) {
      var k := PopTo(st.got, |st.got| - 1);
      if k > 0 {
        var next := st.(got := st.got[..k], rest := st.rest[2..]);
        fs' := OffIsWrong(chroot, fs, next);
        WalkSkips(Components(chroot), fs', [], st.rest, st.calls);
      }
    } else {
      FirstName(st.rest);
      var n := NameLength(st.rest);
      assert st.rest == st.rest[..n] + st.rest[n..];
      OffName(chroot, st.got, st.rest[..n], st.rest[n..]);
      fs' := NameIsWrong(chroot, fs, st, []);
    }
  }

  lemma TooShort(chroot: string, got: string)
    requires got < chroot && got != ""
    ensures forall answer :: !Agrees(chroot, Finish(got), answer)
  {
  }

  // ---- From the first unclean state ----

  /** `..` on the bare chroot, a name without a slash in front of it, or the end at a chroot that ends with a slash. */
  lemma UncleanIsWrong(chroot: string, fs: Fs, st: St, stack: seq<string>) returns (fs': Fs)
    requires chroot != "" && chroot != "/" && Rep(chroot, st.got, stack) && Spare(chroot, st)
    requires if st.rest == "" then |st.got| <= |chroot| && EndsWithSlash(chroot) else !GoodStep(chroot, st)
    ensures SameBelow(fs, fs', st.calls)
    ensures !Agrees(chroot, Run(chroot, fs', st), Walk(Components(chroot), fs', stack, Components(st.rest), st.calls))
  {
    hide Walk, Components, PopTo, NameStep, DoubleOnlyFirst;
    fs' := fs;
    if st.rest == "" {
      assert st.got == chroot;
    } else if IsDotDot(st.rest) {
      assert st.got == chroot;
      BareStack(chroot, stack);
      var k := PopTo(chroot, |chroot| - 1);
      if k > 0 {
        var next := st.(got := chroot[..k], rest := st.rest[2..]);
        fs' := OffIsWrong(chroot, fs, next);
        WalkSkips(Components(chroot), fs', [], st.rest, st.calls);
      }
    } else {
      UncleanName(chroot, st, stack);
      fs' := NameIsWrong(chroot, fs, st, stack);
    }
  }

  lemma BareStack(chroot: string, stack: seq<string>)
    requires Rep(chroot, chroot, stack)
    ensures stack == []
  {
    assert chroot[|chroot|..] == "";
  }

  lemma UncleanName(chroot: string, st: St, stack: seq<string>)
    requires chroot != "" && Rep(chroot, st.got, stack) && st.rest != "" && st.rest[0] != '/'
    requires !IsDot(st.rest) && !IsDotDot(st.rest) && !GoodStep(chroot, st)
    ensures var name := st.rest[..NameLength(st.rest)];
            Components(st.got + name) != Components(chroot) + (stack + [name]) || !Contained(chroot, st.got + st.rest)
  {
    FirstName(st.rest);
    var name := st.rest[..NameLength(st.rest)];
    RepComponents(chroot, st.got, stack);
    hide Components, NameLength;
    if !EndsWithSlash(st.got) {
      GluedComponents(st.got, name);
    } else {
      assert (st.got + st.rest)[|chroot|] == st.rest[0];
    }
  }

  /** Up to the first unclean state both file systems give the same run. */
  lemma SameStep(chroot: string, fs: Fs, fs': Fs, st: St, calls: nat)
    requires st.rest != "" && SameBelow(fs, fs', calls)
    requires Step(chroot, fs, st).Go? && Step(chroot, fs, st).st.calls <= calls
    ensures Step(chroot, fs', st) == Step(chroot, fs, st)
  {
    hide Components, LinkStep, AddSlash, DotDotStep, NameFits;
    CallsGoUp(chroot, fs, st);
    if st.calls < calls && st.rest[0] != '/' && !IsDot(st.rest) && !IsDotDot(st.rest) {
      var n := NameLength(st.rest);
      assert fs'(st.calls, Components(st.got + st.rest[..n])) == fs(st.calls, Components(st.got + st.rest[..n]));
    }
  }

  /** Only a name uses up a call. */
  lemma CallsGoUp(chroot: string, fs: Fs, st: St)
    requires st.rest != "" && Step(chroot, fs, st).Go?
    ensures var name := st.rest[0] != '/' && !IsDot(st.rest) && !IsDotDot(st.rest);
            Step(chroot, fs, st).st.calls == st.calls + if name then 1 else 0
  {
    hide Components, PopTo, NameFits;
  }

  lemma {:induction false} UncleanRun(chroot: string, fs: Fs, st: St, stack: seq<string>) returns (fs': Fs)
    requires chroot != "" && chroot != "/" && Rep(chroot, st.got, stack)
    requires !Clean(chroot, fs, st) && Spare(chroot, FirstUnclean(chroot, fs, st))
    ensures SameBelow(fs, fs', FirstUnclean(chroot, fs, st).calls)
    ensures !Agrees(chroot, Run(chroot, fs', st), Walk(Components(chroot), fs', stack, Components(st.rest), st.calls))
    decreases MAX_READLINKS + 1 - st.calls, |st.rest|
  {
    if st.rest == "" || !GoodStep(chroot, st) {
      fs' := UncleanIsWrong(chroot, fs, st, stack);
    } else {
      var m := Step(chroot, fs, st);
      var stack' := StepAgrees(chroot, fs, st, stack);
      hide Step, Components, Walk, Agrees, Spare;
      fs' := UncleanRun(chroot, fs, m.st, stack');
      SameStep(chroot, fs, fs', st, FirstUnclean(chroot, fs, st).calls);
      var same := StepAgrees(chroot, fs', st, stack);
    }
  }

  /**
  The converse of ResolveAgrees. When a run is not clean and there is room and a call left at its first unclean state,
  a file system that answered all calls before it in the same way gives an outcome that is not the resolver's.
  */
  lemma UncleanDisagrees(chroot: string, path: string, fs: Fs) returns (fs': Fs)
    requires chroot != "" && chroot != "/" && |chroot| + |path| < PATH_MAX - 3
    requires !Clean(chroot, fs, Start(chroot, path)) && Spare(chroot, FirstUnclean(chroot, fs, Start(chroot, path)))
    ensures SameBelow(fs, fs', FirstUnclean(chroot, fs, Start(chroot, path)).calls)
    ensures !Agrees(chroot, Resolve(chroot, path, fs'), Walk(Components(chroot), fs', [], Components(path), 0))
  {
    hide Step, Run, Components, Walk, Agrees, Spare, Clean, Rep;
    RepRoot(chroot);
    fs' := UncleanRun(chroot, fs, Start(chroot, path), []);
  }
}
