/** When the buffers are large enough: a bound on the chroot, the path and the link targets. */
module ChrootRoom {
  import opened Paths
  import opened ChrootSteps
  import opened ChrootResolver
  import opened ChrootConverse

  /** No link target is longer than this. */
  ghost predicate ShortLinks(fs: Fs, longest: nat) {
    forall n: nat, p: seq<string> :: fs(n, p).Link? ==> |fs(n, p).target| <= longest
  }

  /** The characters that the readlink calls still allowed can add: a target and a slash each. */
  function Budget(calls: nat, longest: nat): nat
    decreases MAX_READLINKS + 1 - calls
  {
    if calls > MAX_READLINKS then 0 else longest + 1 + Budget(calls + 1, longest)
  }

  predicate HasRoom(chroot: string, st: St, longest: nat) {
    && |st.rest| <= st.length
    && |chroot| + st.length + Budget(st.calls, longest) + 3 <= PATH_MAX
    && |st.got| + |st.rest| + Budget(st.calls, longest) + 2 <= PATH_MAX
  }

  lemma AddSlashFits(chroot: string, st: St, last: bool, longest: nat)
    requires HasRoom(chroot, st.(got := st.got + "/"), longest)
    ensures AddSlash(st, last).Go? && HasRoom(chroot, AddSlash(st, last).st, longest)
  {
  }

  lemma LinkFits(chroot: string, q: string, target: string, rest: string, length: nat, calls: nat, longest: nat)
    requires |target| <= longest && |rest| < length && calls <= MAX_READLINKS &&
      |q| + |rest| + Budget(calls, longest) + 2 <= PATH_MAX
    requires |chroot| + length + Budget(calls, longest) + 3 <= PATH_MAX
    ensures var m := LinkStep(chroot, q, target, rest, calls + 1);
            if m.Go? then HasRoom(chroot, m.st, longest) else m.out != TooLong
  {
    assert Budget(calls, longest) == longest + 1 + Budget(calls + 1, longest);
    hide PopTo, Budget, AddSlash;
    var k := PopTo(q, |q|);
    var got := if target != "" && target[0] == '/' then chroot + "/" else if k > 0 then q[..k - 1] else "";
    assert |got + "/"| == |got| + 1 && |target + rest| == |target| + |rest|;
    AddSlashFits(chroot, St(got, target + rest, |target + rest|, calls + 1), rest == "", longest);
  }

  lemma StepFits(chroot: string, fs: Fs, st: St, longest: nat)
    requires st.rest != "" && HasRoom(chroot, st, longest) && ShortLinks(fs, longest)
    ensures var m := Step(chroot, fs, st); if m.Go? then HasRoom(chroot, m.st, longest) else m.out != TooLong
  {
    hide PopTo, Components, LinkStep;
    if st.rest[0] != '/' && !IsDot(st.rest) && !IsDotDot(st.rest) && st.calls <= MAX_READLINKS {
      var n := NameLength(st.rest);
      var q, rest := st.got + st.rest[..n], st.rest[n..];
      var reply := fs(st.calls, Components(q));
      if reply.NotLink? {
        AddSlashFits(chroot, St(q, rest, st.length, st.calls + 1), rest == "", longest);
      } else if reply.Link? {
        LinkFits(chroot, q, Truncated(reply.target), rest, st.length, st.calls, longest);
      }
    }
  }

  lemma {:induction false} RunFits(chroot: string, fs: Fs, st: St, longest: nat)
    requires HasRoom(chroot, st, longest) && ShortLinks(fs, longest)
    ensures Run(chroot, fs, st) != TooLong
    decreases MAX_READLINKS + 1 - st.calls, |st.rest|
  {
    if st.rest != "" {
      StepFits(chroot, fs, st, longest);
      var m := Step(chroot, fs, st);
      hide Step, HasRoom, ShortLinks;
      if m.Go? {
        RunFits(chroot, fs, m.st, longest);
      }
    }
  }

  /** In all, there is room for 33 targets of this length with a slash each. */
  lemma WholeBudget(longest: nat)
    ensures Budget(0, longest) == 33 * (longest + 1)
  {
    BudgetIs(0, longest);
  }

  lemma {:induction false} BudgetIs(calls: nat, longest: nat)
    requires calls <= MAX_READLINKS + 1
    ensures Budget(calls, longest) == (MAX_READLINKS + 1 - calls) * (longest + 1)
    decreases MAX_READLINKS + 1 - calls
  {
    if calls <= MAX_READLINKS {
      BudgetIs(calls + 1, longest);
    }
  }

  /**
  Within these bounds a run that meets no relative link as its last component ends with the resolver's answer, never for
  want of room.
  */
  lemma ResolveExact(chroot: string, path: string, fs: Fs, longest: nat)
    requires chroot != "" && chroot != "/" && MeetsNone(chroot, fs, Start(chroot, path))
    requires ShortLinks(fs, longest) && |chroot| + |path| + 33 * (longest + 1) + 3 <= PATH_MAX
    ensures var out := Resolve(chroot, path, fs);
            out != TooLong && Agrees(chroot, out, Walk(Components(chroot), fs, [], Components(path), 0))
  {
    hide MeetsNone, Walk, Run, Agrees, Components;
    WholeBudget(longest);
    RunFits(chroot, fs, Start(chroot, path), longest);
    MeetsNoneResolves(chroot, path, fs);
  }

  lemma {:induction false} RoomAtUnclean(chroot: string, fs: Fs, st: St, longest: nat)
    requires HasRoom(chroot, st, longest) && ShortLinks(fs, longest) && !Clean(chroot, fs, st)
    ensures HasRoom(chroot, FirstUnclean(chroot, fs, st), longest)
    decreases MAX_READLINKS + 1 - st.calls, |st.rest|
  {
    if st.rest != "" && GoodStep(chroot, st) {
      StepFits(chroot, fs, st, longest);
      var m := Step(chroot, fs, st);
      hide Step, HasRoom, ShortLinks;
      RoomAtUnclean(chroot, fs, m.st, longest);
    }
  }

  /** Two file systems that answer all calls in the same way give the same run. */
  lemma {:induction false} CleanSame(chroot: string, fs: Fs, fs': Fs, st: St)
    requires SameBelow(fs, fs', MAX_READLINKS + 1) && Clean(chroot, fs, st)
    ensures Clean(chroot, fs', st)
    decreases MAX_READLINKS + 1 - st.calls, |st.rest|
  {
    if st.rest != "" {
      EqualSteps(chroot, fs, fs', st);
      var m := Step(chroot, fs, st);
      hide Step, SameBelow, GoodStep;
      if m.Go? {
        CleanSame(chroot, fs, fs', m.st);
      }
    }
  }

  lemma EqualSteps(chroot: string, fs: Fs, fs': Fs, st: St)
    requires SameBelow(fs, fs', MAX_READLINKS + 1) && st.rest != ""
    ensures Step(chroot, fs', st) == Step(chroot, fs, st)
  {
    hide Components, LinkStep, AddSlash, DotDotStep, NameFits;
    if st.calls <= MAX_READLINKS {
      var q := st.got + st.rest[..NameLength(st.rest)];
      assert fs'(st.calls, Components(q)) == fs(st.calls, Components(q));
    }
  }

  /** The calls that a run has made when it stops being clean, or all calls. */
  function Horizon(chroot: string, fs: Fs, st: St): nat {
    if Clean(chroot, fs, st) then MAX_READLINKS + 1 else FirstUnclean(chroot, fs, st).calls
  }

  /** Whatever the file system answers after these calls, the outcome is the resolver's. */
  ghost predicate RightSoFar(chroot: string, path: string, fs: Fs, calls: nat) {
    forall fs' :: SameBelow(fs, fs', calls) ==>
      Agrees(chroot, Resolve(chroot, path, fs'), Walk(Components(chroot), fs', [], Components(path), 0))
  }

  /**
  Being clean is the exact condition. Within the bounds, and with a call left where the run stops being clean, the
  outcome is the resolver's for every file system that has answered like this one so far if and only if the run is
  clean.
  */
  lemma CleanIsExact(chroot: string, path: string, fs: Fs, longest: nat)
    requires chroot != "" && chroot != "/"
    requires ShortLinks(fs, longest) && |chroot| + |path| + 33 * (longest + 1) + 3 <= PATH_MAX
    requires var st := Start(chroot, path); Clean(chroot, fs, st) || FirstUnclean(chroot, fs, st).calls <= MAX_READLINKS
    ensures Clean(chroot, fs, Start(chroot, path)) <==>
      RightSoFar(chroot, path, fs, Horizon(chroot, fs, Start(chroot, path)))
  {
    hide Clean, Walk, Run, Agrees, Components, Step, ShortLinks, FirstUnclean, SameBelow;
    var st := Start(chroot, path);
    if Clean(chroot, fs, st) {
      forall fs' | SameBelow(fs, fs', MAX_READLINKS + 1)
        ensures Agrees(chroot, Resolve(chroot, path, fs'), Walk(Components(chroot), fs', [], Components(path), 0))
      {
        CleanSame(chroot, fs, fs', st);
        ResolveAgrees(chroot, path, fs');
      }
    } else {
      WholeBudget(longest);
      RoomAtUnclean(chroot, fs, st, longest);
      var fs' := UncleanDisagrees(chroot, path, fs);
    }
  }
}
