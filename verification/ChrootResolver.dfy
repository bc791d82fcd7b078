/**
What chroot_realpath is for: a resolver on component stacks, in which `..` never
leaves the root and an absolute link starts over at the root, and the proof that
the machine on strings computes it as long as no slash gets lost.
*/
module ChrootResolver {
  import opened Common
  import opened Paths
  import opened ChrootSteps

  datatype Answer = Found(stack: seq<string>) | Incomplete(names: seq<string>) | GaveUp | CannotRead

  predicate IsAbsolute(target: string) { target != "" && target[0] == '/' }

  /**
  Resolve the components `todo` below the stack; `root` are the components of the chroot. There are 33 questions to
  readlink. All components of a link take its place: below the stack, or below the root for an absolute link.
  */
  function Walk(root: seq<string>, fs: Fs, stack: seq<string>, todo: seq<string>, calls: nat): Answer
    decreases MAX_READLINKS + 1 - calls, |todo|
  {
    if todo == [] then Found(stack)
    else if todo[0] == "." then Walk(root, fs, stack, todo[1..], calls)
    else if todo[0] == ".." then Walk(root, fs, Popped(stack), todo[1..], calls)
    else if calls >= 33 then GaveUp
    else
      match fs(calls, root + (stack + [todo[0]]))
      case Missing => Incomplete(stack + todo)
      case Failed => CannotRead
      case NotLink => Walk(root, fs, stack + [todo[0]], todo[1..], calls + 1)
      case Link(target) =>
        var names := Components(if |target| < 4096 then target else Truncated(target));
        Walk(root, fs, if IsAbsolute(target) then [] else stack, names + todo[1..], calls + 1)
  }

  /** The path is the chroot itself or lies below it. */
  predicate Contained(chroot: string, path: string) {
    chroot <= path && (|path| == |chroot| || path[|chroot|] == '/')
  }

  /** The outcome is the answer, or a buffer was too small for it. */
  predicate Agrees(chroot: string, out: Outcome, answer: Answer) {
    match out
    case Resolved(p) =>
      && answer.Found? && Contained(chroot, p) && Components(p) == Components(chroot) + answer.stack
      && (answer.stack != [] ==> !EndsWithSlash(p))
    case Partial(p) => answer.Incomplete? && Contained(chroot, p) && Components(p) == Components(chroot) + answer.names
    case TooLong => true
    case TooManyLinks => answer.GaveUp?
    case Unreadable => answer.CannotRead?
    case OutOfBounds => false
  }

  // ------------------------------------------------------- strings and stacks

  /** Two slashes in a row stand only at the beginning. */
  predicate DoubleOnlyFirst(tail: string) {
    forall i :: 1 <= i < |tail| - 1 ==> !(tail[i] == '/' && tail[i + 1] == '/')
  }

  /** `got` is the chroot followed by the stack. */
  predicate Rep(chroot: string, got: string, stack: seq<string>) {
    Contained(chroot, got) && Components(got[|chroot|..]) == stack && DoubleOnlyFirst(got[|chroot|..])
  }

  lemma RepComponents(chroot: string, got: string, stack: seq<string>)
    requires Rep(chroot, got, stack)
    ensures Components(got) == Components(chroot) + stack
  {
    assert got == chroot + got[|chroot|..];
    ComponentsAppend(chroot, got[|chroot|..]);
  }

  /** The tail of a path below the chroot, cut or extended at its end. */
  lemma TailAppend(chroot: string, got: string, more: string)
    requires Contained(chroot, got)
    ensures (got + more)[|chroot|..] == got[|chroot|..] + more
  {
  }

  /** A name or a slash added behind a slash or a name. */
  lemma RepName(chroot: string, got: string, stack: seq<string>, name: string)
    requires Rep(chroot, got, stack) && EndsWithSlash(got) && |got| > |chroot| && IsName(name)
    ensures Rep(chroot, got + name, stack + [name])
    ensures Rep(chroot, got + name + "/", stack + [name])
  {
    var tail := got[|chroot|..];
    TailAppend(chroot, got, name);
    ComponentsAppend(tail, name);
    NameComponents(name);
    TailAppend(chroot, got + name, "/");
    ComponentsAppend(tail + name, "/");
    assert name[0] in name && name[|name| - 1] in name;
    assert Components("/") == [];
  }

  /** Dropping the last slash. */
  lemma RepDropSlash(chroot: string, got: string, stack: seq<string>)
    requires Rep(chroot, got, stack) && EndsWithSlash(got) && |got| > |chroot|
    ensures Rep(chroot, got[..|got| - 1], stack)
  {
    var tail := got[|chroot|..];
    var cut := tail[..|tail| - 1];
    assert got[..|got| - 1][|chroot|..] == cut && tail == cut + "/";
    ComponentsAppend(cut, "/");
    assert Components("/") == [];
  }

  lemma RepRoot(chroot: string)
    ensures Rep(chroot, chroot + "/", []) && Rep(chroot, chroot + "/" + "/", [])
  {
    assert (chroot + "/")[|chroot|..] == "/" && (chroot + "/" + "/")[|chroot|..] == "//";
    assert Components("//") == Components("/") by { assert "//"[1..] == "/"; }
    assert Components("/") == [] by { assert "/"[1..] == ""; }
  }

  function Popped(stack: seq<string>): seq<string> {
    if stack == [] then [] else stack[..|stack| - 1]
  }

  lemma TailPop(tail: string, h: nat)
    requires |tail| >= 2 && tail[0] == '/' && DoubleOnlyFirst(tail)
    requires 0 < h < |tail| && tail[h - 1] == '/' && forall i :: h <= i < |tail| - 1 ==> tail[i] != '/'
    ensures Components(tail[..h]) == Popped(Components(tail)) && DoubleOnlyFirst(tail[..h])
  {
    var head, last := tail[..h], tail[h..];
    assert tail == head + last;
    ComponentsAppend(head, last);
    LastPart(last);
    if Components(last) == [] {
      assert h == |tail| - 1;
      assert tail == "//" by { assert !(1 <= h - 1 < |tail| - 1); }
      assert head == "/" && "/"[1..] == "";
    }
  }

  lemma PopStaysBelow(chroot: string, got: string)
    requires Contained(chroot, got) && |got| > |chroot| + 1
    ensures |chroot| < PopTo(got, |got| - 1) < |got|
    ensures EndsWithSlash(got[..PopTo(got, |got| - 1)])
  {
    hide PopTo;
    PopAbove(got, |chroot|);
  }

  /** Backing up stops at a slash, if there is one. */
  lemma PopAbove(got: string, at: nat)
    requires at < |got| - 1 && got[at] == '/'
    ensures at < PopTo(got, |got| - 1) < |got| && got[PopTo(got, |got| - 1) - 1] == '/'
  {
    hide PopTo;
  }

  /** Going back to behind the previous slash removes the last component. */
  lemma RepPop(chroot: string, got: string, stack: seq<string>)
    requires Rep(chroot, got, stack) && |got| > |chroot| + 1
    ensures Rep(chroot, got[..PopTo(got, |got| - 1)], Popped(stack))
  {
    hide Components, DoubleOnlyFirst;
    var k, tail := PopTo(got, |got| - 1), got[|chroot|..];
    PopStaysBelow(chroot, got);
    forall i | k - |chroot| <= i < |tail| - 1 ensures tail[i] != '/' { assert tail[i] == got[|chroot| + i]; }
    hide PopTo;
    TailPop(tail, k - |chroot|);
    assert got[..k][|chroot|..] == tail[..k - |chroot|];
  }

  /** A part with no slash except perhaps at its end has one component at most. */
  lemma LastPart(s: string)
    requires s != "" && forall i :: 0 <= i < |s| - 1 ==> s[i] != '/'
    ensures |Components(s)| <= 1
    ensures Components(s) == [] ==> s == "/"
  {
    var name := s[..|s| - 1];
    if s[|s| - 1] != '/' {
      NameComponents(s);
    } else if name == "" {
      assert s[1..] == "";
    } else {
      assert s == name + "/";
      NameComponents(name);
      ComponentsAppend(name, "/");
      assert Components("/") == [] by { assert "/"[1..] == ""; }
    }
  }

  // --------------------------------------------------------------- refinement

  /**
  The next step does not run into a lost slash: a name goes behind a slash, and `..` is not applied to the bare chroot.
  */
  predicate GoodStep(chroot: string, st: St)
    requires st.rest != ""
  {
    if st.rest[0] == '/' || IsDot(st.rest) then true
    else if IsDotDot(st.rest) then |st.got| != |chroot|
    else EndsWithSlash(st.got) && |st.got| > |chroot|
  }

  /** No step of the run meets a lost slash, and neither does its end when the chroot itself ends with one. */
  predicate Clean(chroot: string, fs: Fs, st: St)
    decreases MAX_READLINKS + 1 - st.calls, |st.rest|
  {
    if st.rest == "" then |st.got| > |chroot| || !EndsWithSlash(chroot)
    else
      && GoodStep(chroot, st)
      && match Step(chroot, fs, st)
         case Go(st') => Clean(chroot, fs, st')
         case Stop(_) => true
  }

  /** The components in front of a path that starts with a name. */
  lemma FirstName(rest: string)
    requires rest != "" && rest[0] != '/'
    ensures var n := NameLength(rest);
            n > 0 && IsName(rest[..n]) && Components(rest) == [rest[..n]] + Components(rest[n..])
            && (rest[..n] == "." <==> IsDot(rest)) && (rest[..n] == ".." <==> IsDotDot(rest))
  {
    var n := NameLength(rest);
    assert rest[..n][0] == rest[0];
    assert |rest| > 1 && n > 1 ==> rest[..n][1] == rest[1];
  }

  lemma PopName(got: string, name: string)
    requires EndsWithSlash(got) && IsName(name)
    ensures PopTo(got + name, |got + name|) == |got|
  {
    var q := got + name;
    assert q[|got| - 1] == '/';
    forall i | |got| <= i < |q| ensures q[i] != '/' { assert q[i] == name[i - |got|] && q[i] in name; }
  }

  lemma CutSlash(got: string, name: string)
    requires EndsWithSlash(got)
    ensures (got + name)[..|got| - 1] == got[..|got| - 1] && got[..|got| - 1] + "/" == got
  {
  }

  lemma AddSlashAgrees(chroot: string, st: St, stack: seq<string>, last: bool)
    requires Rep(chroot, st.got, stack) && Rep(chroot, st.got + "/", stack)
    ensures var m := AddSlash(st, last);
            if m.Stop? then m.out == TooLong
            else Rep(chroot, m.st.got, stack) && m.st.rest == st.rest && m.st.calls == st.calls
  {
    hide Rep;
  }

  lemma RelativeLinkAgrees(chroot: string, got: string, stack: seq<string>, name: string, rest: string,
    target: string, calls: nat)
    requires Rep(chroot, got, stack) && EndsWithSlash(got) && |got| > |chroot| && IsName(name)
    requires (rest == "" || rest[0] == '/') && (target == "" || target[0] != '/')
    ensures var m := LinkStep(chroot, got + name, target, rest, calls);
            if m.Stop? then m.out == TooLong
            else
              Rep(chroot, m.st.got, stack) && Components(m.st.rest) == Components(target) + Components(rest) &&
              m.st.calls == calls
  {
    hide Components, Rep, PopTo, EndsWithSlash, IsName, AddSlash;
    ComponentsAppend(target, rest);
    PopName(got, name);
    CutSlash(got, name);
    RepDropSlash(chroot, got, stack);
    AddSlashAgrees(chroot, St(got[..|got| - 1], target + rest, |target + rest|, calls), stack, rest == "");
  }

  lemma AbsoluteLinkAgrees(chroot: string, q: string, rest: string, target: string, calls: nat)
    requires (rest == "" || rest[0] == '/') && target != "" && target[0] == '/'
    ensures var m := LinkStep(chroot, q, target, rest, calls);
            if m.Stop? then m.out == TooLong
            else
              Rep(chroot, m.st.got, []) && Components(m.st.rest) == Components(target) + Components(rest) &&
              m.st.calls == calls
  {
    hide Components, Rep, PopTo, AddSlash;
    ComponentsAppend(target, rest);
    RepRoot(chroot);
    AddSlashAgrees(chroot, St(chroot + "/", target + rest, |target + rest|, calls), [], rest == "");
  }

  /** One name of the component resolver. */
  lemma WalkName(root: seq<string>, fs: Fs, stack: seq<string>, name: string, todo: seq<string>, calls: nat)
    requires name != "." && name != ".."
    ensures Walk(root, fs, stack, [name] + todo, calls) ==
            if calls >= 33 then GaveUp
            else
              match fs(calls, root + (stack + [name]))
              case Missing => Incomplete(stack + [name] + todo)
              case Failed => CannotRead
              case NotLink => Walk(root, fs, stack + [name], todo, calls + 1)
              case Link(target) =>
                var names := Components(Truncated(target));
                Walk(root, fs, if IsAbsolute(target) then [] else stack, names + todo, calls + 1)
  {
    assert ([name] + todo)[1..] == todo && stack + ([name] + todo) == stack + [name] + todo;
  }

  lemma SameStart(target: string)
    ensures IsAbsolute(target) <==> Truncated(target) != "" && Truncated(target)[0] == '/'
  {
  }

  lemma AskAgrees(chroot: string, fs: Fs, got: string, stack: seq<string>, name: string, rest: string, length: nat,
    calls: nat)
    returns (stack': seq<string>)
    requires Rep(chroot, got, stack) && EndsWithSlash(got) && |got| > |chroot|
    requires IsName(name) && name != "." && name != ".." && (rest == "" || rest[0] == '/') && calls <= MAX_READLINKS
    ensures var m := Ask(chroot, fs, got + name, rest, length, calls);
            var answer := Walk(Components(chroot), fs, stack, [name] + Components(rest), calls);
            if m.Stop? then Agrees(chroot, m.out, answer)
            else
              Rep(chroot, m.st.got, stack') &&
              answer == Walk(Components(chroot), fs, stack', Components(m.st.rest), m.st.calls)
  {
    hide Components, Rep, Walk, LinkStep, AddSlash, IsName, EndsWithSlash, Truncated, IsAbsolute;
    var q := got + name;
    RepName(chroot, got, stack, name);
    RepComponents(chroot, q, stack + [name]);
    WalkName(Components(chroot), fs, stack, name, Components(rest), calls);
    stack' := stack + [name];
    match fs(calls, Components(q))
    case Missing => MissingAgrees(chroot, q, rest, stack');
    case Failed =>
    case NotLink => AddSlashAgrees(chroot, St(q, rest, length, calls + 1), stack', rest == "");
    case Link(target) =>
      var t := Truncated(target);
      SameStart(target);
      if IsAbsolute(target) {
        stack' := [];
        AbsoluteLinkAgrees(chroot, q, rest, t, calls + 1);
      } else {
        stack' := stack;
        RelativeLinkAgrees(chroot, got, stack, name, rest, t, calls + 1);
      }
  }

  lemma MissingAgrees(chroot: string, q: string, rest: string, stack: seq<string>)
    requires Rep(chroot, q, stack) && (rest == "" || rest[0] == '/')
    ensures Contained(chroot, q + rest) && Components(q + rest) == Components(chroot) + (stack + Components(rest))
  {
    RepComponents(chroot, q, stack);
    ComponentsAppend(q, rest);
    Assoc(Components(chroot), stack, Components(rest));
  }

  lemma NameAgrees(chroot: string, fs: Fs, st: St, stack: seq<string>) returns (stack': seq<string>)
    requires Rep(chroot, st.got, stack) && st.rest != "" && st.rest[0] != '/' && !IsDot(st.rest) && !IsDotDot(st.rest)
    requires EndsWithSlash(st.got) && |st.got| > |chroot|
    ensures var m := NameStep(chroot, fs, st);
            var answer := Walk(Components(chroot), fs, stack, Components(st.rest), st.calls);
            if m.Stop? then Agrees(chroot, m.out, answer)
            else
              Rep(chroot, m.st.got, stack') &&
              answer == Walk(Components(chroot), fs, stack', Components(m.st.rest), m.st.calls)
  {
    hide Components, Rep, Walk, Ask, IsDot, IsDotDot, EndsWithSlash, NameFits, IsName;
    var n := NameLength(st.rest);
    FirstName(st.rest);
    stack' := stack;
    if st.calls <= MAX_READLINKS {
      stack' := AskAgrees(chroot, fs, st.got, stack, st.rest[..n], st.rest[n..], st.length, st.calls);
    } else {
      WalkName(Components(chroot), fs, stack, st.rest[..n], Components(st.rest[n..]), st.calls);
    }
  }

  lemma DotDotAgrees(chroot: string, st: St, stack: seq<string>)
    requires Rep(chroot, st.got, stack) && IsDotDot(st.rest) && GoodStep(chroot, st)
    ensures var m := DotDotStep(chroot, st);
            m.Go? && Rep(chroot, m.st.got, Popped(stack)) && m.st.rest == st.rest[2..] && m.st.calls == st.calls
  {
    hide Components, PopTo, DoubleOnlyFirst, EndsWithSlash;
    if |st.got| == |chroot| + 1 {
      RepRoot(chroot);
      assert st.got == chroot + "/";
    } else {
      PopStaysBelow(chroot, st.got);
      RepPop(chroot, st.got, stack);
    }
  }

  lemma StepAgrees(chroot: string, fs: Fs, st: St, stack: seq<string>) returns (stack': seq<string>)
    requires Rep(chroot, st.got, stack) && st.rest != "" && GoodStep(chroot, st)
    ensures var m := Step(chroot, fs, st);
            var answer := Walk(Components(chroot), fs, stack, Components(st.rest), st.calls);
            if m.Stop? then Agrees(chroot, m.out, answer)
            else
              Rep(chroot, m.st.got, stack') &&
              answer == Walk(Components(chroot), fs, stack', Components(m.st.rest), m.st.calls)
  {
    stack' := stack;
    if st.rest[0] == '/' {
    } else {
      FirstName(st.rest);
      var n := NameLength(st.rest);
      var todo := Components(st.rest[n..]);
      assert ([st.rest[..n]] + todo)[1..] == todo;
      if IsDot(st.rest) {
      } else if IsDotDot(st.rest) {
        DotDotAgrees(chroot, st, stack);
        stack' := Popped(stack);
      } else {
        stack' := NameAgrees(chroot, fs, st, stack);
      }
    }
    hide Rep, NameStep, DotDotStep;
  }

  /** From any state that stands for a stack, a clean run ends like the component resolver. */
  lemma {:induction false} RunAgrees(chroot: string, fs: Fs, st: St, stack: seq<string>)
    requires chroot != "" && Rep(chroot, st.got, stack) && Clean(chroot, fs, st)
    ensures Agrees(chroot, Run(chroot, fs, st), Walk(Components(chroot), fs, stack, Components(st.rest), st.calls))
    decreases MAX_READLINKS + 1 - st.calls, |st.rest|
  {
    if st.rest == "" {
      FinishAgrees(chroot, st.got, stack);
    } else {
      var stack' := StepAgrees(chroot, fs, st, stack);
      var m := Step(chroot, fs, st);
      if m.Go? {
        hide Rep, Step, Walk, Agrees, Components;
        RunAgrees(chroot, fs, m.st, stack');
      }
    }
  }

  lemma FinishAgrees(chroot: string, got: string, stack: seq<string>)
    requires chroot != "" && Rep(chroot, got, stack) && (|got| > |chroot| || !EndsWithSlash(chroot))
    ensures Agrees(chroot, Finish(got), Found(stack))
  {
    RepComponents(chroot, got, stack);
    if EndsWithSlash(got) && |got| > |chroot| {
      RepDropSlash(chroot, got, stack);
      RepComponents(chroot, got[..|got| - 1], stack);
      if stack != [] {
        OneSlash(chroot, got, stack);
      }
    } else {
      assert |got| == |chroot| ==> got == chroot;
    }
  }

  /** Below a component there is one slash at the end at most. */
  lemma OneSlash(chroot: string, got: string, stack: seq<string>)
    requires Rep(chroot, got, stack) && EndsWithSlash(got) && |got| > |chroot| && stack != []
    ensures !EndsWithSlash(got[..|got| - 1])
  {
    var tail := got[|chroot|..];
    assert tail[|tail| - 1] == '/' && tail[0] == '/';
    SlashesAlone();
    assert |tail| == 1 ==> tail == "/";
    assert |tail| == 2 ==> tail == "//";
    assert |tail| > 2 ==> tail[|tail| - 2] == got[|got| - 2];
  }

  lemma SlashesAlone()
    ensures Components("/") == [] && Components("//") == []
  {
    assert "/"[1..] == "" && "//"[1..] == "/";
  }

  /** The main result: a clean run gives the component resolver's answer, inside the chroot. */
  lemma ResolveAgrees(chroot: string, path: string, fs: Fs)
    requires chroot != "" && chroot != "/" && Clean(chroot, fs, Start(chroot, path))
    ensures Agrees(chroot, Resolve(chroot, path, fs), Walk(Components(chroot), fs, [], Components(path), 0))
  {
    RepRoot(chroot);
    RunAgrees(chroot, fs, Start(chroot, path), []);
  }

  // ------------------------------------------------- when is a run clean

  /** The next step meets a relative link as the last remaining component. */
  predicate LastRelativeLink(fs: Fs, st: St)
    requires st.rest != ""
  {
    var n := NameLength(st.rest);
    && st.rest[0] != '/' && !IsDot(st.rest) && !IsDotDot(st.rest) && n == |st.rest|
    && var reply := fs(st.calls, Components(st.got + st.rest[..n]));
       reply.Link? && !IsAbsolute(reply.target)
  }

  predicate MeetsNone(chroot: string, fs: Fs, st: St)
    decreases MAX_READLINKS + 1 - st.calls, |st.rest|
  {
    st.rest == "" || (!LastRelativeLink(fs, st) &&
    match Step(chroot, fs, st)
    case Go(st') => MeetsNone(chroot, fs, st')
    case Stop(_) => true)
  }

  /** Unless the last component is a relative link, the path keeps its slash while anything is left. */
  lemma StepKeepsSlash(chroot: string, fs: Fs, st: St)
    requires Contained(chroot, st.got) && EndsWithSlash(st.got) && |st.got| > |chroot| && st.rest != "" &&
      !LastRelativeLink(fs, st)
    ensures var m := Step(chroot, fs, st);
            m.Go? ==> |m.st.got| > |chroot| && (m.st.rest == "" || EndsWithSlash(m.st.got))
  {
    hide PopTo, Components, NameStep;
    if IsDotDot(st.rest) {
      if |st.got| > |chroot| + 1 {
        PopStaysBelow(chroot, st.got);
      }
    } else if st.rest[0] != '/' && !IsDot(st.rest) {
      NameKeepsSlash(chroot, fs, st);
    }
  }

  lemma NameKeepsSlash(chroot: string, fs: Fs, st: St)
    requires EndsWithSlash(st.got) && |st.got| > |chroot| && st.rest != "" && !LastRelativeLink(fs, st)
    requires st.rest[0] != '/' && !IsDot(st.rest) && !IsDotDot(st.rest)
    ensures var m := NameStep(chroot, fs, st);
            m.Go? ==> |m.st.got| > |chroot| && (m.st.rest == "" || EndsWithSlash(m.st.got))
  {
    hide PopTo, Components, NameFits, IsName, IsDot, IsDotDot, Truncated;
    var n := NameLength(st.rest);
    FirstName(st.rest);
    PopName(st.got, st.rest[..n]);
    CutSlash(st.got, st.rest[..n]);
  }

  /** A run that meets no relative link as its last remaining component is clean. */
  lemma {:induction false} MeetsNoneIsClean(chroot: string, fs: Fs, st: St, stack: seq<string>)
    requires Rep(chroot, st.got, stack) && |st.got| > |chroot| && (st.rest == "" || EndsWithSlash(st.got))
    requires MeetsNone(chroot, fs, st)
    ensures Clean(chroot, fs, st)
    decreases MAX_READLINKS + 1 - st.calls, |st.rest|
  {
    if st.rest != "" {
      StepKeepsSlash(chroot, fs, st);
      var stack' := StepAgrees(chroot, fs, st, stack);
      var m := Step(chroot, fs, st);
      hide Step, Components, Walk, Agrees;
      if m.Go? {
        MeetsNoneIsClean(chroot, fs, m.st, stack');
      }
    }
  }

  /** The text of the chroot stays in front of the resolved path throughout the run. */
  predicate StaysAbove(chroot: string, fs: Fs, st: St)
    decreases MAX_READLINKS + 1 - st.calls, |st.rest|
  {
    chroot <= st.got && (st.rest == "" ||
    match Step(chroot, fs, st)
    case Go(st') => StaysAbove(chroot, fs, st')
    case Stop(_) => true)
  }

  lemma {:induction false} CleanStaysAbove(chroot: string, fs: Fs, st: St, stack: seq<string>)
    requires Rep(chroot, st.got, stack) && Clean(chroot, fs, st)
    ensures StaysAbove(chroot, fs, st)
    decreases MAX_READLINKS + 1 - st.calls, |st.rest|
  {
    if st.rest != "" {
      var stack' := StepAgrees(chroot, fs, st, stack);
      var m := Step(chroot, fs, st);
      hide Step, Components, Walk, Agrees;
      if m.Go? {
        CleanStaysAbove(chroot, fs, m.st, stack');
      }
    }
  }

  /** The next component is a name. */
  predicate AtName(rest: string) {
    rest != "" && rest[0] != '/' && !IsDot(rest) && !IsDotDot(rest)
  }

  predicate SaysAbsolute(reply: Reply) {
    reply.Link? && IsAbsolute(reply.target)
  }

  /** The next component is an absolute link. */
  predicate AtAbsoluteLink(fs: Fs, st: St) {
    AtName(st.rest) && SaysAbsolute(fs(st.calls, Components(st.got + st.rest[..NameLength(st.rest)])))
  }

  /**
  No absolute link starts over at a chroot whose text has been overwritten: `intact` says that no name was copied into
  the chroot's part of the buffer so far.
  */
  predicate Traceable(chroot: string, fs: Fs, st: St, intact: bool)
    decreases MAX_READLINKS + 1 - st.calls, |st.rest|
  {
    st.rest == "" ||
    (var intact' := intact && (AtName(st.rest) ==> |st.got| >= |chroot|);
     (AtAbsoluteLink(fs, st) ==> intact') &&
     match Step(chroot, fs, st)
     case Go(st') => Traceable(chroot, fs, st', intact')
     case Stop(_) => true)
  }

  lemma {:induction false} AboveIsTraceable(chroot: string, fs: Fs, st: St)
    requires StaysAbove(chroot, fs, st)
    ensures Traceable(chroot, fs, st, true)
    decreases MAX_READLINKS + 1 - st.calls, |st.rest|
  {
    if st.rest != "" {
      var m := Step(chroot, fs, st);
      hide Step, AtAbsoluteLink, AtName;
      if m.Go? {
        AboveIsTraceable(chroot, fs, m.st);
      }
    }
  }

  /**
  The main result, in terms of the links met: without a relative link as last component the answer is the resolver's.
  */
  lemma MeetsNoneResolves(chroot: string, path: string, fs: Fs)
    requires chroot != "" && chroot != "/" && MeetsNone(chroot, fs, Start(chroot, path))
    ensures Agrees(chroot, Resolve(chroot, path, fs), Walk(Components(chroot), fs, [], Components(path), 0))
    ensures Clean(chroot, fs, Start(chroot, path))
  {
    hide Walk, Run, Step, Components, Clean, StaysAbove, MeetsNone, Agrees;
    RepRoot(chroot);
    MeetsNoneIsClean(chroot, fs, Start(chroot, path), []);
    ResolveAgrees(chroot, path, fs);
  }

  /** In a clean run the text of the chroot stays in front, so that the buffers show the run. */
  lemma CleanIsTraceable(chroot: string, path: string, fs: Fs)
    requires Clean(chroot, fs, Start(chroot, path))
    ensures StaysAbove(chroot, fs, Start(chroot, path)) && Traceable(chroot, fs, Start(chroot, path), true)
  {
    hide Step, Components, Clean, StaysAbove, Traceable, Rep;
    RepRoot(chroot);
    CleanStaysAbove(chroot, fs, Start(chroot, path), []);
    AboveIsTraceable(chroot, fs, Start(chroot, path));
  }

  /** A lost slash is always an error: the path asked about next, or the path after `..`, is not the resolver's. */
  lemma LostSlashIsWrong(chroot: string, st: St, stack: seq<string>)
    requires chroot != "" && Rep(chroot, st.got, stack) && st.rest != "" && st.rest[0] != '/' && !IsDot(st.rest) &&
      !GoodStep(chroot, st)
    ensures if IsDotDot(st.rest) then var m := DotDotStep(chroot, st); m.Go? ==> !Contained(chroot, m.st.got)
            else var name := st.rest[..NameLength(st.rest)]; !Rep(chroot, st.got + name, stack + [name])
  {
    FirstName(st.rest);
    var name := st.rest[..NameLength(st.rest)];
    if !IsDotDot(st.rest) && |st.got| == |chroot| {
      assert (st.got + name)[|chroot|] == name[0] && name[0] in name;
    } else if !IsDotDot(st.rest) {
      GluedComponents(st.got, name);
      RepComponents(chroot, st.got, stack);
      if Rep(chroot, st.got + name, stack + [name]) {
        RepComponents(chroot, st.got + name, stack + [name]);
      }
    }
  }

  /** For example: in every chroot, a link `a` to a name `b` resolves to the chroot's text with `b` glued to it. */
  lemma LastRelativeLinkEscapes(chroot: string, a: string, b: string, fs: Fs)
    requires chroot != "" && chroot != "/" && |chroot| + |a| < PATH_MAX - 3 && |chroot| + |b| <= PATH_MAX - 2
    requires IsName(a) && a != "." && a != ".." && IsName(b) && b != "." && b != ".."
    requires fs(0, Components(chroot + "/" + a)) == Link(b) && fs(1, Components(chroot + b)) == NotLink
    ensures Resolve(chroot, a, fs) == Resolved(chroot + b) && !Contained(chroot, chroot + b)
    ensures StaysAbove(chroot, fs, Start(chroot, a)) && Traceable(chroot, fs, Start(chroot, a), true)
  {
    hide Components, PopTo, NameLength;
    var st1, st2 := St(chroot, b, |b|, 1), St(chroot + b, "", |b|, 2);
    WholeName(b);
    LastLinkStep(chroot, a, b, fs);
    assert Step(chroot, fs, st1) == Go(st2);
    assert b[|b| - 1] in b && b[0] in b;
    assert Run(chroot, fs, st2) == Resolved(chroot + b);
    hide Step;
    assert Run(chroot, fs, st1) == Run(chroot, fs, st2);
    assert StaysAbove(chroot, fs, st2) && StaysAbove(chroot, fs, st1);
    AboveIsTraceable(chroot, fs, Start(chroot, a));
  }

  lemma WholeName(a: string)
    requires IsName(a)
    ensures NameLength(a) == |a| && a[..|a|] == a && a[|a|..] == "" && a[0] != '/'
    ensures IsDot(a) <==> a == "."
    ensures IsDotDot(a) <==> a == ".."
  {
    NameLengthFull(a);
    FirstName(a);
    assert a[0] in a;
  }

  /** A relative link as the last component: the path is the bare chroot, and the target is still to be resolved. */
  lemma LastLinkStep(chroot: string, a: string, target: string, fs: Fs)
    requires |chroot| + |a| < PATH_MAX - 3 && |target| < PATH_MAX - 2 && (target == "" || target[0] != '/')
    requires IsName(a) && a != "." && a != ".."
    requires fs(0, Components(chroot + "/" + a)) == Link(target)
    ensures Step(chroot, fs, Start(chroot, a)) == Go(St(chroot, target, |target|, 1))
  {
    hide Components, PopTo, NameLength;
    WholeName(a);
    PopName(chroot + "/", a);
    CutSlash(chroot + "/", a);
    assert (chroot + "/")[..|chroot|] == chroot && target + "" == target;
  }
}
