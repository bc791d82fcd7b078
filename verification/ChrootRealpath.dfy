/**
chroot_realpath on its buffers: two pointers move through fixed arrays of PATH_MAX
characters. Every access is shown to stay inside its buffer; where the source would
move a pointer in front of one, the model stops with OutOfBounds instead.
*/
module ChrootRealpath {
  import opened Common
  import opened Paths
  import opened ChrootSteps
  import opened ChrootResolver
  import opened ChrootBounds
  import opened ChrootBuffers

  /** The buffer holds a text of this length, ended by NUL. */
  ghost predicate Holds(buffer: array<char>, length: nat): (b: bool)
    reads buffer
    ensures b ==> length < buffer.Length == PATH_MAX
  {
    length < buffer.Length == PATH_MAX && buffer[length] == '\0' && forall i :: 0 <= i < length ==> buffer[i] != '\0'
  }

  /** strcpy at the start of a buffer. */
  method StrCpy(buffer: array<char>, s: string)
    requires |s| < buffer.Length == PATH_MAX && NulFree(s)
    modifies buffer
    ensures Holds(buffer, |s|) && buffer[..|s|] == s
  {
    forall i | 0 <= i < |s| {
      buffer[i] := s[i];
    }
    buffer[|s|] := '\0';
  }

  /** strcat: append the text at `from` of another buffer. */
  method StrCat(buffer: array<char>, length: nat, other: array<char>, from: nat, ghost end: nat)
    requires Holds(buffer, length) && Holds(other, end) && from <= end && length + (end - from) < PATH_MAX &&
      buffer != other
    modifies buffer
    ensures Holds(buffer, length + (end - from)) &&
      buffer[..length + (end - from)] == old(buffer[..length]) + other[from..end]
  {
    ghost var text := buffer[..length];
    var i := 0;
    while other[from + i] != '\0'
      invariant i <= end - from
      invariant buffer[..length + i] == text + other[from..from + i]
      invariant forall k :: 0 <= k < length + i ==> buffer[k] != '\0'
      decreases end - from - i
    {
      buffer[length + i] := other[from + i];
      assert buffer[..length + i + 1] == buffer[..length + i] + [other[from + i]];
      assert other[from..from + i + 1] == other[from..from + i] + [other[from + i]];
      i := i + 1;
    }
    buffer[length + i] := '\0';
    assert buffer[..length + i] == text + other[from..from + i];
  }

  method StrLen(buffer: array<char>, from: nat, ghost end: nat) returns (n: nat)
    requires Holds(buffer, end) && from <= end
    ensures n == end - from
  {
    n := 0;
    while buffer[from + n] != '\0'
      invariant n <= end - from
      decreases end - from - n
    {
      n := n + 1;
    }
  }

  /** Back to behind the slash that is nearest in front of `from`, or to the start of the buffer. */
  method FindSlash(buffer: array<char>, from: nat) returns (k: nat)
    requires from <= buffer.Length
    ensures k == PopTo(buffer[..from], from)
  {
    k := from;
    while k > 0 && buffer[k - 1] != '/'
      invariant k <= from && forall i :: k <= i < from ==> buffer[i] != '/'
    {
      k := k - 1;
    }
  }

  lemma PopToPrefix(s: string, k: nat)
    requires k <= |s|
    ensures PopTo(s[..k], k) == PopTo(s, k)
  {
    hide PopTo;
    var i, j := PopTo(s[..k], k), PopTo(s, k);
    assert forall x :: 0 <= x < k ==> s[..k][x] == s[x];
  }

  /** The values the buffers and the two positions stand for. */
  ghost function View(copyPath: array<char>, gotPath: array<char>, path: nat, newPath: nat, length: nat, calls: nat): St
    requires path <= length <= copyPath.Length && newPath <= gotPath.Length
    reads copyPath, gotPath
  {
    St(gotPath[..newPath], copyPath[path..length], length, calls)
  }

  /** With what the buffer holds in the place of the chroot. */
  ghost function BufView(root: nat, copyPath: array<char>, gotPath: array<char>, path: nat, newPath: nat,
                         length: nat, calls: nat): Buf
    requires path <= length <= copyPath.Length && newPath <= gotPath.Length && root <= gotPath.Length
    reads copyPath, gotPath
  {
    Buf(gotPath[..root], View(copyPath, gotPath, path, newPath, length, calls))
  }

  /** Copies the component at `path`, checking both limits before every character. */
  method CopyName(copyPath: array<char>, ghost length: nat, path: nat, maxPath: int, gotPath: array<char>, newPath: nat)
    returns (fits: bool, n: nat, last: bool)
    requires Holds(copyPath, length) && path < length && copyPath[path] != '/'
    requires gotPath.Length == PATH_MAX && newPath < PATH_MAX && copyPath != gotPath
    modifies gotPath
    ensures n <= NameLength(copyPath[path..length])
    ensures fits ==> n == NameLength(copyPath[path..length]) && last == (path + n == length)
    ensures fits <==>
      path + NameLength(copyPath[path..length]) - 1 <= maxPath &&
      newPath + NameLength(copyPath[path..length]) - 1 < PATH_MAX - 1
    ensures fits ==>
      && newPath + n < PATH_MAX && gotPath[..newPath + n] == old(gotPath[..newPath]) + copyPath[path..path + n]
      && gotPath[newPath + n..] == old(gotPath[newPath + n..])
  {
    ghost var before, got, rest := gotPath[..], gotPath[..newPath], copyPath[path..length];
    ghost var name := NameLength(rest);
    NameChar(copyPath, length, path, 0);
    hide NameLength, Copied, Holds;
    CopyBegins(before, got, rest);
    n := 0;
    while copyPath[path + n] != '\0' && copyPath[path + n] != '/'
      invariant n <= name && newPath + n < PATH_MAX
      invariant n > 0 ==> path + n - 1 <= maxPath && newPath + n - 1 < PATH_MAX - 1
      invariant Copied(gotPath[..], before, got, rest, n)
      decreases name - n
    {
      ghost var all := gotPath[..];
      NameChar(copyPath, length, path, n);
      CopyStep(all, before, got, rest, n);
      if path + n > maxPath || newPath + n >= PATH_MAX - 1 {
        return false, n, false;
      }
      gotPath[newPath + n] := copyPath[path + n];
      assert gotPath[..] == all[newPath + n := rest[n]];
      n := n + 1;
    }
    NameChar(copyPath, length, path, n);
    CopyStep(gotPath[..], before, got, rest, n);
    fits, last := true, copyPath[path + n] == '\0';
  }

  /** The character of a component at this distance, or what ends it. */
  lemma NameChar(buffer: array<char>, length: nat, path: nat, n: nat)
    requires Holds(buffer, length) && path < length && n <= NameLength(buffer[path..length])
    ensures path + n <= length < buffer.Length && buffer[path..path + n] == buffer[path..length][..n]
    ensures buffer[path + n] == '\0' || buffer[path + n] == '/' <==> n == NameLength(buffer[path..length])
    ensures buffer[path + n] == '\0' <==> path + n == length
    ensures path + n < length ==> buffer[path + n] == buffer[path..length][n]
  {
    hide NameLength;
  }

  /** The first `n` characters of the rest stand behind the path so far; behind them nothing has changed. */
  ghost predicate Copied(all: string, before: string, got: string, rest: string, n: nat) {
    && n <= |rest| && |got| + n <= |all| == |before| && all[..|got| + n] == got + rest[..n]
    && all[|got| + n..] == before[|got| + n..]
  }

  lemma CopyBegins(all: string, got: string, rest: string)
    requires |got| <= |all| && all[..|got|] == got
    ensures Copied(all, all, got, rest, 0)
  {
  }

  lemma CopyStep(all: string, before: string, got: string, rest: string, n: nat)
    requires Copied(all, before, got, rest, n)
    ensures n <= |rest| && |got| + n <= |all| == |before| && all[..|got| + n] == got + rest[..n]
    ensures all[|got| + n..] == before[|got| + n..]
    ensures n < |rest| && |got| + n < |all| ==> Copied(all[|got| + n := rest[n]], before, got, rest, n + 1)
  {
    if n < |rest| && |got| + n < |all| {
      var next := all[|got| + n := rest[n]];
      assert next[..|got| + n + 1] == all[..|got| + n] + [rest[n]];
      assert rest[..n + 1] == rest[..n] + [rest[n]];
      assert next[|got| + n + 1..] == all[|got| + n..][1..];
      assert before[|got| + n + 1..] == before[|got| + n..][1..];
    }
  }

  /** A link: back up or start over, and put the target in front of what is left of the path. */
  method FollowLink(root: nat, copyPath: array<char>, linkPath: array<char>, gotPath: array<char>,
                    path: nat, ghost length: nat, newPath: nat, target: string, ghost calls: nat)
    returns (stop: Option<Outcome>, newPath': nat, ghost length': nat)
    requires root < PATH_MAX - 1 && NulFree(target) && |target| < PATH_MAX
    requires Holds(copyPath, length) && path <= length && newPath < PATH_MAX
    requires linkPath.Length == gotPath.Length == PATH_MAX
    requires copyPath != linkPath && copyPath != gotPath && linkPath != gotPath
    modifies copyPath, linkPath, gotPath
    ensures newPath' < PATH_MAX && gotPath[..root] == old(gotPath[..root])
    ensures stop.None? ==> Holds(copyPath, length')
    ensures LinkStep(old(gotPath[..root]), old(gotPath[..newPath]), target, old(copyPath[path..length]), calls)
            == if stop.Some? then Stop(stop.value)
               else AddSlash(View(copyPath, gotPath, 0, newPath', length', calls), path == length)
  {
    ghost var base, q, rest := gotPath[..root], gotPath[..newPath], copyPath[path..length];
    hide PopTo, AddSlash;
    length', newPath' := length, newPath;
    StrCpy(linkPath, target);
    if linkPath[0] == '/' {
      newPath' := root;
      gotPath[newPath'] := '/';
      newPath' := newPath' + 1;
      assert gotPath[..newPath'] == base + "/";
    } else {
      var k := FindSlash(gotPath, newPath);
      if k == 0 {
        return Some(OutOfBounds), newPath', length';
      }
      newPath' := k - 1;
      assert gotPath[..newPath'] == q[..k - 1];
    }
    var left := StrLen(copyPath, path, length);
    if left + |target| >= PATH_MAX - 2 {
      return Some(TooLong), newPath', length';
    }
    StrCat(linkPath, |target|, copyPath, path, length);
    length' := |target| + left;
    StrCpy(copyPath, linkPath[..|target| + left]);
    assert copyPath[0..length'] == target + rest;
    stop := None;
  }

  /** Ask readlink about the path so far, and go on from what it says. */
  method AskLink(chroot: string, fs: Fs, copyPath: array<char>, linkPath: array<char>, gotPath: array<char>,
                 path: nat, ghost length: nat, newPath: nat, calls: nat)
    returns (stop: Option<Outcome>, path': nat, newPath': nat, calls': nat, ghost length': nat)
    requires |chroot| < PATH_MAX - 1 && Readable(fs)
    requires Holds(copyPath, length) && path <= length
    requires linkPath.Length == gotPath.Length == PATH_MAX && newPath < PATH_MAX
    requires copyPath != linkPath && copyPath != gotPath && linkPath != gotPath
    modifies copyPath, linkPath, gotPath
    ensures calls' == calls + 1
    ensures stop.None? ==> Holds(copyPath, length') && path' <= length' && newPath' < PATH_MAX
    ensures BufAsk(old(gotPath[..|chroot|]), fs, old(gotPath[..newPath]), old(copyPath[path..length]), length, calls)
            == if stop.Some? then End(stop.value)
               else Moved(gotPath[..|chroot|],
                          AddSlash(View(copyPath, gotPath, path', newPath', length', calls'), path == length))
  {
    ghost var base, q, rest := gotPath[..|chroot|], gotPath[..newPath], copyPath[path..length];
    hide Components, LinkStep, AddSlash, NulFree, Overlay;
    stop, path', newPath', length' := None, path, newPath, length;
    OverlayOne(gotPath[..], |chroot|, newPath, '\0');
    ghost var all := gotPath[..];
    gotPath[newPath] := '\0';
    assert gotPath[..] == all[newPath := '\0'];
    assert gotPath[..|chroot|] == Overlay(base, q + "\0");
    assert gotPath[..newPath] == q;
    var seen := UntilNul(gotPath[..newPath]);
    var reply := fs(calls, Components(seen));
    calls' := calls + 1;
    match reply {
      case Missing =>
        var left := StrLen(copyPath, path, length);
        var answer := seen + copyPath[path..path + left];
        stop := Some(if |answer| >= PATH_MAX then TooLong else Partial(answer));
      case Failed =>
        stop := Some(Unreadable);
      case NotLink =>
      case Link(target) =>
        TruncatedIsReadable(target);
        stop, newPath', length' :=
          FollowLink(|chroot|, copyPath, linkPath, gotPath, path, length, newPath, Truncated(target), calls');
        path' := 0;
    }
  }

  /** The slash behind a component that was not the last one. */
  method EndName(ghost root: nat, gotPath: array<char>, newPath: nat, last: bool, ghost st: St)
    returns (stop: Option<Outcome>, newPath': nat)
    requires newPath < gotPath.Length == PATH_MAX && st.got == gotPath[..newPath] && root <= PATH_MAX
    modifies gotPath
    ensures newPath' < PATH_MAX
    ensures Moved(old(gotPath[..root]), AddSlash(st, last))
            == if stop.Some? then End(stop.value) else More(Buf(gotPath[..root], st.(got := gotPath[..newPath'])))
  {
    stop, newPath' := None, newPath;
    ghost var all := gotPath[..];
    hide Overlay;
    SameBuffer(all, root, newPath);
    if !last {
      if newPath >= PATH_MAX - 1 {
        return Some(TooLong), newPath;
      }
      OverlayOne(all, root, newPath, '/');
      gotPath[newPath] := '/';
      newPath' := newPath + 1;
      assert gotPath[..newPath'] == st.got + "/";
      assert gotPath[..] == all[newPath := '/'];
      assert gotPath[..root] == gotPath[..][..root];
    }
  }

  /** A component that is neither `.` nor `..`: copy it, ask readlink, and add the slash behind it. */
  method NextName(chroot: string, fs: Fs, copyPath: array<char>, linkPath: array<char>, gotPath: array<char>,
                  path: nat, ghost length: nat, newPath: nat, calls: nat)
    returns (stop: Option<Outcome>, path': nat, newPath': nat, calls': nat, ghost length': nat)
    requires |chroot| < PATH_MAX - 1 && Readable(fs)
    requires Holds(copyPath, length) && path < length && AtName(copyPath[path..length])
    requires linkPath.Length == gotPath.Length == PATH_MAX && newPath < PATH_MAX
    requires copyPath != linkPath && copyPath != gotPath && linkPath != gotPath
    modifies copyPath, linkPath, gotPath
    ensures calls' == calls || calls' == calls + 1 <= MAX_READLINKS + 1
    ensures stop.None? ==> calls' == calls + 1 && Holds(copyPath, length') && path' <= length' && newPath' < PATH_MAX
    ensures BufName(chroot, fs, old(BufView(|chroot|, copyPath, gotPath, path, newPath, length, calls)))
            == if stop.Some? then End(stop.value)
               else More(BufView(|chroot|, copyPath, gotPath, path', newPath', length', calls'))
  {
    hide NameLength, BufAsk, AddSlash, NulFree, Readable, Holds, Components, Overlay, Moved;
    ghost var before, got, rest := gotPath[..], gotPath[..newPath], copyPath[path..length];
    path', newPath', calls', length' := path, newPath, calls, length;
    var fits, n, last := CopyName(copyPath, length, path, PATH_MAX - |chroot| - 3, gotPath, newPath);
    if !fits {
      return Some(TooLong), path', newPath', calls', length';
    }
    if calls > MAX_READLINKS {
      return Some(TooManyLinks), path', newPath', calls', length';
    }
    assert copyPath[path..path + n] == rest[..n] && copyPath[path + n..length] == rest[n..];
    AskHides(gotPath[..], before, |chroot|, fs, got + rest[..n], rest[n..], length, calls);
    stop, path', newPath', calls', length' :=
      AskLink(chroot, fs, copyPath, linkPath, gotPath, path + n, length, newPath + n, calls);
    if stop.None? {
      ghost var st' := View(copyPath, gotPath, path', newPath', length', calls');
      stop, newPath' := EndName(|chroot|, gotPath, newPath', last, st');
    }
  }

  /** What the buffer held where the name was copied to does not matter. */
  lemma AskHides(all: string, before: string, root: nat, fs: Fs, q: string, rest: string, length: nat, calls: nat)
    requires root <= |all| == |before| && |q| < |all| && all[..|q|] == q && all[|q|..] == before[|q|..]
    ensures BufAsk(all[..root], fs, q, rest, length, calls) == BufAsk(before[..root], fs, q, rest, length, calls)
  {
    assert all[|q| + 1..] == all[|q|..][1..] && before[|q| + 1..] == before[|q|..][1..];
    OverlayHides(all, before, root, q + "\0");
    hide Overlay, Components, LinkStep, AddSlash, Moved;
  }

  /** `..`: nothing at the root, otherwise back over the last component. */
  method BackUp(chroot: string, gotPath: array<char>, newPath: nat, ghost st: St)
    returns (stop: Option<Outcome>, newPath': nat)
    requires newPath < gotPath.Length && st.got == gotPath[..newPath] && IsDotDot(st.rest)
    ensures newPath' <= newPath
    ensures DotDotStep(chroot, st) == if stop.Some? then Stop(stop.value)
      else Go(st.(got := gotPath[..newPath'], rest := st.rest[2..]))
  {
    stop, newPath' := None, newPath;
    if newPath != |chroot| + 1 {
      if newPath == 0 {
        return Some(OutOfBounds), newPath;
      }
      newPath' := FindSlash(gotPath, newPath - 1);
      assert gotPath[..newPath - 1] == st.got[..newPath - 1];
      PopToPrefix(st.got, newPath - 1);
      assert gotPath[..newPath'] == st.got[..newPath'];
      if newPath' == 0 {
        stop := Some(OutOfBounds);
      }
    }
  }

  /** One component, or one stray character, of the path. */
  method Advance(chroot: string, fs: Fs, copyPath: array<char>, linkPath: array<char>, gotPath: array<char>,
                 path: nat, ghost length: nat, newPath: nat, calls: nat)
    returns (stop: Option<Outcome>, path': nat, newPath': nat, calls': nat, ghost length': nat)
    requires |chroot| < PATH_MAX - 1 && Readable(fs)
    requires Holds(copyPath, length) && path < length
    requires linkPath.Length == gotPath.Length == PATH_MAX && newPath < PATH_MAX
    requires copyPath != linkPath && copyPath != gotPath && linkPath != gotPath
    modifies copyPath, linkPath, gotPath
    ensures calls' == calls || calls' == calls + 1 <= MAX_READLINKS + 1
    ensures stop.None? ==> Holds(copyPath, length') && path' <= length' && newPath' < PATH_MAX
    ensures stop.None? ==> calls' == calls + 1 || length' - path' < length - path
    ensures BufStep(chroot, fs, old(BufView(|chroot|, copyPath, gotPath, path, newPath, length, calls)))
            == if stop.Some? then End(stop.value)
               else More(BufView(|chroot|, copyPath, gotPath, path', newPath', length', calls'))
  {
    ghost var st := View(copyPath, gotPath, path, newPath, length, calls);
    hide BufName, DotDotStep, Overlay, Components;
    stop, path', newPath', calls', length' := None, path, newPath, calls, length;
    if copyPath[path] == '/' {
      path' := path + 1;
    } else if copyPath[path] == '.' && (copyPath[path + 1] == '\0' || copyPath[path + 1] == '/') {
      path' := path + 1;
    } else if copyPath[path] == '.' && copyPath[path + 1] == '.' &&
      (copyPath[path + 2] == '\0' || copyPath[path + 2] == '/') {
      path' := path + 2;
      stop, newPath' := BackUp(chroot, gotPath, newPath, st);
      SameBuffer(gotPath[..], |chroot|, newPath');
    } else {
      stop, path', newPath', calls', length' :=
        NextName(chroot, fs, copyPath, linkPath, gotPath, path, length, newPath, calls);
    }
  }

  /** Drops one trailing slash, unless it is the whole path. */
  method Trim(gotPath: array<char>, newPath: nat) returns (out: Outcome)
    requires newPath < gotPath.Length
    modifies gotPath
    ensures out == BufFinish(old(gotPath[..newPath]))
  {
    ghost var got := gotPath[..newPath];
    if newPath == 0 {
      return OutOfBounds;
    }
    var end := if newPath != 1 && gotPath[newPath - 1] == '/' then newPath - 1 else newPath;
    gotPath[end] := '\0';
    assert gotPath[..end] == got[..end];
    out := Resolved(UntilNul(gotPath[..end]));
  }

  lemma HoldsAt(buffer: array<char>, p: nat, length: nat)
    requires Holds(buffer, length) && p <= length
    ensures buffer[p] == '\0' <==> p == length
  {
  }

  /**
  The whole function, on all inputs; readlink is called at most 33 times whatever the file system holds. The loop that
  would strip slashes from the end of the chroot looks at the NUL behind it and never runs.
  */
  method Realpath(chroot: string, path: string, fs: Fs) returns (out: Outcome, calls: nat)
    requires NulFree(chroot) && NulFree(path) && Readable(fs)
    ensures calls <= 33
    ensures out == BufResolve(chroot, path, fs)
    ensures chroot in {"", "/"} ==> out == if |path| >= 4096 then TooLong else Resolved(path)
    ensures chroot !in {"", "/"} && |chroot| + |path| >= 4093 ==> out == TooLong
    ensures chroot in {"", "/"} || Traceable(chroot, fs, Start(chroot, path), true) ==> out == Resolve(chroot, path, fs)
    ensures chroot !in {"", "/"} && Clean(chroot, fs, Start(chroot, path)) ==>
      Agrees(chroot, out, Walk(Components(chroot), fs, [], Components(path), 0))
    ensures chroot !in {"", "/"} && chroot[0] == '/' && StaysInside(chroot, fs, Start(chroot, path)) ==>
      out != OutOfBounds
  {
    hide Step, BufStep, Run, BufRun, BufFinish, StaysInside, Readable, Clean, Agrees, Walk, Components, Traceable;
    SafeRuns(chroot, path, fs);
    calls := 0;
    if chroot == "" || chroot == "/" {
      return if |path| >= PATH_MAX then TooLong else Resolved(path), calls;
    }
    if |chroot| + |path| >= PATH_MAX - 3 {
      return TooLong, calls;
    }
    var copyPath, linkPath, gotPath := new char[PATH_MAX], new char[PATH_MAX], new char[PATH_MAX];
    StrCpy(copyPath, path);
    StrCpy(gotPath, chroot);
    gotPath[|chroot|] := '/';
    var p: nat, newPath: nat := 0, |chroot| + 1;
    ghost var length: nat, start := |path|, Buf(chroot, Start(chroot, path));
    assert BufView(|chroot|, copyPath, gotPath, p, newPath, length, calls) == start;
    hide Start, Holds;
    while copyPath[p] != '\0'
      invariant fresh(copyPath) && fresh(linkPath) && fresh(gotPath)
      invariant Holds(copyPath, length) && p <= length && newPath < PATH_MAX && calls <= MAX_READLINKS + 1
      invariant BufRun(chroot, fs, start)
                == BufRun(chroot, fs, BufView(|chroot|, copyPath, gotPath, p, newPath, length, calls))
      decreases MAX_READLINKS + 1 - calls, length - p
    {
      HoldsAt(copyPath, p, length);
      RunStep(chroot, fs, BufView(|chroot|, copyPath, gotPath, p, newPath, length, calls));
      var stop;
      stop, p, newPath, calls, length := Advance(chroot, fs, copyPath, linkPath, gotPath, p, length, newPath, calls);
      if stop.Some? {
        return stop.value, calls;
      }
    }
    HoldsAt(copyPath, p, length);
    RunStep(chroot, fs, BufView(|chroot|, copyPath, gotPath, p, newPath, length, calls));
    out := Trim(gotPath, newPath);
  }

  lemma RunStep(chroot: string, fs: Fs, b: Buf)
    ensures b.st.rest == "" ==> BufRun(chroot, fs, b) == BufFinish(b.st.got)
    ensures b.st.rest != "" ==>
      var m := BufStep(chroot, fs, b);
      BufRun(chroot, fs, b) == if m.More? then BufRun(chroot, fs, m.buf) else m.out
  {
    hide BufStep, BufFinish;
  }

  /** What is known of the answer. */
  lemma SafeRuns(chroot: string, path: string, fs: Fs)
    requires NulFree(chroot) && NulFree(path) && Readable(fs)
    ensures chroot in {"", "/"} || Traceable(chroot, fs, Start(chroot, path), true) ==>
      BufResolve(chroot, path, fs) == Resolve(chroot, path, fs)
    ensures chroot !in {"", "/"} && Clean(chroot, fs, Start(chroot, path)) ==>
      Agrees(chroot, BufResolve(chroot, path, fs), Walk(Components(chroot), fs, [], Components(path), 0))
    ensures chroot !in {"", "/"} && chroot[0] == '/' && StaysInside(chroot, fs, Start(chroot, path)) ==>
      BufResolve(chroot, path, fs) != OutOfBounds
  {
    hide Step, Run, BufRun, BufResolve, Clean, StaysInside, Traceable, Agrees, Walk, Components, NulFree, Readable;
    if chroot !in {"", "/"} && Clean(chroot, fs, Start(chroot, path)) {
      ResolveAgrees(chroot, path, fs);
      CleanIsTraceable(chroot, path, fs);
    }
    if chroot !in {"", "/"} && chroot[0] == '/' && StaysInside(chroot, fs, Start(chroot, path)) {
      InsideIsTraceable(chroot, fs, Start(chroot, path));
    }
    if chroot in {"", "/"} || Traceable(chroot, fs, Start(chroot, path), true) {
      ResolveShows(chroot, path, fs);
    }
  }
}
