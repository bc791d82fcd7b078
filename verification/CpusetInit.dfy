/** The cpuset recursion in the source's form: shared buffers, and a path that is cut and mended in place. */
module CpusetInit {
  import opened Common
  import opened Cpuset

  class Hierarchy {
    var world: World

    constructor (w: World)
      ensures world == w
    {
      world := w;
    }
  }

  ghost function Text(buffer: array<char>): string
    reads buffer
  {
    UntilNul(buffer[..])
  }

  /** read into the buffer; a lone newline counts as nothing. */
  method ReadFile(buffer: array<char>, text: string)
    requires buffer.Length == BUFFER + 1
    modifies buffer
    ensures Text(buffer) == Value(text)
  {
    var n := if |text| <= BUFFER then |text| else BUFFER;
    forall i | 0 <= i < n {
      buffer[i] := text[i];
    }
    buffer[n] := '\0';
    ghost var read := buffer[..];
    UntilNulIs(read, UntilNul(text[..n]));
    assert text[..|text|] == text;
    if buffer[0] == '\n' {
      buffer[0] := '\0';
    }
  }

  lemma {:induction false} UntilNulIs(s: string, t: string)
    requires |t| < |s| && t == s[..|t|] && s[|t|] == '\0' && NulFree(t)
    ensures UntilNul(s) == t
  {
    if t != "" {
      UntilNulIs(s[1..], t[1..]);
    }
  }

  method BufferText(buffer: array<char>) returns (s: string)
    ensures s == Text(buffer)
  {
    var n := 0;
    while n < buffer.Length && buffer[n] != '\0'
      invariant n <= buffer.Length && forall i :: 0 <= i < n ==> buffer[i] != '\0'
    {
      n := n + 1;
    }
    s := buffer[..n];
    if n < buffer.Length {
      UntilNulIs(buffer[..], s);
    } else {
      UntilNulIsClean(s);
      assert buffer[..] == s;
    }
  }

  /** Opens and reads one of the two files, unless there is a value already. */
  method LoadFile(files: Files, path: string, buffer: array<char>) returns (ok: bool, fd: bool, own: bool)
    requires buffer.Length == BUFFER + 1
    modifies buffer
    ensures ok == Load(files, path, old(Text(buffer))).Some?
    ensures Text(buffer) == if ok then Load(files, path, old(Text(buffer))).value else old(Text(buffer))
    ensures ok ==> fd == (old(Text(buffer)) == "") && own == (fd && Text(buffer) != "")
  {
    hide Value;
    ok, fd, own := true, false, false;
    if buffer[0] == '\0' {
      if path !in files {
        return false, false, false;
      }
      fd := true;
      ReadFile(buffer, files[path]);
      own := buffer[0] != '\0';
    }
  }

  /** Writes the values chosen to the files that were opened. */
  method WriteBack(h: Hierarchy, path: string, request: Request, open: (bool, bool), own: (bool, bool),
    cpus: string, mems: string, ghost up: Result)
    returns (ok: bool)
    requires path != "" && up == Result(h.world, cpus, mems, up.ok)
    modifies h
    ensures Result(h.world, cpus, mems, ok) == Finish(path, request, open, own, up)
  {
    hide Accepts;
    if open.0 {
      var v := if request.cpus.Some? && !own.0 then request.cpus.value else cpus;
      var stored := Store(h.world.cpus, h.world.locked, path, v);
      if stored.None? {
        return false;
      }
      h.world := h.world.(cpus := stored.value);
    }
    if open.1 {
      var v := if request.mems.Some? && !own.1 then request.mems.value else mems;
      var stored := Store(h.world.mems, h.world.locked, path, v);
      if stored.None? {
        return false;
      }
      h.world := h.world.(mems := stored.value);
    }
    ok := true;
  }

  method FindCut(path: array<char>, pathLen: nat) returns (p: nat)
    requires 0 < pathLen <= path.Length
    ensures p == ParentLength(path[..pathLen])
  {
    p := pathLen - 1;
    while p > 1 && path[p] != '/'
      invariant 0 <= p < pathLen && CutAt(path[..pathLen], p) == ParentLength(path[..pathLen])
    {
      p := p - 1;
    }
  }

  /** The parent's turn, with the path cut in front of its last component. */
  method Climb(h: Hierarchy, path: array<char>, pathLen: nat, cpus: array<char>, mems: array<char>, request: Request)
    returns (top: bool, ghost up: Result)
    requires 0 < pathLen < path.Length && cpus.Length == mems.Length == BUFFER + 1
    requires path != cpus && path != mems && cpus != mems && "" !in h.world.dirs
    modifies h, path, cpus, mems
    ensures top == (ParentLength(old(path[..pathLen])) == 1)
    ensures up == Result(h.world, Text(cpus), Text(mems), up.ok)
    ensures !top ==> up == Init(old(h.world), Parent(old(path[..pathLen])), old(Text(cpus)), old(Text(mems)), request)
    ensures top ==> h.world == old(h.world) && Text(cpus) == old(Text(cpus)) && Text(mems) == old(Text(mems))
    ensures path[..] == old(path[..]) <==> !(pathLen == 1 && old(path[0]) != '/')
    decreases pathLen, 0
  {
    hide Init, Climbs;
    ghost var before := path[..];
    var p := FindCut(path, pathLen);
    if p == 1 {
      return true, Result(h.world, Text(cpus), Text(mems), true);
    }
    path[p] := '\0';
    assert path[..p] == before[..pathLen][..p];
    var above := InitRec(h, path, p, cpus, mems, request);
    top, up := false, Result(h.world, Text(cpus), Text(mems), above);
    path[p] := '/';
    assert path[..] == before[p := '/'];
  }

  /**
  One level of the recursion. The path is as before, except that a climb from a relative path of one character leaves a
  slash.
  */
  method InitRec(h: Hierarchy, path: array<char>, pathLen: nat, cpus: array<char>, mems: array<char>, request: Request)
    returns (ok: bool)
    requires pathLen < path.Length && cpus.Length == mems.Length == BUFFER + 1
    requires path != cpus && path != mems && cpus != mems && "" !in h.world.dirs
    modifies h, path, cpus, mems
    ensures Result(h.world, Text(cpus), Text(mems), ok)
            == Init(old(h.world), old(path[..pathLen]), old(Text(cpus)), old(Text(mems)), request)
    ensures path[..] == old(path[..]) <==>
            !(pathLen == 1 && old(path[0]) != '/' &&
              Climbs(old(h.world), old(path[..1]), old(Text(cpus)), old(Text(mems))))
    decreases pathLen, 1
  {
    hide Value, CutAt, Load, Finish, Init;
    var here := path[..pathLen];
    if here !in h.world.dirs {
      NotThere(h.world, here, Text(cpus), Text(mems), request);
      return false;
    }
    InitCases(h.world, here, Text(cpus), Text(mems), request);
    var loaded, cpusOpen, cpusOwn := LoadFile(h.world.cpus, here, cpus);
    if !loaded {
      return false;
    }
    var memsLoaded, memsOpen, memsOwn := LoadFile(h.world.mems, here, mems);
    if !memsLoaded {
      return false;
    }
    ghost var up := Result(h.world, Text(cpus), Text(mems), true);
    if cpus[0] == '\0' || mems[0] == '\0' {
      var top;
      top, up := Climb(h, path, pathLen, cpus, mems, request);
      if top {
        return true;
      }
    }
    var c := BufferText(cpus);
    var m := BufferText(mems);
    ok := WriteBack(h, here, request, (cpusOpen, memsOpen), (cpusOwn, memsOwn), c, m, up);
  }

  /** initialize_cpuset_subsystem and its variant with resources: from empty buffers. */
  method Initialize(h: Hierarchy, path: string, request: Request) returns (ok: bool)
    requires "" !in h.world.dirs
    modifies h
    ensures var r := Init(old(h.world), path, "", "", request); h.world == r.world && ok == r.ok
    ensures var w := old(h.world);
            Found(w, w.cpus, path) && Found(w, w.mems, path) && Sensible(request.cpus) && Sensible(request.mems) ==>
            ok && h.world == w.(cpus := Filled(w, w.cpus, path, request.cpus),
              mems := Filled(w, w.mems, path, request.mems))
  {
    hide Init, Climbs, Found, Filled, Sensible;
    BothFound(h.world, path, request);
    var copy, cpus, mems := new char[|path| + 1], new char[BUFFER + 1], new char[BUFFER + 1];
    forall i | 0 <= i < |path| {
      copy[i] := path[i];
    }
    assert copy[..|path|] == path;
    cpus[0], mems[0] := '\0', '\0';
    assert Text(cpus) == Text(mems) == "";
    ok := InitRec(h, copy, |path|, cpus, mems, request);
  }

  lemma BothFound(w: World, path: string, request: Request)
    ensures Found(w, w.cpus, path) && Found(w, w.mems, path) && Sensible(request.cpus) && Sensible(request.mems) ==>
            var r := Init(w, path, "", "", request);
            r.ok && r.world == w.(cpus := Filled(w, w.cpus, path, request.cpus),
                                  mems := Filled(w, w.mems, path, request.mems))
  {
    if Found(w, w.cpus, path) && Found(w, w.mems, path) && Sensible(request.cpus) && Sensible(request.mems) {
      hide Init, Filled, Sensible, Value;
      InitFills(w, path, "", "", request);
    }
  }
}
