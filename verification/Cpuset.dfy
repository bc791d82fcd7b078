/**
Filling in empty cpusets. A newly created cpuset directory holds no cpus and no mems; the recursion climbs
until it has found a value for both and writes on the way back. Both buffers are shared by all levels, and
the path is cut and mended in place.
*/
module Cpuset {
  import opened Common

  const BUFFER := 256

  /** One of the two files of every directory, under either of its two names. */
  type Files = map<string, string>

  /** Everything outside the process: the directories, both files, and the directories whose files refuse a write. */
  datatype World = World(dirs: set<string>, cpus: Files, mems: Files, locked: set<string>)

  datatype Request = Request(cpus: Option<string>, mems: Option<string>)

  datatype Result = Result(world: World, cpus: string, mems: string, ok: bool)

  /** What a level says: at most 256 bytes, and a lone newline is nothing. */
  function Value(text: string): (v: string)
    ensures |v| <= BUFFER
    ensures v != "" ==> v[0] != '\n' && v[0] != '\0'
  {
    var v := UntilNul(if |text| <= BUFFER then text else text[..BUFFER]);
    if v != "" && v[0] == '\n' then "" else v
  }

  /** Where the path is cut to get its parent: at the last slash, but not in front of index 1. */
  function CutAt(path: string, p: int): (k: int)
    requires p < |path|
    ensures k <= p && (p >= 1 ==> k >= 1)
    ensures k > 1 ==> path[k] == '/'
  {
    if p > 1 && path[p] != '/' then CutAt(path, p - 1) else p
  }

  function ParentLength(path: string): int { CutAt(path, |path| - 1) }

  lemma {:induction false} CutAtSlash(path: string, slash: nat, p: nat)
    requires slash <= p < |path| && path[slash] == '/' && forall i :: slash < i <= p ==> path[i] != '/'
    ensures slash >= 1 ==> CutAt(path, p) == slash
    ensures slash == 0 && p >= 1 ==> CutAt(path, p) == 1
  {
    if p > slash && p > 1 {
      CutAtSlash(path, slash, p - 1);
    }
  }

  /** The parent is what is in front of the last slash; a cpuset with nothing in front of it has none. */
  lemma ParentIs(parent: string, name: string)
    requires name != "" && '/' !in name
    ensures |parent| >= 2 ==> ParentLength(parent + "/" + name) == |parent| && Parent(parent + "/" + name) == parent
    ensures |parent| <= 1 ==> ParentLength(parent + "/" + name) == 1
  {
    var path := parent + "/" + name;
    assert path[|parent|] == '/' && forall i :: |parent| < i < |path| ==> path[i] == name[i - |parent| - 1];
    CutAtSlash(path, |parent|, |path| - 1);
    assert path[..|parent|] == parent;
  }

  function Parent(path: string): (parent: string)
    requires path != "" && ParentLength(path) != 1
    ensures |parent| < |path|
  {
    path[..ParentLength(path)]
  }

  /** A cpuset may be given a value only below a parent that has one. */
  predicate Accepts(files: Files, path: string)
    requires path != ""
  {
    ParentLength(path) <= 1 || Parent(path) !in files || Value(files[Parent(path)]) != ""
  }

  /** Writing nothing changes nothing. */
  function Store(files: Files, locked: set<string>, path: string, v: string): Option<Files>
    requires path != ""
  {
    if path in locked then None
    else if v == "" then Some(files)
    else if !Accepts(files, path) then None
    else Some(files[path := v])
  }

  /** A level is read only when there is no value yet. */
  function Load(files: Files, path: string, buffer: string): Option<string> {
    if buffer != "" then Some(buffer)
    else if path !in files then None
    else Some(Value(files[path]))
  }

  /** The requested value, unless this level has one of its own. */
  function Chosen(own: bool, request: Option<string>, inherited: string): string {
    if request.Some? && !own then request.value else inherited
  }

  /** The way back: what is written to a level that was opened. */
  function Finish(path: string, request: Request, open: (bool, bool), own: (bool, bool), up: Result): Result
    requires path != ""
  {
    var w := up.world;
    var c := if open.0 then Store(w.cpus, w.locked, path, Chosen(own.0, request.cpus, up.cpus)) else Some(w.cpus);
    if c.None? then up.(ok := false)
    else
      var m := if open.1 then Store(w.mems, w.locked, path, Chosen(own.1, request.mems, up.mems)) else Some(w.mems);
      if m.None? then up.(world := w.(cpus := c.value), ok := false)
      else up.(world := w.(cpus := c.value, mems := m.value), ok := true)
  }

  /** The recursion on values; an error further up is ignored. */
  function Init(w: World, path: string, cpus: string, mems: string, request: Request): Result
    decreases |path|
  {
    if path == "" || path !in w.dirs then Result(w, cpus, mems, false)
    else
      var c := Load(w.cpus, path, cpus);
      if c.None? then Result(w, cpus, mems, false)
      else
        var m := Load(w.mems, path, mems);
        if m.None? then Result(w, c.value, mems, false)
        else
          var open, own := (cpus == "", mems == ""), (cpus == "" && c.value != "", mems == "" && m.value != "");
          if c.value != "" && m.value != "" then Finish(path, request, open, own, Result(w, c.value, m.value, true))
          else if ParentLength(path) == 1 then Result(w, c.value, m.value, true)
          else Finish(path, request, open, own, Init(w, Parent(path), c.value, m.value, request))
  }

  /** Where the recursion climbs: the directory opens, both files can be read, and one of them says nothing. */
  predicate Climbs(w: World, path: string, cpus: string, mems: string) {
    path in w.dirs && Load(w.cpus, path, cpus).Some? && Load(w.mems, path, mems).Some? &&
    (Load(w.cpus, path, cpus).value == "" || Load(w.mems, path, mems).value == "") && ParentLength(path) != 1
  }

  /** The cases of one level. */
  lemma InitCases(w: World, path: string, cpus: string, mems: string, request: Request)
    requires path != ""
    ensures var c, m := Load(w.cpus, path, cpus), Load(w.mems, path, mems);
            var r := Init(w, path, cpus, mems, request);
            if path !in w.dirs || c.None? then r == Result(w, cpus, mems, false)
            else if m.None? then r == Result(w, c.value, mems, false)
            else
              var open, own := (cpus == "", mems == ""), (cpus == "" && c.value != "", mems == "" && m.value != "");
              if c.value != "" && m.value != "" then
                r == Finish(path, request, open, own, Result(w, c.value, m.value, true))
              else if ParentLength(path) == 1 then r == Result(w, c.value, m.value, true)
              else r == Finish(path, request, open, own, Init(w, Parent(path), c.value, m.value, request))
  {
    hide Load, Finish, CutAt;
  }

  lemma NotThere(w: World, path: string, cpus: string, mems: string, request: Request)
    requires path == "" || path !in w.dirs
    ensures Init(w, path, cpus, mems, request) == Result(w, cpus, mems, false)
  {
  }

  /** There is a value for each file, here or from below. */
  predicate HasBoth(w: World, path: string, cpus: string, mems: string) {
    && (cpus != "" || (path in w.cpus && Value(w.cpus[path]) != ""))
    && (mems != "" || (path in w.mems && Value(w.mems[path]) != ""))
  }

  /** A level that can not be opened or read is an error; one with nothing above it and nothing to inherit is left. */
  lemma NothingToDo(w: World, path: string, cpus: string, mems: string, request: Request)
    ensures var r := Init(w, path, cpus, mems, request);
            var readable := path in w.dirs && (cpus == "" ==> path in w.cpus) && (mems == "" ==> path in w.mems);
            && (!readable ==> !r.ok && r.world == w)
            && (readable && path != "" && ParentLength(path) == 1 && !HasBoth(w, path, cpus, mems) ==>
                  r.ok && r.world == w)
  {
    hide Value, CutAt;
  }

  // ---- One file at a time ----

  /** Climbing from this directory reaches a value for this file, and the kernel lets the climb come back. */
  predicate Found(w: World, files: Files, path: string)
    decreases |path|
  {
    path != "" && path in w.dirs && path in files && path !in w.locked &&
    if Value(files[path]) != "" then Accepts(files, path)
    else ParentLength(path) != 1 && Found(w, files, Parent(path))
  }

  /** The nearest level with a value. */
  function Nearest(w: World, files: Files, path: string): (a: string)
    requires Found(w, files, path)
    ensures a in files && Value(files[a]) != ""
    decreases |path|
  {
    if Value(files[path]) != "" then path else Nearest(w, files, Parent(path))
  }

  /** The levels from the path up to the nearest one with a value. */
  function Climbed(w: World, files: Files, path: string): (levels: set<string>)
    requires Found(w, files, path)
    ensures path in levels && Nearest(w, files, path) in levels
    ensures forall q :: q in levels ==> q in files && |q| <= |path|
    ensures forall q :: q in levels && q != Nearest(w, files, path) ==> Value(files[q]) == ""
    decreases |path|
  {
    if Value(files[path]) != "" then {path} else {path} + Climbed(w, files, Parent(path))
  }

  /** What each file should hold in the end: the nearest value, or the requested one, everywhere below it. */
  function Filled(w: World, files: Files, path: string, request: Option<string>): Files
    requires Found(w, files, path)
  {
    var a := Nearest(w, files, path);
    var levels := Climbed(w, files, path);
    map q | q in files ::
      if q == a then Value(files[a])
      else if q !in levels || request == Some("") then files[q]
      else if request.Some? then request.value
      else Value(files[a])
  }

  /** What is left in the shared buffer. */
  function Inherited(w: World, files: Files, path: string, buffer: string): string
    requires buffer == "" ==> Found(w, files, path)
  {
    if buffer != "" then buffer else Value(files[Nearest(w, files, path)])
  }

  /** A requested value that is either no value or one the kernel would keep. */
  predicate Sensible(request: Option<string>) {
    request.Some? ==> request.value == "" || Value(request.value) != ""
  }

  /** A value that was read reads the same again; and a text reads as itself exactly when it fits. */
  lemma ValueOfValue(text: string)
    ensures Value(Value(text)) == Value(text)
    ensures Value(text) != "" && NulFree(text) ==> (Value(text) == text <==> |text| <= BUFFER)
  {
    UntilNulIsClean(Value(text));
    if |text| <= BUFFER && NulFree(text) {
      UntilNulIsClean(text);
    }
  }

  /** A level with a value of its own is written back with it. */
  lemma OwnIsKept(w: World, files: Files, path: string, request: Option<string>)
    requires Found(w, files, path) && Value(files[path]) != ""
    ensures Store(files, w.locked, path, Value(files[path])) == Some(Filled(w, files, path, request))
  {
    var filled := Filled(w, files, path, request);
    assert files[path := Value(files[path])] == filled;
  }

  /** An empty level is written after its parent, which has a value by then. */
  lemma EmptyIsFilled(w: World, files: Files, path: string, request: Option<string>)
    requires Found(w, files, path) && Value(files[path]) == "" && Sensible(request)
    ensures Store(Filled(w, files, Parent(path), request), w.locked, path,
      Chosen(false, request, Inherited(w, files, path, "")))
            == Some(Filled(w, files, path, request))
  {
    hide Value, CutAt, Filled, Accepts, Sensible, Store;
    var v := Chosen(false, request, Value(files[Nearest(w, files, path)]));
    FilledAbove(w, files, path, request);
    ParentHasValue(w, files, path, request);
    StoreOne(files, Filled(w, files, Parent(path), request), Filled(w, files, path, request), w.locked, path, v);
  }

  lemma StoreOne(files: Files, above: Files, filled: Files, locked: set<string>, path: string, v: string)
    requires path != "" && path !in locked && path in files && above.Keys == filled.Keys == files.Keys
    requires (forall q :: q in files && q != path ==> above[q] == filled[q]) && above[path] == files[path]
    requires filled[path] == (if v == "" then files[path] else v) && (v != "" ==> Accepts(above, path))
    ensures Store(above, locked, path, v) == Some(filled)
  {
    hide Accepts;
    assert v == "" ==> above == filled;
    assert v != "" ==> above[path := v] == filled;
  }

  /** Filling one more empty level changes that level alone. */
  lemma FilledAbove(w: World, files: Files, path: string, request: Option<string>)
    requires Found(w, files, path) && Value(files[path]) == ""
    ensures var above, filled := Filled(w, files, Parent(path), request), Filled(w, files, path, request);
            && above.Keys == filled.Keys == files.Keys
            && (forall q :: q in files && q != path ==> above[q] == filled[q])
            && above[path] == files[path]
            && filled[path] == if request == Some("") then files[path]
                               else Chosen(false, request, Value(files[Nearest(w, files, path)]))
  {
    hide Value, CutAt;
    assert path !in Climbed(w, files, Parent(path)) && Nearest(w, files, path) == Nearest(w, files, Parent(path));
  }

  lemma ParentHasValue(w: World, files: Files, path: string, request: Option<string>)
    requires Found(w, files, path) && Value(files[path]) == "" && Sensible(request)
    ensures Chosen(false, request, Value(files[Nearest(w, files, path)])) != "" ==>
      Accepts(Filled(w, files, Parent(path), request), path)
  {
    hide Value, CutAt;
    ValueOfValue(files[Nearest(w, files, path)]);
  }

  /**
  The main result. When both climbs find a value, every level that was empty below the nearest value holds that
  value, or the requested one; the nearest level keeps its own; no write is refused; nothing else changes.
  */
  lemma {:induction false} InitFills(w: World, path: string, cpus: string, mems: string, request: Request)
    requires path != "" && path in w.dirs && Sensible(request.cpus) && Sensible(request.mems)
    requires cpus == "" ==> Found(w, w.cpus, path)
    requires mems == "" ==> Found(w, w.mems, path)
    ensures var cpus' := if cpus == "" then Filled(w, w.cpus, path, request.cpus) else w.cpus;
            var mems' := if mems == "" then Filled(w, w.mems, path, request.mems) else w.mems;
            Init(w, path, cpus, mems, request)
            == Result(w.(cpus := cpus', mems := mems'), Inherited(w, w.cpus, path, cpus),
              Inherited(w, w.mems, path, mems), true)
    decreases |path|
  {
    hide Value, CutAt, Filled, Climbed, Store, Accepts, Sensible;
    var c, m := Load(w.cpus, path, cpus).value, Load(w.mems, path, mems).value;
    if c == "" || m == "" {
      InitFills(w, Parent(path), c, m, request);
    }
    FileFills(w, w.cpus, path, cpus, request.cpus);
    FileFills(w, w.mems, path, mems, request.mems);
  }

  /** One file of one level, once everything above it is done. */
  lemma FileFills(w: World, files: Files, path: string, buffer: string, request: Option<string>)
    requires path != "" && Sensible(request)
    requires buffer == "" ==> Found(w, files, path)
    ensures buffer == "" ==>
      var v := Value(files[path]);
      var above := if v == "" then Filled(w, files, Parent(path), request) else files;
      Store(above, w.locked, path, Chosen(v != "", request, Inherited(w, files, path, "")))
        == Some(Filled(w, files, path, request))
  {
    hide Filled, Store, Sensible, Value, CutAt;
    if buffer == "" {
      if Value(files[path]) == "" {
        EmptyIsFilled(w, files, path, request);
      } else {
        OwnIsKept(w, files, path, request);
      }
    }
  }

  /** Only the path and its ancestors change, and a level with a value keeps it. */
  predicate Preserved(before: Files, after: Files, path: string) {
    before.Keys == after.Keys &&
    forall q :: q in before && before[q] != after[q] ==>
      q <= path && (Value(before[q]) != "" ==> after[q] == Value(before[q]))
  }

  lemma StorePreserves(before: Files, files: Files, locked: set<string>, path: string, request: Option<string>,
    inherited: string, above: string)
    requires path != "" && path in before && Preserved(before, files, above) && |above| < |path| && above <= path
    requires Value(before[path]) != "" ==> inherited == Value(before[path])
    ensures var stored := Store(files, locked, path, Chosen(Value(before[path]) != "", request, inherited));
            stored.Some? ==> Preserved(before, stored.value, path)
  {
    hide Value, Accepts;
  }

  /** Whatever fails on the way, a level that has a value is never given another one. */
  lemma {:induction false} NothingIsClobbered(w: World, path: string, cpus: string, mems: string, request: Request)
    ensures var r := Init(w, path, cpus, mems, request);
            && r.world.dirs == w.dirs && r.world.locked == w.locked
            && Preserved(w.cpus, r.world.cpus, path) && Preserved(w.mems, r.world.mems, path)
            && (cpus != "" ==> r.cpus == cpus && r.world.cpus == w.cpus)
            && (mems != "" ==> r.mems == mems && r.world.mems == w.mems)
    decreases |path|
  {
    hide Value, Store, CutAt;
    if path != "" && path in w.dirs && Load(w.cpus, path, cpus).Some? && Load(w.mems, path, mems).Some? {
      var c, m := Load(w.cpus, path, cpus).value, Load(w.mems, path, mems).value;
      var climb := c == "" || m == "";
      if !climb || ParentLength(path) != 1 {
        var above := if climb then Parent(path) else path[..|path| - 1];
        var up := if climb then Init(w, Parent(path), c, m, request) else Result(w, c, m, true);
        if climb {
          NothingIsClobbered(w, above, c, m, request);
        }
        if cpus == "" {
          StorePreserves(w.cpus, up.world.cpus, w.locked, path, request.cpus, up.cpus, above);
        }
        if mems == "" {
          StorePreserves(w.mems, up.world.mems, w.locked, path, request.mems, up.mems, above);
        }
        Lengthen(w.cpus, up.world.cpus, above, path);
        Lengthen(w.mems, up.world.mems, above, path);
        hide Preserved, Chosen;
      }
    }
  }

  lemma Lengthen(before: Files, after: Files, above: string, path: string)
    requires Preserved(before, after, above) && above <= path
    ensures Preserved(before, after, path)
  {
  }
}
