/** Texts that are longer than the buffer: which levels lose the end of theirs, in every run. */
module CpusetTexts {
  import opened Common
  import opened Cpuset

  /** A text with a value that is a C string. */
  predicate HasText(files: Files, q: string) { q in files && Value(files[q]) != "" && NulFree(files[q]) }

  /** What is read of a text with a value: all of it, or its first 256 bytes. */
  lemma ValueIs(text: string)
    requires Value(text) != "" && NulFree(text)
    ensures Value(text) == if |text| <= BUFFER then text else text[..BUFFER]
  {
    UntilNulIsClean(if |text| <= BUFFER then text else text[..BUFFER]);
  }

  // ---- Which level is written back ----

  /** The two buffers as the climb brings them to a level, if it gets there. */
  function BuffersAt(w: World, path: string, cpus: string, mems: string, q: string): Option<(string, string)>
    decreases |path|
  {
    if path == q then Some((cpus, mems))
    else if path == "" || !Climbs(w, path, cpus, mems) then None
    else BuffersAt(w, Parent(path), Load(w.cpus, path, cpus).value, Load(w.mems, path, mems).value, q)
  }

  /** The climb comes back to a level that it reached with these buffers, and goes on to write to it. */
  predicate ComesBack(w: World, q: string, buffers: (string, string)) {
    q != "" && q in w.dirs && q !in w.locked &&
    var c, m := Load(w.cpus, q, buffers.0), Load(w.mems, q, buffers.1);
    c.Some? && m.Some? && (ParentLength(q) == 1 ==> c.value != "" && m.value != "")
  }

  /** A level with cpus of its own is given them again. */
  predicate CpusBack(w: World, path: string, cpus: string, mems: string, q: string) {
    var at := BuffersAt(w, path, cpus, mems, q);
    at.Some? && at.value.0 == "" && ComesBack(w, q, at.value) && Accepts(w.cpus, q)
  }

  /** The first value at or above this level. */
  function Reached(w: World, files: Files, path: string): string
    decreases |path|
  {
    if path == "" || path !in w.dirs || path !in files then ""
    else if Value(files[path]) != "" || ParentLength(path) == 1 then Value(files[path])
    else Reached(w, files, Parent(path))
  }

  /** Once this level and everything above it is done, it has a value. */
  predicate Gains(w: World, files: Files, path: string, request: Option<string>)
    requires path in files
    decreases |path|
  {
    || Value(files[path]) != ""
    || (&& path != "" && path in w.dirs && path !in w.locked && ParentLength(path) != 1
        && Value(Chosen(false, request, Reached(w, files, path))) != ""
        && (|path| == 1 || Parent(path) !in files || Gains(w, files, Parent(path), request)))
  }

  /** The cpus written to a level in front of its mems are not refused. */
  predicate CpusPass(w: World, q: string, cpus: string, request: Option<string>)
    requires q != ""
  {
    cpus != "" || (q in w.cpus &&
                   if Value(w.cpus[q]) != "" then Accepts(w.cpus, q)
                   else Chosen(false, request, Reached(w, w.cpus, q)) == "" || ParentLength(q) <= 1 ||
                        Parent(q) !in w.cpus || Gains(w, w.cpus, Parent(q), request))
  }

  /** A level with mems of its own is given them again. */
  predicate MemsBack(w: World, path: string, cpus: string, mems: string, request: Request, q: string) {
    var at := BuffersAt(w, path, cpus, mems, q);
    at.Some? && at.value.1 == "" && ComesBack(w, q, at.value) && Accepts(w.mems, q) &&
    CpusPass(w, q, at.value.0, request.cpus)
  }

  /** An empty level has a value afterwards exactly when the write is accepted and is one. */
  lemma StoreGains(files: Files, locked: set<string>, path: string, v: string)
    requires path != "" && path in files && Value(files[path]) == ""
    ensures var stored := Store(files, locked, path, v);
            var after := if stored.Some? then stored.value else files;
            && after.Keys == files.Keys
            && (Value(after[path]) != "" <==> path !in locked && Value(v) != "" && Accepts(files, path))
  {
    hide Accepts, CutAt;
  }

  /** The climb for cpus alone: what it brings back, and whether the level has a value in the end. */
  lemma {:induction false} CpusClimb(w: World, path: string, mems: string, request: Request)
    requires mems != ""
    ensures var r := Init(w, path, "", mems, request);
            && r.cpus == Reached(w, w.cpus, path)
            && r.world.cpus.Keys == w.cpus.Keys
            && (path in w.cpus ==> (Value(r.world.cpus[path]) != "" <==> Gains(w, w.cpus, path, request.cpus)))
    decreases |path|
  {
    hide Value, CutAt, Init, Store;
    NothingIsClobbered(w, path, "", mems, request);
    if path == "" {
      NotThere(w, path, "", mems, request);
    } else {
      InitCases(w, path, "", mems, request);
      if path in w.dirs && path in w.cpus {
        ValueOfValue(w.cpus[path]);
        if Value(w.cpus[path]) == "" && ParentLength(path) != 1 {
          CpusClimb(w, Parent(path), mems, request);
          NothingIsClobbered(w, Parent(path), "", mems, request);
          var up := Init(w, Parent(path), "", mems, request);
          StoreGains(up.world.cpus, w.locked, path, Chosen(false, request.cpus, up.cpus));
        }
      }
    }
  }

  /** The two writes of one level: the mems only after the cpus went through. */
  lemma FinishWrites(path: string, request: Request, open: (bool, bool), own: (bool, bool), up: Result)
    requires path != ""
    ensures var w, r := up.world, Finish(path, request, open, own, up).world;
            var c := Store(w.cpus, w.locked, path, Chosen(own.0, request.cpus, up.cpus));
            var m := Store(w.mems, w.locked, path, Chosen(own.1, request.mems, up.mems));
            && r.cpus == (if open.0 && c.Some? then c.value else w.cpus)
            && r.mems == (if (open.0 ==> c.Some?) && open.1 && m.Some? then m.value else w.mems)
  {
    hide Store, Chosen;
  }

  /** At the level itself. */
  lemma CpusHere(w: World, q: string, cpus: string, mems: string, request: Request)
    requires q in w.cpus && Value(w.cpus[q]) != ""
    ensures var after := Init(w, q, cpus, mems, request).world.cpus;
            && q in after
            && after[q] == if CpusBack(w, q, cpus, mems, q) then Value(w.cpus[q]) else w.cpus[q]
  {
    hide Value, CutAt, Init, Accepts, Finish;
    if q == "" || q !in w.dirs {
      NotThere(w, q, cpus, mems, request);
    } else {
      InitCases(w, q, cpus, mems, request);
      var c, m := Load(w.cpus, q, cpus), Load(w.mems, q, mems);
      if m.Some? {
        var open, own := (cpus == "", mems == ""), (cpus == "" && c.value != "", mems == "" && m.value != "");
        if m.value != "" {
          FinishWrites(q, request, open, own, Result(w, c.value, m.value, true));
        } else if ParentLength(q) != 1 {
          NothingIsClobbered(w, Parent(q), c.value, m.value, request);
          FinishWrites(q, request, open, own, Init(w, Parent(q), c.value, m.value, request));
        }
      }
    }
  }

  /** What is written to a level does not touch the others. */
  lemma FinishElsewhere(path: string, request: Request, open: (bool, bool), own: (bool, bool), up: Result, q: string)
    requires path != "" && path != q
    ensures var r := Finish(path, request, open, own, up).world;
            && (q in up.world.cpus ==> q in r.cpus && r.cpus[q] == up.world.cpus[q])
            && (q in up.world.mems ==> q in r.mems && r.mems[q] == up.world.mems[q])
  {
    hide Accepts;
  }

  /** Below the level: it is as its own turn, if there is one, leaves it. */
  lemma InitElsewhere(w: World, path: string, cpus: string, mems: string, request: Request, q: string)
    requires path != q
    ensures var c, m := Load(w.cpus, path, cpus), Load(w.mems, path, mems);
            var turn := if path != "" && Climbs(w, path, cpus, mems)
                        then Init(w, Parent(path), c.value, m.value, request).world else w;
            var r := Init(w, path, cpus, mems, request).world;
            && (q in turn.cpus ==> q in r.cpus && r.cpus[q] == turn.cpus[q])
            && (q in turn.mems ==> q in r.mems && r.mems[q] == turn.mems[q])
  {
    hide Value, CutAt, Init, Accepts, Finish, Load;
    if path == "" || path !in w.dirs {
      NotThere(w, path, cpus, mems, request);
    } else {
      InitCases(w, path, cpus, mems, request);
      var c, m := Load(w.cpus, path, cpus), Load(w.mems, path, mems);
      if c.Some? && m.Some? {
        var open, own := (cpus == "", mems == ""), (cpus == "" && c.value != "", mems == "" && m.value != "");
        var climbs := c.value == "" || m.value == "";
        if !climbs || ParentLength(path) != 1 {
          FinishElsewhere(path, request, open, own,
            if climbs then Init(w, Parent(path), c.value, m.value, request) else Result(w, c.value, m.value, true), q);
        }
      }
    }
  }

  /** A level with cpus of its own holds, in the end, what was read of them if it was written back, or all of them. */
  lemma {:induction false} CpusAfter(w: World, path: string, cpus: string, mems: string, request: Request, q: string)
    requires q in w.cpus && Value(w.cpus[q]) != ""
    ensures var after := Init(w, path, cpus, mems, request).world.cpus;
            && q in after
            && after[q] == if CpusBack(w, path, cpus, mems, q) then Value(w.cpus[q]) else w.cpus[q]
    decreases |path|
  {
    hide Value, CutAt, Init, Accepts, Load, ComesBack;
    if path == q {
      CpusHere(w, q, cpus, mems, request);
    } else {
      InitElsewhere(w, path, cpus, mems, request, q);
      if path != "" && Climbs(w, path, cpus, mems) {
        CpusAfter(w, Parent(path), Load(w.cpus, path, cpus).value, Load(w.mems, path, mems).value, request, q);
      }
    }
  }

  /** Whether the cpus of a level go through that was reached without any, and has none of its own. */
  lemma CpusStored(w: World, q: string, mems: string, request: Request)
    requires q != "" && q in w.dirs && q in w.cpus && Value(w.cpus[q]) == "" && ParentLength(q) != 1 && mems != ""
    requires q !in w.locked
    ensures var up := Init(w, Parent(q), "", mems, request);
            Store(up.world.cpus, w.locked, q, Chosen(false, request.cpus, up.cpus)).Some?
            <==> CpusPass(w, q, "", request.cpus)
  {
    hide Value, CutAt, Init, Gains;
    CpusClimb(w, Parent(q), mems, request);
    assert Reached(w, w.cpus, q) == Reached(w, w.cpus, Parent(q));
  }

  lemma MemsHere(w: World, q: string, cpus: string, mems: string, request: Request)
    requires q in w.mems && Value(w.mems[q]) != ""
    ensures var after := Init(w, q, cpus, mems, request).world.mems;
            && q in after
            && after[q] == if MemsBack(w, q, cpus, mems, request, q) then Value(w.mems[q]) else w.mems[q]
  {
    hide Value, CutAt, Init, Accepts, Finish, Gains, Reached;
    if q == "" || q !in w.dirs {
      NotThere(w, q, cpus, mems, request);
    } else {
      InitCases(w, q, cpus, mems, request);
      var c, m := Load(w.cpus, q, cpus), Load(w.mems, q, mems);
      if c.Some? {
        var open, own := (cpus == "", mems == ""), (cpus == "" && c.value != "", mems == "" && m.value != "");
        if c.value != "" {
          FinishWrites(q, request, open, own, Result(w, c.value, m.value, true));
        } else if ParentLength(q) != 1 {
          NothingIsClobbered(w, Parent(q), c.value, m.value, request);
          FinishWrites(q, request, open, own, Init(w, Parent(q), c.value, m.value, request));
          if q !in w.locked {
            CpusStored(w, q, m.value, request);
          }
        }
      }
    }
  }

  /** The same for a level with mems of its own. */
  lemma {:induction false} MemsAfter(w: World, path: string, cpus: string, mems: string, request: Request, q: string)
    requires q in w.mems && Value(w.mems[q]) != ""
    ensures var after := Init(w, path, cpus, mems, request).world.mems;
            && q in after
            && after[q] == if MemsBack(w, path, cpus, mems, request, q) then Value(w.mems[q]) else w.mems[q]
    decreases |path|
  {
    hide Value, CutAt, Init, Accepts, Load, ComesBack, CpusPass;
    if path == q {
      MemsHere(w, q, cpus, mems, request);
    } else {
      InitElsewhere(w, path, cpus, mems, request, q);
      if path != "" && Climbs(w, path, cpus, mems) {
        MemsAfter(w, Parent(path), Load(w.cpus, path, cpus).value, Load(w.mems, path, mems).value, request, q);
      }
    }
  }

  /**
  The exact condition, on every run: a level with a value keeps its text unless the text is longer than the buffer and
  the level is written back; then the end of the text is gone.
  */
  lemma TextsKept(w: World, path: string, cpus: string, mems: string, request: Request, q: string)
    ensures var after := Init(w, path, cpus, mems, request).world;
            && (HasText(w.cpus, q) ==>
                  && q in after.cpus
                  && (after.cpus[q] == w.cpus[q] <==> |w.cpus[q]| <= BUFFER || !CpusBack(w, path, cpus, mems, q))
                  && (after.cpus[q] != w.cpus[q] ==> after.cpus[q] == w.cpus[q][..BUFFER]))
            && (HasText(w.mems, q) ==>
                  && q in after.mems
                  && (after.mems[q] == w.mems[q] <==>
                      |w.mems[q]| <= BUFFER || !MemsBack(w, path, cpus, mems, request, q))
                  && (after.mems[q] != w.mems[q] ==> after.mems[q] == w.mems[q][..BUFFER]))
  {
    hide Init, Value, NulFree, CpusBack, MemsBack;
    if HasText(w.cpus, q) {
      ValueIs(w.cpus[q]);
      CpusAfter(w, path, cpus, mems, request, q);
    }
    if HasText(w.mems, q) {
      ValueIs(w.mems[q]);
      MemsAfter(w, path, cpus, mems, request, q);
    }
  }

  // ---- When both values are found ----

  /** A climb that finds a value brings it back, and leaves one at every level unless nothing is asked for. */
  lemma {:induction false} FoundGains(w: World, files: Files, path: string, request: Option<string>)
    requires Found(w, files, path) && Sensible(request)
    ensures Reached(w, files, path) == Value(files[Nearest(w, files, path)])
    ensures Chosen(false, request, Reached(w, files, path)) != "" ==> Gains(w, files, path, request)
    decreases |path|
  {
    hide Value, CutAt, Accepts;
    ValueOfValue(files[Nearest(w, files, path)]);
    if Value(files[path]) == "" {
      FoundGains(w, files, Parent(path), request);
    }
  }

  /** Then exactly the nearest level is written back. */
  lemma {:induction false} NearestIsBack(w: World, path: string, cpus: string, mems: string, request: Request,
    q: string)
    requires path != "" && path in w.dirs && path !in w.locked && Sensible(request.cpus)
    requires cpus == "" ==> Found(w, w.cpus, path)
    requires mems == "" ==> Found(w, w.mems, path)
    ensures HasText(w.cpus, q) ==>
      (CpusBack(w, path, cpus, mems, q) <==> cpus == "" && q == Nearest(w, w.cpus, path))
    ensures HasText(w.mems, q) ==>
      (MemsBack(w, path, cpus, mems, request, q) <==> mems == "" && q == Nearest(w, w.mems, path))
    decreases |path|
  {
    hide Value, CutAt, Accepts, Sensible, Gains, Reached, NulFree;
    if path == q {
      if cpus == "" && Value(w.cpus[q]) == "" {
        FoundGains(w, w.cpus, Parent(q), request.cpus);
        FoundGains(w, w.cpus, q, request.cpus);
      }
    } else if Climbs(w, path, cpus, mems) {
      NearestIsBack(w, Parent(path), Load(w.cpus, path, cpus).value, Load(w.mems, path, mems).value, request, q);
    }
  }

  /** What a level that was climbed over holds in the end: the request, or the beginning of the nearest text. */
  predicate GivenOnTheWay(before: Files, after: Files, nearest: string, request: Option<string>, q: string)
    requires q in before && nearest in before
  {
    var text := before[nearest];
    q in after &&
    match request
    case None => after[q] == if |text| <= 256 then text else text[..256]
    case Some(v) => after[q] == if v == "" then before[q] else v
  }

  /** Both files of every level below the nearest one, on the outcome of the recursion. */
  lemma LevelsAfter(w: World, path: string, request: Request, q: string)
    requires Found(w, w.cpus, path) && Found(w, w.mems, path) && Sensible(request.cpus) && Sensible(request.mems)
    requires NulFree(w.cpus[Nearest(w, w.cpus, path)]) && NulFree(w.mems[Nearest(w, w.mems, path)])
    ensures var r := Init(w, path, "", "", request);
            var a, b := Nearest(w, w.cpus, path), Nearest(w, w.mems, path);
            && r.ok
            && (q in Climbed(w, w.cpus, path) && q != a ==>
                  GivenOnTheWay(w.cpus, r.world.cpus, a, request.cpus, q))
            && (q in Climbed(w, w.mems, path) && q != b ==>
                  GivenOnTheWay(w.mems, r.world.mems, b, request.mems, q))
  {
    InitFills(w, path, "", "", request);
    hide Init, Value, NulFree, Found, Nearest, Climbed, Sensible;
    ValueIs(w.cpus[Nearest(w, w.cpus, path)]);
    ValueIs(w.mems[Nearest(w, w.mems, path)]);
  }

  /**
  For example: a cpuset with a longer text, given to the function itself, succeeds and loses the rest of its text.
  */
  lemma LongTextIsCut(text: string, request: Request)
    requires NulFree(text) && |text| > BUFFER && text[0] != '\n' && Sensible(request.cpus) && Sensible(request.mems)
    ensures var w := World({"/c"}, map["/c" := text], map["/c" := text], {});
            var r := Init(w, "/c", "", "", request);
            r.ok && r.world.cpus == map["/c" := text[..BUFFER]] && text[..BUFFER] != text
  {
    var w := World({"/c"}, map["/c" := text], map["/c" := text], {});
    UntilNulIsClean(text[..BUFFER]);
    hide Value;
    ValueIs(text);
    assert ParentLength("/c") == 1;
    InitFills(w, "/c", "", "", request);
  }
}
