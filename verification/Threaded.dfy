/** Making a cgroup threaded: climb to the nearest domain, then write on the way back. */
module Threaded {
  import opened Common
  import opened Paths

  /** A cgroup, as the components of its path below the root. */
  type Level = seq<string>

  function SkipSlashes(s: string): (t: string)
    ensures t == "" || t[0] != '/'
    ensures |t| <= |s| && (s == "" || s[0] != '/' ==> t == s)
    ensures Components(t) == Components(s)
  {
    if s != "" && s[0] == '/' then SkipSlashes(s[1..]) else s
  }

  /** dirname, as POSIX has it. */
  function Dirname(s: string): string {
    var t := TrimSlashes(s);
    if t == "" then (if s == "" then "." else "/")
    else
      var p := TrimName(t);
      if p == "" then "." else if TrimSlashes(p) == "" then "/" else TrimSlashes(p)
  }

  /** The first character always stays. */
  function StripNewlines(s: string): string {
    if |s| > 1 && s[|s| - 1] == '\n' then StripNewlines(s[..|s| - 1]) else s
  }

  predicate IsDomain(text: string) {
    StripNewlines(text) in {"domain", "domain threaded"}
  }

  function Newlines(k: nat): string { if k == 0 then "" else Newlines(k - 1) + "\n" }

  lemma {:induction false} StripsNewlines(text: string, k: nat)
    requires text != "" && text[|text| - 1] != '\n'
    ensures StripNewlines(text + Newlines(k)) == text
  {
    if k == 0 {
      assert text + "" == text;
    } else {
      var s := text + Newlines(k);
      assert s[..|s| - 1] == text + Newlines(k - 1);
      StripsNewlines(text, k - 1);
    }
  }

  /** A type is a domain's whatever the number of newlines behind it. */
  lemma DomainLines(text: string, k: nat)
    requires text != "" && text[|text| - 1] != '\n'
    ensures IsDomain(text + Newlines(k)) <==> text == "domain" || text == "domain threaded"
  {
    StripsNewlines(text, k);
  }

  function Above(level: Level): (above: Level)
    requires level != []
    ensures |above| == |level| - 1
  {
    level[..|level| - 1]
  }

  /** The climb ends here: the next cgroup is the root. */
  predicate AtTop(level: Level)
    requires level != []
  {
    |level| == 1 || Above(level) == ["."]
  }

  /**
  How many components the nearest domain has; none when some cgroup on the way can not be read.
  It is a domain, or what stands for the root; all cgroups below it on the way are no domains.
  */
  function Base(types: map<Level, string>, level: Level): (b: Option<nat>)
    ensures b.Some? ==> b.value <= |level|
    ensures b.Some? ==> var top := level[..b.value]; top == [] || top == ["."] || (top in types && IsDomain(types[top]))
    ensures b.Some? ==> forall k :: b.value < k <= |level| ==> level[..k] in types && !IsDomain(types[level[..k]])
  {
    if level == [] then Some(0)
    else
      assert level[..|level|] == level;
      if level !in types then None
      else if IsDomain(types[level]) then Some(|level|)
      else if AtTop(level) then Some(|level| - 1)
      else
        assert forall k :: 0 <= k < |level| ==> Above(level)[..k] == level[..k];
        Base(types, Above(level))
  }

  /** The cgroups below the first `b` components, outermost first. */
  function Below(level: Level, b: nat): (levels: seq<Level>)
    requires b <= |level|
    ensures |levels| == |level| - b
    ensures forall i :: 0 <= i < |levels| ==> levels[i] == level[..b + 1 + i]
  {
    if |level| == b then [] else Below(Above(level), b) + [level]
  }

  function Mark(types: map<Level, string>, levels: seq<Level>): (r: map<Level, string>)
    ensures forall l :: l in levels ==> l in r && r[l] == "threaded"
    ensures forall l :: l in types && l !in levels ==> l in r && r[l] == types[l]
    ensures r.Keys == types.Keys + set l | l in levels
  {
    if levels == [] then types
    else
      var init, last := levels[..|levels| - 1], levels[|levels| - 1];
      assert levels == init + [last];
      Mark(types, init)[last := "threaded"]
  }

  lemma OneComponent(s: string)
    requires s != "" && s[0] != '/' && !EndsWithSlash(s) && |Components(s)| == 1
    ensures Components(s) == [s]
  {
    var n := NameLength(s);
    assert Components(s[n..]) == [];
    hide Components;
    NoComponents(s[n..]);
    assert s[|s| - 1] !in s[n..];
    assert s[..|s|] == s;
  }

  /** The parent text of the source: its components, and when the source takes it for the root. */
  lemma DirnameComponents(s: string)
    requires s != "" && s[0] != '/'
    ensures Components(s) != []
    ensures var parent := SkipSlashes(Dirname(s));
            if AtTop(Components(s)) then parent == "."
            else parent != "" && parent != "." && |parent| < |s| && Components(parent) == Above(Components(s))
  {
    assert Components(s) != [];
    ParentComponents(s);
    hide Components, TrimSlashes, TrimName, SkipSlashes;
    var p := ParentText(s);
    var q := TrimSlashes(p);
    TrimmedComponents(s);
    TrimmedComponents(p);
    OnlyEmpty(p);
    OnlyEmpty(q);
    OnlyEmpty(TrimSlashes(s));
    if p != "" {
      assert p[0] == s[0];
      KeepsFirst(p);
      if |Components(q)| == 1 {
        OneComponent(q);
      }
      IsDotComponents();
    }
  }

  lemma KeepsFirst(p: string)
    requires p != "" && p[0] != '/'
    ensures var q := TrimSlashes(p); q != "" && q[0] == p[0] && Components(q) != []
  {
    var q := TrimSlashes(p);
    assert forall i :: |q| <= i < |p| ==> p[i] == '/' by { TrimmedAreSlashes(p); }
  }

  lemma {:induction false} TrimmedAreSlashes(p: string)
    ensures forall i :: |TrimSlashes(p)| <= i < |p| ==> p[i] == '/'
  {
    if EndsWithSlash(p) {
      TrimmedAreSlashes(p[..|p| - 1]);
    }
  }

  lemma IsDotComponents()
    ensures Components(".") == ["."]
  {
    NameComponents(".");
  }

  // ---- The recursion ----

  datatype Outcome = Outcome(types: map<Level, string>, written: seq<Level>, ok: bool)

  /** The recursion on values. */
  function Make(types: map<Level, string>, locked: set<Level>, level: Level): Outcome {
    if level == [] then Outcome(types, [], true)
    else if level !in types then Outcome(types, [], false)
    else if IsDomain(types[level]) then Outcome(types, [], true)
    else
      var up := if AtTop(level) then Outcome(types, [], true) else Make(types, locked, Above(level));
      if !up.ok then up
      else if level in locked then up.(ok := false)
      else Outcome(up.types[level := "threaded"], up.written + [level], true)
  }

  /** What was written begins the list of levels, and goes on until one that is locked. */
  predicate WrittenAre(locked: set<Level>, levels: seq<Level>, written: seq<Level>, ok: bool) {
    && written <= levels
    && (forall i :: 0 <= i < |written| ==> written[i] !in locked)
    && (if ok then |written| == |levels| else |written| < |levels| && levels[|written|] in locked)
  }

  lemma OneMore(locked: set<Level>, levels: seq<Level>, written: seq<Level>, ok: bool, level: Level)
    requires WrittenAre(locked, levels, written, ok)
    ensures if !ok then WrittenAre(locked, levels + [level], written, false)
            else if level in locked then WrittenAre(locked, levels + [level], written, false)
            else WrittenAre(locked, levels + [level], written + [level], true)
  {
  }

  /**
  Exactly the cgroups below the nearest domain are made threaded, outermost first; when one of them can not be
  read nothing is written, and when one can not be written those above it have been.
  */
  lemma {:induction false} MakeMeans(types: map<Level, string>, locked: set<Level>, level: Level)
    ensures var r, base := Make(types, locked, level), Base(types, level);
            if base.None? then !r.ok && r.written == []
              else WrittenAre(locked, Below(level, base.value), r.written, r.ok)
    ensures var r := Make(types, locked, level); r.types == Mark(types, r.written)
    decreases |level|
  {
    hide IsDomain, AtTop, WrittenAre, Mark, Above;
    if level == [] || level !in types || IsDomain(types[level]) {
      NoneWritten(types, locked, level);
    } else {
      var up := if AtTop(level) then Outcome(types, [], true) else Make(types, locked, Above(level));
      var base := Base(types, level);
      if AtTop(level) {
        NoneWritten(types, locked, Above(level));
      } else {
        MakeMeans(types, locked, Above(level));
      }
      MarkOne(types, up.written, level);
      if base.Some? {
        OneMore(locked, Below(Above(level), base.value), up.written, up.ok, level);
      }
    }
  }

  lemma NoneWritten(types: map<Level, string>, locked: set<Level>, level: Level)
    ensures Mark(types, []) == types && Below(level, |level|) == [] && WrittenAre(locked, [], [], true)
  {
  }

  lemma MarkOne(types: map<Level, string>, levels: seq<Level>, level: Level)
    ensures Mark(types, levels + [level]) == Mark(types, levels)[level := "threaded"]
  {
    assert (levels + [level])[..|levels|] == levels;
  }

  class TypeFiles {
    var types: map<Level, string>
    var written: seq<Level>
    const locked: set<Level>

    constructor (types: map<Level, string>, locked: set<Level>)
      ensures this.types == types && this.locked == locked && written == []
    {
      this.types, this.locked, written := types, locked, [];
    }

    method MakeThreaded(path: string) returns (ok: bool)
      modifies this
      ensures var r := Make(old(types), locked, Components(path));
              ok == r.ok && types == r.types && written == old(written) + r.written
      decreases |path|
    {
      hide IsDomain, Dirname, Components, Above;
      var p := SkipSlashes(path);
      OnlyEmpty(p);
      if p == "" {
        return true;
      }
      DirnameComponents(p);
      var level := Components(p);
      if level !in types {
        return false;
      }
      if IsDomain(types[level]) {
        return true;
      }
      var parent := SkipSlashes(Dirname(p));
      if parent != "" && parent != "." {
        ok := MakeThreaded(parent);
        if !ok {
          return false;
        }
      }
      if level in locked {
        return false;
      }
      types, written := types[level := "threaded"], written + [level];
      ok := true;
    }
  }
}
