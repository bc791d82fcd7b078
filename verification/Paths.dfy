/** Slash-separated paths and their components. */
module Paths {
  import opened Common

  /** The number of characters in front of the first slash. */
  function NameLength(s: string): (n: nat)
    ensures n <= |s|
    ensures forall i :: 0 <= i < n ==> s[i] != '/'
    ensures n < |s| ==> s[n] == '/'
  {
    Find(s, '/')
  }

  /** The components of a path: what stands between slashes, without empty parts. */
  function Components(s: string): seq<string>
    decreases |s|
  {
    if s == "" then []
    else if s[0] == '/' then Components(s[1..])
    else [s[..NameLength(s)]] + Components(s[NameLength(s)..])
  }

  predicate IsName(s: string) { s != "" && '/' !in s }

  predicate EndsWithSlash(s: string) { s != "" && s[|s| - 1] == '/' }

  lemma NameLengthAppend(s: string, t: string)
    requires t == "" || t[0] == '/' || NameLength(s) < |s|
    ensures NameLength(s + t) == NameLength(s)
  {
    FindIs(s + t, '/', NameLength(s));
  }

  /** Components of two paths put together, when the seam is at a slash. */
  lemma {:induction false} ComponentsAppend(s: string, t: string)
    requires s == "" || t == "" || EndsWithSlash(s) || t[0] == '/'
    ensures Components(s + t) == Components(s) + Components(t)
    decreases |s|
  {
    if s == "" {
      assert s + t == t;
    } else if t == "" {
      assert s + t == s;
    } else if s[0] == '/' {
      assert (s + t)[1..] == s[1..] + t;
      ComponentsAppend(s[1..], t);
    } else {
      var n := NameLength(s);
      NameLengthAppend(s, t);
      assert (s + t)[..n] == s[..n] && (s + t)[n..] == s[n..] + t;
      ComponentsAppend(s[n..], t);
      Assoc([s[..n]], Components(s[n..]), Components(t));
    }
  }

  lemma NameComponents(s: string)
    requires IsName(s)
    ensures Components(s) == [s]
  {
    NameLengthFull(s);
    assert s[..|s|] == s;
  }

  lemma NameLengthFull(s: string)
    requires '/' !in s
    ensures NameLength(s) == |s|
  {
    FindIs(s, '/', |s|);
  }

  /** A name glued to a path without a slash in between merges with the last component. */
  lemma GluedComponents(s: string, name: string)
    requires s != "" && !EndsWithSlash(s) && IsName(name)
    ensures |Components(s + name)| == |Components(s)|
    decreases |s|
  {
    hide Find;
    if s[0] == '/' {
      assert (s + name)[1..] == s[1..] + name;
      GluedComponents(s[1..], name);
    } else {
      var n := NameLength(s);
      if n < |s| {
        NameLengthAppend(s, name);
        assert (s + name)[n..] == s[n..] + name;
        GluedComponents(s[n..], name);
      } else {
        assert IsName(s + name) && IsName(s) by { assert s[..n] == s; }
        NameComponents(s + name);
        NameComponents(s);
      }
    }
  }

  // ---- Parents ----

  function TrimSlashes(s: string): (t: string)
    ensures t <= s && !EndsWithSlash(t)
  {
    if EndsWithSlash(s) then TrimSlashes(s[..|s| - 1]) else s
  }

  /** What is in front of the last component, with the slash. */
  function TrimName(s: string): (t: string)
    ensures t <= s && (t == "" || EndsWithSlash(t)) && (s != "" && !EndsWithSlash(s) ==> |t| < |s|)
    ensures '/' !in s[|t|..]
  {
    if s == "" || EndsWithSlash(s) then s else TrimName(s[..|s| - 1])
  }

  function ParentText(s: string): string { TrimName(TrimSlashes(s)) }

  lemma {:induction false} TrimmedComponents(s: string)
    ensures Components(TrimSlashes(s)) == Components(s)
  {
    if EndsWithSlash(s) {
      TrimmedComponents(s[..|s| - 1]);
      assert s == s[..|s| - 1] + "/" && "/"[1..] == "";
      ComponentsAppend(s[..|s| - 1], "/");
    }
  }

  /** The text in front of the last component has all components but the last. */
  lemma ParentComponents(s: string)
    requires Components(s) != []
    ensures Components(ParentText(s)) == Components(s)[..|Components(s)| - 1]
    ensures |ParentText(s)| < |s|
  {
    hide Components, TrimSlashes, TrimName;
    var t := TrimSlashes(s);
    TrimmedComponents(s);
    OnlyEmpty(t);
    var parent := TrimName(t);
    var name := t[|parent|..];
    assert t == parent + name && IsName(name);
    ComponentsAppend(parent, name);
    NameComponents(name);
  }

  lemma OnlyEmpty(s: string)
    ensures s == "" ==> Components(s) == []
  {
  }

  lemma NoSlashLost(s: string)
    ensures Components(s + "/") == Components(s)
  {
    assert "/"[1..] == "";
    ComponentsAppend(s, "/");
  }

  /** Only slashes have no components. */
  lemma {:induction false} NoComponents(s: string)
    requires Components(s) == []
    ensures forall c :: c in s ==> c == '/'
  {
    if s != "" {
      assert s[0] == '/' && s == [s[0]] + s[1..];
      NoComponents(s[1..]);
    }
  }
}
