/** Enabling the controllers of one cgroup: all in one write, or else one by one, and again while the kernel is busy. */
module ControllerFile {
  import opened Common

  type Set = set<string>

  datatype Errno = Success | Busy | Invalid | Missing | Unsupported | Denied | Other

  const NAMES: seq<string> := ["cpu", "io", "memory", "pids", "cpuset", "hugetlb", "misc"]

  const ATTEMPTS := 1000

  /**
  What the system says during one call: to the n-th write and its text; whether the file exists, if that can be told;
  to making the cgroup threaded; and to reading the available controllers again.
  */
  datatype File = File(write: (nat, string) -> Errno, present: Option<bool>, threaded: Errno, refreshed: Errno)

  function Field(c: Set, name: string): string { if name in c then "+" + name else "" }

  function Fields(c: Set): seq<string> { seq(|NAMES|, i requires 0 <= i < |NAMES| => Field(c, NAMES[i])) }

  function Join(fields: seq<string>): string {
    if fields == [] then "" else if |fields| == 1 then fields[0] else fields[0] + " " + Join(fields[1..])
  }

  /** A place for every controller, empty for those that are not wanted. */
  function Text(c: Set): string { Join(Fields(c)) }

  function NonEmpty(fields: seq<string>): seq<string> {
    if fields == [] then [] else (if fields[0] == "" then [] else [fields[0]]) + NonEmpty(fields[1..])
  }

  /** The wanted controllers in their fixed order. */
  function Tokens(c: Set): seq<string> { NonEmpty(Fields(c)) }

  /** strtok_r. */
  function Words(s: string): seq<string>
    decreases |s|
  {
    if s == "" then []
    else if s[0] == ' ' then Words(s[1..])
    else [s[..Find(s, ' ')]] + Words(s[Find(s, ' ')..])
  }

  lemma WordsStart(field: string, rest: string)
    requires ' ' !in field && (rest == "" || rest[0] == ' ')
    ensures Words(field + rest) == NonEmpty([field]) + Words(rest)
  {
    assert [field][1..] == [];
    if field == "" {
      assert field + rest == rest;
    } else {
      var s := field + rest;
      FindIs(s, ' ', |field|);
      assert s[..|field|] == field && s[|field|..] == rest;
    }
  }

  lemma WordsSkip(s: string)
    ensures Words(" " + s) == Words(s)
  {
    assert (" " + s)[1..] == s;
  }

  lemma JoinIs(fields: seq<string>)
    requires fields != []
    ensures Join(fields) == fields[0] + if |fields| == 1 then "" else " " + Join(fields[1..])
  {
    assert fields[0] + "" == fields[0];
    Assoc(fields[0], " ", Join(fields[1..]));
  }

  lemma NonEmptyIs(fields: seq<string>)
    requires fields != []
    ensures NonEmpty(fields) == NonEmpty([fields[0]]) + NonEmpty(fields[1..])
    ensures |fields| == 1 ==> NonEmpty(fields[1..]) == []
  {
    assert [fields[0]][1..] == [];
  }

  lemma {:induction false} WordsOfJoin(fields: seq<string>)
    requires forall f :: f in fields ==> ' ' !in f
    ensures Words(Join(fields)) == NonEmpty(fields)
  {
    if fields != [] {
      assert Words("") == [];
      hide Words, NonEmpty, Join;
      JoinIs(fields);
      NonEmptyIs(fields);
      if |fields| == 1 {
        WordsStart(fields[0], "");
      } else {
        WordsStart(fields[0], " " + Join(fields[1..]));
        WordsSkip(Join(fields[1..]));
        WordsOfJoin(fields[1..]);
      }
    }
  }

  /** The words of the text are the wanted controllers. */
  lemma TokensOfText(c: Set)
    ensures Words(Text(c)) == Tokens(c)
  {
    forall f | f in Fields(c) ensures ' ' !in f {
      var i :| 0 <= i < |NAMES| && f == Field(c, NAMES[i]);
    }
    WordsOfJoin(Fields(c));
  }

  lemma {:induction false} NonEmptyHas(fields: seq<string>, t: string)
    ensures t in NonEmpty(fields) <==> t != "" && t in fields
  {
    if fields != [] {
      NonEmptyHas(fields[1..], t);
      assert fields == [fields[0]] + fields[1..];
    }
  }

  /** A pass writes these and no others. */
  lemma TokensHave(c: Set, t: string)
    ensures t in Tokens(c) <==>
      |t| > 1 && t[0] == '+' && t[1..] in c &&
      t[1..] in {"cpu", "io", "memory", "pids", "cpuset", "hugetlb", "misc"}
  {
    NonEmptyHas(Fields(c), t);
    if t != "" && t in Fields(c) {
      var i :| 0 <= i < |NAMES| && t == Field(c, NAMES[i]);
      assert t[1..] == NAMES[i];
    }
    if |t| > 1 && t[0] == '+' && t[1..] in c && t[1..] in NAMES {
      var i :| 0 <= i < |NAMES| && t[1..] == NAMES[i];
      assert t == "+" + NAMES[i];
      assert Fields(c)[i] == t;
    }
    NamesAre();
  }

  lemma NamesAre()
    ensures forall name :: name in NAMES <==> name in {"cpu", "io", "memory", "pids", "cpuset", "hugetlb", "misc"}
  {
    assert NAMES[0] == "cpu" && NAMES[1] == "io" && NAMES[2] == "memory" && NAMES[3] == "pids" &&
      NAMES[4] == "cpuset" && NAMES[5] == "hugetlb" && NAMES[6] == "misc";
  }

  // ---- Passes ----

  predicate PassBusy(file: File, n: nat, tokens: seq<string>) {
    exists i :: 0 <= i < |tokens| && file.write(n + i, tokens[i]) == Busy
  }

  predicate PassWrites(file: File, n: nat, tokens: seq<string>) {
    exists i :: 0 <= i < |tokens| && file.write(n + i, tokens[i]) == Success
  }

  /** How many passes there are, with so many attempts left behind the next one. */
  function Passes(file: File, tokens: seq<string>, n: nat, left: nat): (k: nat)
    ensures 1 <= k <= left + 1
    decreases left
  {
    if !PassBusy(file, n, tokens) || left == 0 then 1
    else if PassWrites(file, n, tokens) && left > 2 then 2
    else 1 + Passes(file, tokens, n + |tokens|, left - 1)
  }

  function Repeat(tokens: seq<string>, k: nat): seq<string> {
    if k == 0 then [] else tokens + Repeat(tokens, k - 1)
  }

  function Start(n: nat, tokens: seq<string>, p: nat): nat { n + p * |tokens| }

  /** Every pass but the last met a busy controller; a pass that wrote something is followed by one more at most. */
  predicate Stops(file: File, tokens: seq<string>, n: nat, left: nat, k: nat) {
    && 1 <= k <= left + 1
    && (forall p: nat :: p < k - 1 ==> PassBusy(file, Start(n, tokens, p), tokens))
    && (forall p: nat :: p < k - 2 && left - p > 2 ==> !PassWrites(file, Start(n, tokens, p), tokens))
    && (PassBusy(file, Start(n, tokens, k - 1), tokens) ==>
        k == left + 1
        || (k >= 2 && left - (k - 2) > 2 && PassWrites(file, Start(n, tokens, k - 2), tokens)))
  }

  lemma StopsOnce(file: File, tokens: seq<string>, n: nat, left: nat, k: nat, k': nat)
    requires Stops(file, tokens, n, left, k) && Stops(file, tokens, n, left, k')
    ensures k == k'
  {
    hide PassBusy, PassWrites, Start;
  }

  lemma StartNext(n: nat, tokens: seq<string>, p: nat)
    ensures Start(n, tokens, 0) == n
    ensures Start(n, tokens, p + 1) == Start(n + |tokens|, tokens, p)
  {
    assert (p + 1) * |tokens| == p * |tokens| + |tokens|;
  }

  lemma {:induction false} PassesStop(file: File, tokens: seq<string>, n: nat, left: nat)
    ensures Stops(file, tokens, n, left, Passes(file, tokens, n, left))
    decreases left
  {
    hide PassBusy, PassWrites, Start;
    var k := Passes(file, tokens, n, left);
    StartNext(n, tokens, 0);
    if PassBusy(file, n, tokens) && left > 0 && !(PassWrites(file, n, tokens) && left > 2) {
      var n', k' := n + |tokens|, k - 1;
      PassesStop(file, tokens, n', left - 1);
      forall p: nat | p < k - 1 ensures PassBusy(file, Start(n, tokens, p), tokens) {
        if p > 0 {
          StartNext(n, tokens, p - 1);
        }
      }
      forall p: nat | p < k - 2 && left - p > 2 ensures !PassWrites(file, Start(n, tokens, p), tokens) {
        if p > 0 {
          StartNext(n, tokens, p - 1);
        }
      }
      StartNext(n, tokens, k' - 1);
      if k' >= 2 {
        StartNext(n, tokens, k' - 2);
      }
    }
  }

  /** The number of passes, without the loop. */
  lemma PassesAre(file: File, tokens: seq<string>, n: nat, left: nat, k: nat)
    ensures k == Passes(file, tokens, n, left) <==> Stops(file, tokens, n, left, k)
  {
    hide Stops, Passes;
    PassesStop(file, tokens, n, left);
    if Stops(file, tokens, n, left, k) {
      StopsOnce(file, tokens, n, left, k, Passes(file, tokens, n, left));
    }
  }

  // ---- One call ----

  /** One by one only after these errors, if the file is there and the cgroup could be made threaded. */
  predicate FallsBack(file: File, c: Set) {
    var e := file.write(0, Text(c));
    && e in {Denied, Busy, Missing, Unsupported}
    && (e == Missing ==> file.present == Some(true))
    && (e == Unsupported ==> file.threaded == Success)
  }

  /** Then what the single writes said does not matter. */
  function Outcome(file: File, c: Set): Errno {
    var e := file.write(0, Text(c));
    if FallsBack(file, c) then file.refreshed else if e == Unsupported then file.threaded else e
  }

  /** The texts written. */
  function Writes(file: File, c: Set): seq<string> {
    [Text(c)] + if FallsBack(file, c) then Repeat(Tokens(c), Passes(file, Tokens(c), 1, ATTEMPTS)) else []
  }

  /** strtok_r: the next word at or behind a position. */
  method NextWord(s: string, from: nat) returns (word: Option<string>, next: nat)
    requires from <= |s|
    ensures word.Some? ==> from < next <= |s|
    ensures Words(s[from..]) == if word.Some? then [word.value] + Words(s[next..]) else []
  {
    hide Words;
    var start := from;
    while start < |s| && s[start] == ' '
      invariant from <= start <= |s| && Words(s[from..]) == Words(s[start..])
    {
      assert s[start..] == " " + s[start + 1..];
      WordsSkip(s[start + 1..]);
      start := start + 1;
    }
    next := start;
    while next < |s| && s[next] != ' '
      invariant start <= next <= |s| && ' ' !in s[start..next]
    {
      next := next + 1;
    }
    assert s[start..] == s[start..next] + s[next..];
    WordsStart(s[start..next], s[next..]);
    NonEmptyOne(s[start..next]);
    word := if start == |s| then None else Some(s[start..next]);
  }

  lemma NonEmptyOne(word: string)
    ensures NonEmpty([word]) == if word == "" then [] else [word]
    ensures Words("") == []
  {
    assert [word][1..] == [];
  }

  /** One pass: a controller that is refused does not stop the others. */
  method WriteEach(file: File, text: string, n: nat) returns (written: nat, busy: bool, log: seq<string>)
    ensures log == Words(text)
    ensures busy <==> PassBusy(file, n, log)
    ensures written > 0 <==> PassWrites(file, n, log)
  {
    hide Words;
    written, busy, log := 0, false, [];
    var word, next := NextWord(text, 0);
    assert text[0..] == text;
    while word.Some?
      invariant word.Some? ==> next <= |text|
      invariant Words(text) == log + if word.Some? then [word.value] + Words(text[next..]) else []
      invariant busy <==> PassBusy(file, n, log)
      invariant written > 0 <==> PassWrites(file, n, log)
      decreases if word.Some? then |text| + 1 - next else 0
    {
      var reply := file.write(n + |log|, word.value);
      OneMore(file, n, log, word.value);
      if reply == Busy {
        busy := true;
      } else if reply == Success {
        written := written + 1;
      }
      Assoc(log, [word.value], Words(text[next..]));
      log := log + [word.value];
      word, next := NextWord(text, next);
    }
  }

  lemma OneMore(file: File, n: nat, log: seq<string>, word: string)
    ensures var reply, all := file.write(n + |log|, word), log + [word];
            && (PassBusy(file, n, all) <==> PassBusy(file, n, log) || reply == Busy)
            && (PassWrites(file, n, all) <==> PassWrites(file, n, log) || reply == Success)
  {
    var all := log + [word];
    assert all[|log|] == word && forall i :: 0 <= i < |log| ==> all[i] == log[i];
  }

  /** What one pass leaves to be done. */
  lemma RepeatStep(file: File, tokens: seq<string>, n: nat, left: nat)
    ensures var all := Repeat(tokens, Passes(file, tokens, n, left));
            if !PassBusy(file, n, tokens) || left == 0 then all == tokens
            else
              var left' := if PassWrites(file, n, tokens) && left > 2 then 0 else left - 1;
              all == tokens + Repeat(tokens, Passes(file, tokens, n + |tokens|, left'))
  {
    hide PassBusy, PassWrites;
    assert tokens + [] == tokens;
  }

  /** The passes: after one that wrote something only the last attempt is left. */
  method Retry(file: File, c: Set, n: nat) returns (log: seq<string>)
    ensures log == Repeat(Tokens(c), Passes(file, Tokens(c), n, ATTEMPTS))
  {
    hide Words, PassBusy, PassWrites, Text, Tokens, Passes, Repeat;
    ghost var tokens := Tokens(c);
    TokensOfText(c);
    log := [];
    var left: int := ATTEMPTS;
    ghost var goal := Repeat(tokens, Passes(file, tokens, n, ATTEMPTS));
    while left >= 0
      invariant -1 <= left <= ATTEMPTS
      invariant goal == log + if left >= 0 then Repeat(tokens, Passes(file, tokens, n + |log|, left)) else []
      decreases left
    {
      var written, busy, pass := WriteEach(file, Text(c), n + |log|);
      RepeatStep(file, tokens, n + |log|, left);
      ghost var before := log;
      log := log + pass;
      if !busy {
        break;
      }
      if written > 0 && left > 2 {
        left := 1;
      }
      left := left - 1;
      if left >= 0 {
        Assoc(before, tokens, Repeat(tokens, Passes(file, tokens, n + |log|, left)));
      }
    }
  }

  /** write_controller_file. */
  method WriteControllers(file: File, c: Set) returns (r: Errno, log: seq<string>)
    ensures r == Outcome(file, c)
    ensures log == Writes(file, c)
  {
    hide Text, Repeat, Passes, Tokens;
    r, log := file.write(0, Text(c)), [Text(c)];
    if r == Success {
      return;
    }
    if r != Denied && r != Busy && r != Missing && r != Unsupported {
      return;
    }
    if r == Missing {
      if file.present.None? || !file.present.value {
        return;
      }
    }
    if r == Unsupported {
      r := file.threaded;
      if r != Success {
        return;
      }
    }
    var passes := Retry(file, c, 1);
    r, log := file.refreshed, log + passes;
  }

  // ---- What is enabled in the end ----

  /** The text was accepted by some write of the call; the n-th text of the log is the n-th write. */
  predicate Enabled(file: File, c: Set, token: string) {
    var log := Writes(file, c);
    exists n :: 0 <= n < |log| && file.write(n, log[n]) == Success && token in Words(log[n])
  }

  predicate AllKnown(known: set<string>, text: string) { forall t :: t in Words(text) ==> t in known }

  /**
  A kernel that is busy for the first writes and then takes exactly the texts whose controllers it knows. It refuses the
  others with an error after which single writes are tried.
  */
  ghost predicate Settles(file: File, known: set<string>, busy: nat) {
    && (forall n: nat, text: string {:trigger file.write(n, text)} ::
          if n < busy then file.write(n, text) == Busy
          else if AllKnown(known, text) then file.write(n, text) == Success
          else file.write(n, text) in {Denied, Missing, Unsupported})
    && file.present == Some(true) && file.threaded == Success && file.refreshed == Success
  }

  /** When it settles before the attempts are used up, the last pass meets a kernel that is not busy. */
  lemma {:induction false} LastPassIsCalm(file: File, known: set<string>, busy: nat, tokens: seq<string>, n: nat,
    left: nat)
    requires Settles(file, known, busy) && tokens != [] && busy <= n + left * |tokens|
    ensures busy <= Start(n, tokens, Passes(file, tokens, n, left) - 1)
    decreases left
  {
    hide AllKnown;
    StartNext(n, tokens, 0);
    if n < busy {
      assert file.write(n + 0, tokens[0]) == Busy;
      assert PassBusy(file, n, tokens) && left > 0;
      if PassWrites(file, n, tokens) && left > 2 {
        var i :| 0 <= i < |tokens| && file.write(n + i, tokens[i]) == Success;
      } else {
        assert left * |tokens| == (left - 1) * |tokens| + |tokens|;
        LastPassIsCalm(file, known, busy, tokens, n + |tokens|, left - 1);
        StartNext(n, tokens, Passes(file, tokens, n, left) - 2);
      }
    } else {
      CalmIsNotBusy(file, known, busy, tokens, n);
    }
  }

  lemma CalmIsNotBusy(file: File, known: set<string>, busy: nat, tokens: seq<string>, n: nat)
    requires Settles(file, known, busy) && busy <= n
    ensures !PassBusy(file, n, tokens)
  {
    hide AllKnown;
  }

  /** Where the texts of a pass stand among the texts of all passes. */
  lemma {:induction false} RepeatAt(tokens: seq<string>, k: nat, p: nat, i: nat)
    requires p < k && i < |tokens|
    ensures Start(0, tokens, p) + i < |Repeat(tokens, k)| && Repeat(tokens, k)[Start(0, tokens, p) + i] == tokens[i]
    ensures |Repeat(tokens, k)| == Start(0, tokens, k)
  {
    StartNext(0, tokens, k - 1);
    RepeatLength(tokens, k);
    if p > 0 {
      RepeatAt(tokens, k - 1, p - 1, i);
      assert p * |tokens| == (p - 1) * |tokens| + |tokens|;
    }
  }

  lemma {:induction false} RepeatLength(tokens: seq<string>, k: nat)
    ensures |Repeat(tokens, k)| == Start(0, tokens, k)
    ensures forall t :: t in Repeat(tokens, k) ==> t in tokens
  {
    if k > 0 {
      RepeatLength(tokens, k - 1);
      assert k * |tokens| == (k - 1) * |tokens| + |tokens|;
    }
  }

  /** A controller's text is one word. */
  lemma TokenIsWord(c: Set, t: string)
    requires t in Tokens(c)
    ensures Words(t) == [t]
  {
    TokensHave(c, t);
    assert ' ' !in t && t != "" && t + "" == t;
    WordsStart(t, "");
    NonEmptyOne(t);
  }

  /** Only wanted controllers that the kernel knows are enabled. */
  lemma EnabledIsKnown(file: File, known: set<string>, busy: nat, c: Set, t: string)
    requires Settles(file, known, busy) && Enabled(file, c, t)
    ensures t in Tokens(c) && t in known
  {
    hide Words, Passes, Tokens, Text, Repeat, FallsBack;
    var log, tokens := Writes(file, c), Tokens(c);
    var n :| 0 <= n < |log| && file.write(n, log[n]) == Success && t in Words(log[n]);
    TokensOfText(c);
    RepeatLength(tokens, Passes(file, tokens, 1, ATTEMPTS));
    if n > 0 {
      assert log[n] in Repeat(tokens, Passes(file, tokens, 1, ATTEMPTS));
      TokenIsWord(c, log[n]);
    }
  }

  /** Each of those is, when the kernel settles in time. */
  lemma KnownIsEnabled(file: File, known: set<string>, busy: nat, c: Set, t: string)
    requires Settles(file, known, busy) && busy <= 1 + ATTEMPTS * |Tokens(c)|
    requires t in Tokens(c) && t in known
    ensures Enabled(file, c, t)
  {
    hide Words, Passes, Tokens, Text, Repeat;
    var log, tokens := Writes(file, c), Tokens(c);
    if !FallsBack(file, c) {
      TokensOfText(c);
      assert file.write(0, log[0]) == Success;
    } else {
      hide FallsBack;
      LastPassIsCalm(file, known, busy, tokens, 1, ATTEMPTS);
      var k := Passes(file, tokens, 1, ATTEMPTS);
      var i :| 0 <= i < |tokens| && tokens[i] == t;
      RepeatAt(tokens, k, k - 1, i);
      TokenIsWord(c, t);
      var n := Start(1, tokens, k - 1) + i;
      assert log[n] == t && AllKnown(known, log[n]);
      assert file.write(n, log[n]) == Success;
    }
  }

  /**
  What all this is for. Whatever the kernel knows, and as long as it is not busy for longer than the attempts last, the
  call succeeds and enables exactly the wanted controllers that the kernel knows.
  */
  lemma EnablesWhatIsKnown(file: File, known: set<string>, busy: nat, c: Set)
    requires Settles(file, known, busy) && busy <= 1 + 1000 * |Tokens(c)|
    ensures Outcome(file, c) == Success
    ensures forall t :: Enabled(file, c, t) <==> t in Tokens(c) && t in known
  {
    forall t ensures Enabled(file, c, t) <==> t in Tokens(c) && t in known {
      hide Tokens, Enabled;
      if Enabled(file, c, t) {
        EnabledIsKnown(file, known, busy, c, t);
      }
      if t in Tokens(c) && t in known {
        KnownIsEnabled(file, known, busy, c, t);
      }
    }
  }
}
