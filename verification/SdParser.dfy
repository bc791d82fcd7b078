/** The parser of quoted lists on its buffer. The write position never passes the read position. */
module SdParser {
  import opened Common
  import opened SdArray

  /** From `from` to `end` there is text, and NUL behind it. */
  ghost predicate Holds(b: string, from: nat, end: nat) {
    from <= end < |b| && b[end] == '\0' && forall i :: from <= i < end ==> b[i] != '\0'
  }

  /** A string inside the buffer. */
  ghost predicate HoldsString(b: string, at: nat, value: string) {
    at + |value| < |b| && b[at..at + |value|] == value && b[at + |value|] == '\0' && NulFree(value)
  }

  /** In the middle of a string: what is in front of it and what is still to be read is untouched. */
  ghost predicate Scanning(all: string, b: string, from: nat, end: nat, dest: nat, it: nat, quote: char,
    escaped: bool) {
    && |b| == |all| && from <= dest <= it <= end < |all|
    && b[..from] == all[..from] && b[it..] == all[it..]
    && Scan(all[from..end], quote, false) == Progress(b[from..dest], all[from..end], it - from, quote, escaped)
  }

  lemma ScanningBegins(all: string, from: nat, end: nat, quote: char)
    requires from <= end < |all|
    ensures Scanning(all, all, from, end, from, from, quote, false)
  {
    Begin(all[from..end], quote);
  }

  /** One character: a backslash that is not escaped itself is dropped, anything else is copied down. */
  lemma ScanningStep(all: string, b: string, from: nat, end: nat, dest: nat, it: nat, quote: char, escaped: bool)
    requires Scanning(all, b, from, end, dest, it, quote, escaped) && it < end && !(b[it] == quote && !escaped)
    ensures var e := b[it] == '\\' && !escaped;
            if e then Scanning(all, b, from, end, dest, it + 1, quote, e)
            else Scanning(all, b[dest := b[it]], from, end, dest + 1, it + 1, quote, e)
  {
    hide Scan, Progress;
    assert b[it] == b[it..][0] == all[from..end][it - from];
    Step(b[from..dest], all[from..end], it - from, quote, escaped);
    assert b[it + 1..] == b[it..][1..] && all[it + 1..] == all[it..][1..];
    var c := b[dest := b[it]];
    assert c[..from] == b[..from] && c[it + 1..] == b[it + 1..] && c[from..dest + 1] == b[from..dest] + [b[it]];
  }

  lemma ScanningEnds(all: string, b: string, from: nat, end: nat, dest: nat, it: nat, quote: char, escaped: bool)
    requires Scanning(all, b, from, end, dest, it, quote, escaped)
    ensures b[it] == all[it] && b[..from] == all[..from] && b[it..] == all[it..]
    ensures it == end ==> Scan(all[from..end], quote, false) == Unclosed
    ensures it < end && b[it] == quote && !escaped ==>
      Scan(all[from..end], quote, false) == Closed(b[from..dest], it - from)
  {
    hide Scan, Progress;
    assert b[it] == b[it..][0] && all[it] == all[it..][0];
    assert it < end ==> all[from..end][it - from] == all[it];
    Step(b[from..dest], all[from..end], it - from, quote, escaped);
  }

  /** The string behind the opening quote is copied down over its backslashes. */
  method ScanInPlace(buffer: array<char>, from: nat, quote: char, ghost end: nat)
    returns (closed: bool, it: nat, dest: nat)
    requires Holds(buffer[..], from, end) && quote != '\0'
    modifies buffer
    ensures var r := Scan(old(buffer[from..end]), quote, false);
            && closed == r.Closed?
            && (closed ==>
              it == from + r.length < end && dest == from + |r.value| <= it && buffer[from..dest] == r.value)
    ensures buffer[..from] == old(buffer[..from])
    ensures closed ==> buffer[it..] == old(buffer[it..])
  {
    hide Scan, Scanning;
    ghost var all := buffer[..];
    it, dest := from, from;
    var escaped := false;
    ScanningBegins(all, from, end, quote);
    while buffer[it] != '\0' && !(buffer[it] == quote && !escaped)
      invariant from <= dest <= it <= end < buffer.Length
      invariant Scanning(all, buffer[..], from, end, dest, it, quote, escaped)
      decreases end - it
    {
      ghost var b := buffer[..];
      ScanningEnds(all, b, from, end, dest, it, quote, escaped);
      ScanningStep(all, b, from, end, dest, it, quote, escaped);
      escaped := if buffer[it] == '\\' then !escaped else false;
      if !escaped {
        buffer[dest] := buffer[it];
        assert buffer[..] == b[dest := b[it]];
        dest := dest + 1;
      }
      it := it + 1;
    }
    ScanningEnds(all, buffer[..], from, end, dest, it, quote, escaped);
    closed := buffer[it] != '\0';
  }

  /** What the scan gives in the end, when `value` has been read from the first `k` characters. */
  ghost function Progress(value: string, text: string, k: nat, quote: char, escaped: bool): Scanned
    requires k <= |text|
  {
    Ahead(value, k, Scan(text[k..], quote, escaped))
  }

  lemma Begin(text: string, quote: char)
    ensures Progress("", text, 0, quote, false) == Scan(text, quote, false)
  {
    assert text[0..] == text;
  }

  lemma Step(value: string, text: string, k: nat, quote: char, escaped: bool)
    requires k <= |text|
    ensures k == |text| ==> Progress(value, text, k, quote, escaped) == Unclosed
    ensures k < |text| && text[k] == quote && !escaped ==> Progress(value, text, k, quote, escaped) == Closed(value, k)
    ensures k < |text| && !(text[k] == quote && !escaped) ==>
      var e := text[k] == '\\' && !escaped;
      Progress(value, text, k, quote, escaped)
        == Progress(if e then value else value + [text[k]], text, k + 1, quote, e)
  {
    if k < |text| {
      var e := text[k] == '\\' && !escaped;
      var rest := Scan(text[k + 1..], quote, e);
      assert text[k..][1..] == text[k + 1..] && text[k..][0] == text[k];
      if rest.Closed? {
        Assoc(value, if e then "" else [text[k]], rest.value);
        assert value + "" == value;
      }
    }
  }

  /** Nothing left; no list; or where the string is, and where the next one starts. */
  datatype Slot = NoSlot | BadSlot | Slot(out: nat, next: Option<nat>)

  method SkipSpaces(buffer: array<char>, from: nat, ghost end: nat) returns (k: nat)
    requires Holds(buffer[..], from, end)
    ensures k == from + Spaces(buffer[..][from..end]) <= end
    ensures buffer[k] == '\0' <==> k == end
  {
    ghost var b := buffer[..];
    ghost var text := b[from..end];
    k := from;
    while IsSpace(buffer[k])
      invariant from <= k <= end && forall i :: 0 <= i < k - from ==> IsSpace(text[i])
      decreases end - k
    {
      k := k + 1;
    }
    assert buffer[k] == b[k] && (k < end ==> b[k] == text[k - from]);
    assert k - from == Spaces(text) by { hide IsSpace; }
  }

  lemma {:induction false} ScanIsClean(t: string, quote: char, escaped: bool)
    requires NulFree(t)
    ensures var r := Scan(t, quote, escaped); r.Closed? ==> NulFree(r.value)
  {
    if t != "" && !(t[0] == quote && !escaped) {
      var e := t[0] == '\\' && !escaped;
      ScanIsClean(t[1..], quote, e);
      var rest := Scan(t[1..], quote, e);
      if rest.Closed? {
        assert NulFree((if e then "" else [t[0]]) + rest.value);
      }
    }
  }

  /** How the slot and the buffer show an item; nothing in front of `s` has changed. */
  ghost predicate Shows(item: Item, slot: Slot, before: string, b: string, s: nat, end: nat)
  {
    && slot.NoSlot? == item.Nothing? && slot.BadSlot? == item.Invalid?
    && s <= |before| == |b| && b[..s] == before[..s]
    && (slot.Slot? ==>
          && s < slot.out && HoldsString(b, slot.out, item.value)
          && slot.next.Some? == item.next.Some?
          && (slot.next.Some? ==> slot.out + |item.value| < slot.next.value && Holds(b, slot.next.value, end)
                                  && b[slot.next.value..end] == item.next.value))
  }

  /** The string has been copied to `from`; its closing quote is at `it`. */
  ghost predicate AtQuote(all: string, b: string, s: nat, from: nat, dest: nat, it: nat, end: nat) {
    && s < from <= dest <= it < end < |b| == |all| && b[..s] == all[..s] && b[it..] == all[it..]
    && Holds(all, it, end) && NulFree(b[from..dest])
  }

  /** With the quote and the end of the string overwritten, the string is in its place and the rest is untouched. */
  lemma ClosedShows(all: string, b: string, s: nat, from: nat, dest: nat, it: nat, end: nat)
    requires AtQuote(all, b, s, from, dest, it, end)
    ensures var c := b[it := '\0'];
            var d := c[dest := '\0'];
            && Holds(c, it + 1, end) && c[it + 1..end] == all[it + 1..end]
            && HoldsString(d, from, b[from..dest]) && d[..s] == all[..s] && c[..s] == all[..s]
            && forall k :: it < k <= end ==> Holds(d, k, end) && d[k..end] == all[k..end]
  {
    var c := b[it := '\0'];
    var d := c[dest := '\0'];
    assert forall i :: it < i < |b| ==> b[i] == b[it..][i - it] && all[i] == all[it..][i - it];
    assert d[from..dest] == b[from..dest];
    forall k | it < k <= end ensures d[k..end] == all[k..end] {}
  }

  lemma TailAt(all: string, it: nat, end: nat, value: string, k: nat)
    requires it < end < |all| && k == it + 1 + Spaces(all[it + 1..end]) <= end
    ensures Tail(value, all[it + 1..end]) ==
            if k == end || all[k] == ']' then Item(value, None)
            else if all[k] == ',' then Item(value, Some(all[k + 1..end]))
            else Invalid
  {
    hide Spaces;
    var t := all[it + 1..end];
    assert t[k - it - 1..] == all[k..end];
    assert k < end ==> all[k..end][1..] == all[k + 1..end];
  }

  /** The character behind the spaces decides. */
  lemma CloseShows(all: string, b: string, s: nat, from: nat, dest: nat, it: nat, end: nat, k: nat)
    requires AtQuote(all, b, s, from, dest, it, end) && k == it + 1 + Spaces(all[it + 1..end]) <= end
    ensures var item, c := Tail(b[from..dest], all[it + 1..end]), b[it := '\0'];
            var d := c[dest := '\0'];
            if k == end || all[k] == ']' then Shows(item, Slot(from, None), all, d, s, end)
            else if all[k] == ',' then Shows(item, Slot(from, Some(k + 1)), all, d, s, end)
            else Shows(item, BadSlot, all, c, s, end)
    ensures k < end ==> b[it := '\0'][k] == all[k]
  {
    ClosedShows(all, b, s, from, dest, it, end);
    TailAt(all, it, end, b[from..dest], k);
    hide Spaces, Tail, Holds, HoldsString;
    assert k < end ==> b[it := '\0'][it + 1..end][k - it - 1] == all[it + 1..end][k - it - 1];
  }

  /** Behind the closing quote. */
  method Close(buffer: array<char>, ghost s: nat, from: nat, it: nat, dest: nat, ghost end: nat, ghost all: string)
    returns (slot: Slot)
    requires AtQuote(all, buffer[..], s, from, dest, it, end)
    modifies buffer
    ensures Shows(Tail(old(buffer[..])[from..dest], all[it + 1..end]), slot, all, buffer[..], s, end)
  {
    ghost var b := buffer[..];
    ClosedShows(all, b, s, from, dest, it, end);
    hide AtQuote, Spaces, Tail, Holds, HoldsString, Shows;
    buffer[it] := '\0';
    assert buffer[..] == b[it := '\0'];
    var k := SkipSpaces(buffer, it + 1, end);
    CloseShows(all, b, s, from, dest, it, end, k);
    assert buffer[k] == b[it := '\0'][k];
    if buffer[k] == ',' {
      slot := Slot(from, Some(k + 1));
      buffer[dest] := '\0';
      assert buffer[..] == b[it := '\0'][dest := '\0'];
    } else if buffer[k] == ']' || buffer[k] == '\0' {
      slot := Slot(from, None);
      buffer[dest] := '\0';
      assert buffer[..] == b[it := '\0'][dest := '\0'];
    } else {
      slot := BadSlot;
    }
  }

  /** parse_sd_array. */
  method ParseItem(buffer: array<char>, s: nat, ghost end: nat) returns (slot: Slot)
    requires Holds(buffer[..], s, end)
    modifies buffer
    ensures Shows(Parse(old(buffer[..])[s..end]), slot, old(buffer[..]), buffer[..], s, end)
  {
    hide Scan, Spaces, Tail, HoldsString;
    ghost var all := buffer[..];
    var k := SkipSpaces(buffer, s, end);
    ParseAt(all, s, end, k);
    if buffer[k] == '\0' {
      return NoSlot;
    }
    if buffer[k] != '\'' && buffer[k] != '"' {
      return BadSlot;
    }
    var closed, it, dest := ScanInPlace(buffer, k + 1, buffer[k], end);
    ghost var b := buffer[..];
    assert b[..s] == b[..k + 1][..s] && all[..s] == all[..k + 1][..s];
    if !closed {
      return BadSlot;
    }
    assert b[k + 1..dest] == buffer[k + 1..dest];
    slot := Close(buffer, s, k + 1, it, dest, end, all);
  }

  /** Where the opening quote should be. */
  lemma ParseAt(all: string, s: nat, end: nat, k: nat)
    requires Holds(all, s, end) && k == s + Spaces(all[s..end]) <= end
    ensures k == end ==> Parse(all[s..end]) == Nothing
    ensures k < end && !IsQuote(all[k]) ==> Parse(all[s..end]) == Invalid
    ensures k < end && IsQuote(all[k]) ==>
      var r := Scan(all[k + 1..end], all[k], false);
      && Parse(all[s..end]) == (if r.Closed? then Tail(r.value, all[k + r.length + 2..end]) else Invalid)
      && (r.Closed? ==> NulFree(r.value))
  {
    hide Scan, Spaces, Tail;
    var text := all[s..end];
    assert text[k - s..] == all[k..end];
    if k < end {
      var t := all[k + 1..end];
      assert all[k..end][1..] == t;
      ScanIsClean(t, all[k], false);
      var r := Scan(t, all[k], false);
      assert r.Closed? ==> t[r.length + 1..] == all[k + r.length + 2..end];
    }
  }

  /** The strings found so far, all in front of `limit`. */
  ghost predicate HoldsAll(b: string, parts: seq<nat>, values: seq<string>, limit: nat) {
    |parts| == |values| && forall i :: 0 <= i < |parts| ==>
      parts[i] + |values[i]| < limit && HoldsString(b, parts[i], values[i])
  }

  lemma StringStays(b: string, c: string, s: nat, at: nat, value: string)
    requires HoldsString(b, at, value) && at + |value| < s <= |b| == |c| && c[..s] == b[..s]
    ensures HoldsString(c, at, value)
  {
    assert forall i :: 0 <= i < s ==> c[i] == c[..s][i] && b[i] == b[..s][i];
  }

  /** Parsing the next item overwrites none of the earlier ones. */
  lemma PartsStay(b: string, c: string, s: nat, parts: seq<nat>, values: seq<string>)
    requires HoldsAll(b, parts, values, s) && s <= |b| == |c| && c[..s] == b[..s]
    ensures HoldsAll(c, parts, values, s)
  {
    hide HoldsString;
    forall i | 0 <= i < |parts| ensures HoldsString(c, parts[i], values[i]) {
      StringStays(b, c, s, parts[i], values[i]);
    }
  }

  /** What one more item adds. */
  lemma PartAdded(b: string, parts: seq<nat>, values: seq<string>, s: nat, at: nat, value: string, limit: nat)
    requires HoldsAll(b, parts, values, s) && s <= limit && at + |value| < limit && HoldsString(b, at, value)
    ensures HoldsAll(b, parts + [at], values + [value], limit)
  {
    hide HoldsString;
  }

  /** The values found so far, and then the rest of the list. */
  ghost function More(values: seq<string>, rest: Option<seq<string>>): Option<seq<string>> {
    if rest.None? then None else Some(values + rest.value)
  }

  lemma MoreMore(values: seq<string>, value: string, rest: Option<seq<string>>)
    ensures More(values, More([value], rest)) == More(values + [value], rest)
  {
    if rest.Some? {
      Assoc(values, [value], rest.value);
    }
  }

  /** In the middle of a list: the strings found so far are in place, and `part` is where the rest starts. */
  ghost predicate Parsing(text: string, b: string, parts: seq<nat>, values: seq<string>, part: Option<nat>,
    limit: nat) {
    && |b| == |text| + 1 && limit <= |b| && HoldsAll(b, parts, values, limit)
    && (part.Some? ==> part.value == limit && Holds(b, limit, |text|))
    && ParseAll(text) == More(values, if part.Some? then ParseAll(b[limit..|text|]) else Some([]))
  }

  lemma ParsingBegins(text: string, b: string)
    requires |b| == |text| + 1 && b[..|text|] == text && b[|text|] == '\0' && NulFree(text)
    ensures Parsing(text, b, [], [], Some(0), 0)
  {
    hide ParseAll;
    assert b[0..|text|] == text;
    assert forall i :: 0 <= i < |text| ==> b[i] == text[i];
    if ParseAll(text).Some? {
      assert [] + ParseAll(text).value == ParseAll(text).value;
    }
  }

  lemma AllStep(t: string)
    ensures var item := Parse(t);
            && (item.Nothing? ==> ParseAll(t) == Some([])) && (item.Invalid? ==> ParseAll(t) == None)
            && (item.Item? ==> ParseAll(t) == More([item.value], if item.next.Some? then ParseAll(item.next.value)
              else Some([])))
  {
    hide Parse;
    var item := Parse(t);
    assert item.Item? ==> [item.value] + [] == [item.value];
  }

  lemma ParsingEnds(text: string, b: string, parts: seq<nat>, values: seq<string>, limit: nat)
    requires Parsing(text, b, parts, values, None, limit)
    ensures ParseAll(text) == Some(values)
    ensures |parts| == |values| && forall i :: 0 <= i < |parts| ==> HoldsString(b, parts[i], values[i])
  {
    hide ParseAll, HoldsString;
    assert values + [] == values;
  }

  /** One item of the list. */
  lemma ParsingStep(text: string, b: string, c: string, parts: seq<nat>, values: seq<string>, limit: nat, slot: Slot)
    returns (values': seq<string>, limit': nat)
    requires Parsing(text, b, parts, values, Some(limit), limit) &&
      Shows(Parse(b[limit..|text|]), slot, b, c, limit, |text|)
    ensures slot.BadSlot? ==> ParseAll(text) == None
    ensures slot.NoSlot? ==> Parsing(text, c, parts, values', None, limit')
    ensures slot.Slot? ==> Parsing(text, c, parts + [slot.out], values', slot.next, limit')
    ensures slot.Slot? && slot.next.Some? ==>
      slot.next.value == limit' && limit < limit' <= |text| && Holds(c, limit', |text|)
  {
    hide Parse, ParseAll, HoldsString, HoldsAll;
    PartsStay(b, c, limit, parts, values);
    AllStep(b[limit..|text|]);
    values', limit' := values, limit;
    if slot.Slot? {
      var value := Parse(b[limit..|text|]).value;
      limit' := if slot.next.Some? then slot.next.value else slot.out + |value| + 1;
      values' := values + [value];
      SlotLimit(c, slot.out, value);
      PartAdded(c, parts, values, limit, slot.out, value, limit');
      MoreMore(values, value, if slot.next.Some? then ParseAll(c[limit'..|text|]) else Some([]));
    }
  }

  lemma SlotLimit(b: string, at: nat, value: string)
    requires HoldsString(b, at, value)
    ensures at + |value| < |b|
  {
  }

  method ReadString(buffer: array<char>, at: nat, ghost value: string) returns (s: string)
    requires HoldsString(buffer[..], at, value)
    ensures s == value
  {
    assert buffer[at..at + |value|] == value;
    assert forall i :: at <= i < at + |value| ==> buffer[i] == value[i - at];
    var n := 0;
    while buffer[at + n] != '\0'
      invariant n <= |value|
      decreases |value| - n
    {
      n := n + 1;
    }
    s := buffer[at..at + n];
  }

  method ReadStrings(buffer: array<char>, parts: seq<nat>, ghost values: seq<string>) returns (found: seq<string>)
    requires |parts| == |values| && forall i :: 0 <= i < |parts| ==> HoldsString(buffer[..], parts[i], values[i])
    ensures found == values
  {
    hide HoldsString;
    found := [];
    for i := 0 to |parts|
      invariant found == values[..i]
    {
      var value := ReadString(buffer, parts[i], values[i]);
      found := found + [value];
    }
  }

  /** The loop over a list: where each string is. */
  method ParseParts(buffer: array<char>, text: string) returns (ok: bool, parts: seq<nat>, ghost values: seq<string>)
    requires buffer.Length == |text| + 1 && buffer[..][..|text|] == text && buffer[|text|] == '\0' && NulFree(text)
    modifies buffer
    ensures ok ==> |parts| == |values| && ParseAll(text) == Some(values)
    ensures ok ==> forall i :: 0 <= i < |parts| ==> HoldsString(buffer[..], parts[i], values[i])
    ensures !ok ==> ParseAll(text) == None
  {
    ParsingBegins(text, buffer[..]);
    hide Parse, ParseAll, HoldsString, HoldsAll, Shows;
    var part: Option<nat> := Some(0);
    ghost var limit: nat := 0;
    parts, values := [], [];
    while part.Some?
      invariant Parsing(text, buffer[..], parts, values, part, limit)
      decreases part.Some?, |text| - limit
    {
      ghost var b := buffer[..];
      var slot := ParseItem(buffer, part.value, |text|);
      values, limit := ParsingStep(text, b, buffer[..], parts, values, limit, slot);
      if slot.BadSlot? {
        return false, parts, values;
      }
      part := None;
      if slot.Slot? {
        parts, part := parts + [slot.out], slot.next;
      }
    }
    ParsingEnds(text, buffer[..], parts, values, limit);
    ok := true;
  }

  /** A list: every string is still in its place when the last one has been parsed. */
  method ParseList(text: string) returns (strings: Option<seq<string>>)
    requires NulFree(text)
    ensures strings == ParseAll(text)
  {
    hide ParseAll, HoldsString;
    var buffer := new char[|text| + 1];
    forall i | 0 <= i < |text| {
      buffer[i] := text[i];
    }
    buffer[|text|] := '\0';
    assert buffer[..][..|text|] == text;
    var ok, parts, values := ParseParts(buffer, text);
    if !ok {
      return None;
    }
    var found := ReadStrings(buffer, parts, values);
    strings := Some(found);
  }
}
