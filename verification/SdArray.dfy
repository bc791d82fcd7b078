/**
Quoted lists in systemd annotations. The parser rewrites its input in place: a character is copied down over
the quotes and backslashes that were taken out in front of it.
*/
module SdArray {
  import opened Common

  predicate IsQuote(c: char) { c == '\'' || c == '"' }

  // ---- The parser on values ----

  /** A string and how many characters stood for it. */
  datatype Scanned = Unclosed | Closed(value: string, length: nat)

  /** Behind the opening quote: up to the closing quote, with a backslash in front of what is taken literally. */
  function Scan(t: string, quote: char, escaped: bool): (r: Scanned)
    ensures r.Closed? ==> |r.value| <= r.length < |t| && t[r.length] == quote
  {
    if t == "" then Unclosed
    else if t[0] == quote && !escaped then Closed("", 0)
    else
      var e := t[0] == '\\' && !escaped;
      Ahead(if e then "" else [t[0]], 1, Scan(t[1..], quote, e))
  }

  function Ahead(value: string, length: nat, r: Scanned): Scanned {
    if r.Closed? then Closed(value + r.value, length + r.length) else Unclosed
  }

  function Spaces(t: string): (n: nat)
    ensures n <= |t| && forall i :: 0 <= i < n ==> IsSpace(t[i])
    ensures n < |t| ==> !IsSpace(t[n])
  {
    if t == "" || !IsSpace(t[0]) then 0 else 1 + Spaces(t[1..])
  }

  /** Nothing left; no list; or a string and what is behind the comma after it. */
  datatype Item = Nothing | Invalid | Item(value: string, next: Option<string>)

  /** What follows a closing quote. */
  function Tail(value: string, t: string): Item {
    var u := t[Spaces(t)..];
    if u == "" || u[0] == ']' then Item(value, None)
    else if u[0] == ',' then Item(value, Some(u[1..]))
    else Invalid
  }

  function Parse(s: string): (r: Item)
    ensures r.Item? && r.next.Some? ==> |r.next.value| < |s|
  {
    var t := s[Spaces(s)..];
    if t == "" then Nothing
    else if !IsQuote(t[0]) then Invalid
    else
      match Scan(t[1..], t[0], false)
      case Unclosed => Invalid
      case Closed(value, n) => Tail(value, t[1..][n + 1..])
  }

  /** The whole list; a list that ends behind a comma is taken as it is. */
  function ParseAll(s: string): Option<seq<string>>
    decreases |s|
  {
    match Parse(s)
    case Nothing => Some([])
    case Invalid => None
    case Item(value, None) => Some([value])
    case Item(value, Some(rest)) =>
      var more := ParseAll(rest);
      if more.None? then None else Some([value] + more.value)
  }

  // ---- Round trip ----

  function Escape(x: string, quote: char): string {
    if x == "" then ""
    else EscapeOne(x[0], quote) + Escape(x[1..], quote)
  }

  /** One string as it may be written: with either quote, and with space around it. */
  datatype Written = Written(value: string, quote: char, before: string, after: string)

  predicate IsBlank(s: string) { forall i :: 0 <= i < |s| ==> IsSpace(s[i]) }

  predicate IsWritten(w: Written) { IsQuote(w.quote) && IsBlank(w.before) && IsBlank(w.after) }

  function Text(w: Written): string {
    w.before + ([w.quote] + (Escape(w.value, w.quote) + ([w.quote] + w.after)))
  }

  /** The list behind its opening bracket. */
  function TextOfAll(list: seq<Written>): string
    requires list != []
  {
    if |list| == 1 then Text(list[0]) + "]" else Text(list[0]) + "," + TextOfAll(list[1..])
  }

  function Values(list: seq<Written>): seq<string> {
    if list == [] then [] else [list[0].value] + Values(list[1..])
  }

  function EscapeOne(c: char, quote: char): string {
    if c == quote || c == '\\' then ['\\', c] else [c]
  }

  lemma ScanOne(c: char, quote: char, u: string)
    requires IsQuote(quote)
    ensures Scan(EscapeOne(c, quote) + u, quote, false) == Ahead([c], |EscapeOne(c, quote)|, Scan(u, quote, false))
  {
    var t := EscapeOne(c, quote) + u;
    if c == quote || c == '\\' {
      assert t[1..] == [c] + u && ([c] + u)[1..] == u;
      assert Scan([c] + u, quote, true) == Ahead([c], 1, Scan(u, quote, false));
    } else {
      assert t == [c] + u && t[1..] == u;
    }
  }

  lemma {:induction false} ScanEscaped(x: string, quote: char, rest: string)
    requires IsQuote(quote)
    ensures Scan(Escape(x, quote) + ([quote] + rest), quote, false) == Closed(x, |Escape(x, quote)|)
  {
    if x == "" {
      assert Escape(x, quote) + ([quote] + rest) == [quote] + rest;
    } else {
      hide Scan, EscapeOne;
      ScanEscaped(x[1..], quote, rest);
      ScanOne(x[0], quote, Escape(x[1..], quote) + ([quote] + rest));
      Assoc(EscapeOne(x[0], quote), Escape(x[1..], quote), [quote] + rest);
    }
  }

  lemma {:induction false} SpacesOf(blank: string, t: string)
    requires IsBlank(blank) && (t == "" || !IsSpace(t[0]))
    ensures Spaces(blank + t) == |blank| && (blank + t)[|blank|..] == t
  {
    if blank != "" {
      assert (blank + t)[1..] == blank[1..] + t;
      SpacesOf(blank[1..], t);
    } else {
      assert blank + t == t;
    }
  }

  lemma ParseText(w: Written, rest: string)
    requires IsWritten(w) && rest != "" && !IsSpace(rest[0])
    ensures Parse(Text(w) + rest) == Tail(w.value, w.after + rest)
  {
    hide Scan, Spaces, Escape, Tail, IsSpace;
    var body := Escape(w.value, w.quote);
    var behind := w.after + rest;
    var t := [w.quote] + (body + ([w.quote] + behind));
    TextAppend(w, rest);
    QuoteIsNoSpace(w.quote);
    SpacesOf(w.before, t);
    ScanEscaped(w.value, w.quote, behind);
    assert t[1..] == body + ([w.quote] + behind);
    assert t[1..][|body| + 1..] == behind;
  }

  lemma TextAppend(w: Written, rest: string)
    ensures Text(w) + rest == w.before + ([w.quote] + (Escape(w.value, w.quote) + ([w.quote] + (w.after + rest))))
  {
    hide Escape;
    var q, body := [w.quote], Escape(w.value, w.quote);
    Assoc(w.before, q + (body + (q + w.after)), rest);
    Assoc(q, body + (q + w.after), rest);
    Assoc(body, q + w.after, rest);
    Assoc(q, w.after, rest);
  }

  lemma SeparatorsAreNoSpace()
    ensures !IsSpace(']') && !IsSpace(',')
  {
  }

  lemma QuoteIsNoSpace(c: char)
    requires IsQuote(c)
    ensures !IsSpace(c)
  {
  }

  lemma TailOf(value: string, blank: string, c: char, rest: string)
    requires IsBlank(blank) && (c == ']' || c == ',')
    ensures Tail(value, blank + ([c] + rest)) == Item(value, if c == ',' then Some(rest) else None)
  {
    hide Spaces;
    SpacesOf(blank, [c] + rest);
    assert ([c] + rest)[1..] == rest;
  }

  /** Every list of strings, however it is quoted and spaced, is read back. */
  lemma {:induction false} RoundTrip(list: seq<Written>)
    requires list != [] && forall i :: 0 <= i < |list| ==> IsWritten(list[i])
    ensures ParseAll(TextOfAll(list)) == Some(Values(list))
  {
    hide Parse, Text, Tail, IsBlank, IsSpace, IsQuote;
    SeparatorsAreNoSpace();
    var w := list[0];
    if |list| == 1 {
      ParseText(w, "]");
      TailOf(w.value, w.after, ']', "");
      assert [']'] + "" == "]";
      assert Parse(TextOfAll(list)) == Item(w.value, None);
      assert Values(list) == [w.value];
    } else {
      var rest := TextOfAll(list[1..]);
      ParseText(w, "," + rest);
      TailOf(w.value, w.after, ',', rest);
      Assoc(Text(w), ",", rest);
      RoundTrip(list[1..]);
    }
  }

  // ---- What is accepted ----

  /** The text between the quotes stands for the value: a backslash for the character behind it, no quote by itself. */
  predicate Spells(body: string, quote: char, value: string) {
    if body == "" then value == ""
    else if body[0] == '\\' then
      |body| >= 2 && value != "" && value[0] == body[1] && Spells(body[2..], quote, value[1..])
    else body[0] != quote && value != "" && value[0] == body[0] && Spells(body[1..], quote, value[1..])
  }

  lemma ScanPlain(t: string, quote: char)
    requires t != "" && IsQuote(quote) && t[0] != quote && t[0] != '\\'
    ensures Scan(t, quote, false) == Ahead([t[0]], 1, Scan(t[1..], quote, false))
  {
  }

  lemma ScanEscape(t: string, quote: char)
    requires t != "" && IsQuote(quote) && t[0] == '\\'
    ensures |t| == 1 ==> Scan(t, quote, false) == Unclosed
    ensures |t| > 1 ==> Scan(t, quote, false) == Ahead([t[1]], 2, Scan(t[2..], quote, false))
  {
    assert Scan(t, quote, false) == Ahead("", 1, Scan(t[1..], quote, true));
    if |t| > 1 {
      assert t[1..][0] == t[1] && t[1..][1..] == t[2..];
      assert Scan(t[1..], quote, true) == Ahead([t[1]], 1, Scan(t[2..], quote, false));
      assert Ahead("", 1, Ahead([t[1]], 1, Scan(t[2..], quote, false))) == Ahead([t[1]], 2, Scan(t[2..], quote, false));
    }
  }

  lemma AheadIs(c: char, length: nat, r: Scanned, value: string, n: nat)
    ensures Ahead([c], length, r) == Closed(value, n) <==>
            value != "" && value[0] == c && n >= length && r == Closed(value[1..], n - length)
  {
    if r.Closed? {
      assert ([c] + r.value)[1..] == r.value;
    }
    if value != "" {
      assert value == [value[0]] + value[1..];
    }
  }

  /** The first character of the text, or the first two. */
  lemma SpellsFirst(t: string, quote: char, value: string, n: nat)
    requires 0 < n < |t| && IsQuote(quote)
    ensures t[0] == quote ==> !Spells(t[..n], quote, value)
    ensures t[0] != quote && t[0] != '\\' ==>
      (Spells(t[..n], quote, value) <==> value != "" && value[0] == t[0] && Spells(t[1..][..n - 1], quote, value[1..]))
    ensures t[0] == '\\' && n >= 2 ==>
      (Spells(t[..n], quote, value) <==> value != "" && value[0] == t[1] && Spells(t[2..][..n - 2], quote, value[1..]))
    ensures t[0] == '\\' && n == 1 ==> !Spells(t[..n], quote, value)
  {
    var body := t[..n];
    assert body[0] == t[0] && body[1..] == t[1..][..n - 1];
    assert n >= 2 ==> body[1] == t[1] && body[2..] == t[2..][..n - 2];
  }

  /** A string is found exactly where a closing quote stands behind a text that spells it. */
  lemma {:induction false} ScanIs(t: string, quote: char, value: string, n: nat)
    requires IsQuote(quote)
    ensures Scan(t, quote, false) == Closed(value, n) <==> n < |t| && t[n] == quote && Spells(t[..n], quote, value)
    decreases |t|
  {
    if 0 < n < |t| {
      SpellsFirst(t, quote, value, n);
    }
    if t != "" && t[0] == '\\' {
      ScanEscape(t, quote);
      hide Scan, Ahead, Spells;
      if |t| > 1 {
        AheadIs(t[1], 2, Scan(t[2..], quote, false), value, n);
        if n >= 2 && value != "" {
          ScanIs(t[2..], quote, value[1..], n - 2);
        }
      }
    } else if t != "" && t[0] != quote {
      ScanPlain(t, quote);
      hide Scan, Ahead, Spells;
      AheadIs(t[0], 1, Scan(t[1..], quote, false), value, n);
      if n >= 1 && value != "" {
        ScanIs(t[1..], quote, value[1..], n - 1);
      }
    }
  }

  /** Nothing is left exactly of a blank text. */
  lemma NothingIsBlank(s: string)
    ensures Parse(s) == Nothing <==> IsBlank(s)
  {
    hide Scan;
  }

  lemma BlankAhead(s: string) returns (blank: string, rest: string)
    ensures blank == s[..Spaces(s)] && rest == s[Spaces(s)..] && s == blank + rest && IsBlank(blank)
  {
    hide IsSpace;
    blank, rest := s[..Spaces(s)], s[Spaces(s)..];
  }

  /** Whatever is accepted is a quoted string with space around it, in front of the end, a bracket or a comma. */
  lemma AcceptedIs(s: string) returns (before: string, quote: char, body: string, after: string, tail: string)
    requires Parse(s).Item?
    ensures s == before + ([quote] + (body + ([quote] + (after + tail))))
    ensures IsBlank(before) && IsQuote(quote) && Spells(body, quote, Parse(s).value) && IsBlank(after)
    ensures Parse(s).next == if tail != "" && tail[0] == ',' then Some(tail[1..]) else None
    ensures tail == "" || tail[0] == ']' || tail[0] == ','
  {
    hide Parse, Scan, Tail, Spaces, IsSpace, IsBlank, Spells;
    var t, n;
    before, t, n := ParseParts(s);
    quote, body := t[0], t[1..][..n];
    ScanIs(t[1..], quote, Scan(t[1..], quote, false).value, n);
    QuotedParts(t, n);
    after, tail := TailParts(Scan(t[1..], quote, false).value, t[1..][n + 1..]);
  }

  lemma ParseParts(s: string) returns (before: string, t: string, n: nat)
    requires Parse(s).Item?
    ensures s == before + t && IsBlank(before) && t != "" && IsQuote(t[0]) && n + 1 < |t| && t[n + 1] == t[0]
    ensures var r := Scan(t[1..], t[0], false);
            r.Closed? && r.length == n && Parse(s) == Tail(r.value, t[1..][n + 1..])
  {
    hide Scan, Tail, IsBlank;
    before, t := BlankAhead(s);
    n := Scan(t[1..], t[0], false).length;
  }

  lemma TailParts(value: string, u: string) returns (after: string, tail: string)
    requires Tail(value, u).Item?
    ensures u == after + tail && IsBlank(after) && Tail(value, u).value == value
    ensures Tail(value, u).next == if tail != "" && tail[0] == ',' then Some(tail[1..]) else None
    ensures tail == "" || tail[0] == ']' || tail[0] == ','
  {
    hide IsBlank;
    after, tail := BlankAhead(u);
  }

  lemma QuotedParts(t: string, n: nat)
    requires n + 1 < |t| && t[n + 1] == t[0]
    ensures t == [t[0]] + (t[1..][..n] + ([t[0]] + t[1..][n + 1..]))
  {
  }
}
