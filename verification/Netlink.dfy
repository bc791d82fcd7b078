/**
Attributes of netlink messages (section 2.2 of RFC 3549): a length and a type of 16 bits each, in the byte
order of a little-endian host, then the data, padded to a multiple of 4 bytes.
*/
module Netlink {
  import opened Common

  const RTA_HEADER := 4

  function Align(n: nat): (a: nat)
    ensures n <= a < n + 4 && a % 4 == 0
    ensures n % 4 == 0 ==> a == n
  {
    (n + 3) / 4 * 4
  }

  datatype Attr = Attr(kind: nat, data: seq<byte>)

  predicate Fits(a: Attr) { a.kind < 0x1_0000 && RTA_HEADER + |a.data| < 0x1_0000 }

  function U16(x: nat): seq<byte>
    requires x < 0x1_0000
  {
    [x % 256, x / 256]
  }

  function U16At(b: seq<byte>, at: nat): nat
    requires at + 2 <= |b|
  {
    b[at] as int + 256 * b[at + 1] as int
  }

  /** RTA_OK: a header fits, and so does the length it gives. */
  predicate Ok(b: seq<byte>, at: nat, len: int): (ok: bool)
    requires at + len <= |b|
    ensures ok ==> len >= RTA_HEADER
  {
    len >= RTA_HEADER && RTA_HEADER <= U16At(b, at) <= len
  }

  /** The attribute that starts here. */
  function At(b: seq<byte>, at: nat, len: int): Attr
    requires at + len <= |b| && Ok(b, at, len)
  {
    Attr(U16At(b, at + 2), b[at + RTA_HEADER..at + U16At(b, at)])
  }

  /** Walking with RTA_OK and RTA_NEXT, which may leave a negative length. */
  function Walk(b: seq<byte>, at: nat, len: int): seq<Attr>
    requires at + len <= |b|
    decreases len
  {
    if !Ok(b, at, len) then []
    else
      var n := Align(U16At(b, at));
      [At(b, at, len)] + Walk(b, at + n, len - n)
  }

  /** The walk ends exactly at the end. */
  predicate Exact(b: seq<byte>, at: nat, len: int)
    requires at + len <= |b|
    decreases len
  {
    len == 0 || (Ok(b, at, len) && Align(U16At(b, at)) <= len &&
      Exact(b, at + Align(U16At(b, at)), len - Align(U16At(b, at))))
  }

  predicate Agree(b: seq<byte>, c: seq<byte>, from: nat, end: nat)
    requires end <= |b| && end <= |c|
  {
    forall i :: from <= i < end ==> b[i] == c[i]
  }

  lemma AgreeLess(b: seq<byte>, c: seq<byte>, from: nat, end: nat)
    requires end <= |b| && end <= |c| && Agree(b, c, from, end)
    ensures forall k :: from <= k <= end ==> Agree(b, c, k, end)
  {
  }

  lemma SameAt(b: seq<byte>, c: seq<byte>, at: nat, len: int, more: nat)
    requires at + len <= |b| && at + len + more <= |c| && Ok(b, at, len) && Agree(b, c, at, at + len)
    ensures Ok(c, at, len + more) && At(c, at, len + more) == At(b, at, len) && U16At(c, at) == U16At(b, at)
  {
    assert b[at] == c[at] && b[at + 1] == c[at + 1] && b[at + 2] == c[at + 2] && b[at + 3] == c[at + 3];
    var n := U16At(b, at);
    assert b[at + RTA_HEADER..at + n] == c[at + RTA_HEADER..at + n];
  }

  /** One more attribute behind a list that ends exactly. */
  lemma {:induction false} WalkExtend(b: seq<byte>, c: seq<byte>, at: nat, len: nat, m: nat)
    requires at + len <= |b| && at + len + m <= |c| && Exact(b, at, len) && Agree(b, c, at, at + len)
    requires Ok(c, at + len, m) && Align(U16At(c, at + len)) == m
    ensures Walk(c, at, len + m) == Walk(b, at, len) + [At(c, at + len, m)] && Exact(c, at, len + m)
    decreases len
  {
    hide Align, U16At, At, Agree, Ok, Walk, Exact;
    if len == 0 {
      WalkIs(c, at, m);
      NothingLeft(b, at);
      NothingLeft(c, at + m);
    } else {
      WalkIs(b, at, len);
      AgreeLess(b, c, at, at + len);
      var n := Align(U16At(b, at));
      SameAt(b, c, at, len, m);
      WalkIs(c, at, len + m);
      WalkExtend(b, c, at + n, len - n, m);
      Assoc([At(b, at, len)], Walk(b, at + n, len - n), [At(c, at + len, m)]);
    }
  }

  /** One step of the walk. */
  lemma WalkIs(b: seq<byte>, at: nat, len: int)
    requires at + len <= |b|
    ensures !Ok(b, at, len) ==> Walk(b, at, len) == [] && (Exact(b, at, len) ==> len == 0)
    ensures Ok(b, at, len) ==>
      var n := Align(U16At(b, at));
      && n > 0 && At(b, at, len).kind < 0x1_0000 && Walk(b, at, len) == [At(b, at, len)] + Walk(b, at + n, len - n)
      && (Exact(b, at, len) <==> n <= len && Exact(b, at + n, len - n))
  {
  }

  lemma NothingLeft(b: seq<byte>, at: nat)
    requires at <= |b|
    ensures Walk(b, at, 0) == [] && Exact(b, at, 0)
  {
  }

  predicate Shifted(b: seq<byte>, c: seq<byte>, from: int, end: int) {
    0 <= from <= end <= |b| && c == b[from..end]
  }

  lemma ShiftAt(b: seq<byte>, c: seq<byte>, at: int, from: int, end: int)
    requires Shifted(b, c, from, end) && from <= at && at + RTA_HEADER <= end
    ensures |c| == end - from && U16At(c, at - from) == U16At(b, at)
    ensures Ok(c, at - from, end - at) == Ok(b, at, end - at)
    ensures Ok(b, at, end - at) ==> At(c, at - from, end - at) == At(b, at, end - at)
  {
    assert forall i :: at <= i < end ==> c[i - from] == b[i];
    if Ok(b, at, end - at) {
      var n := U16At(b, at);
      assert c[at - from + RTA_HEADER..at - from + n] == b[at + RTA_HEADER..at + n];
    }
  }

  /** A walk depends only on the bytes it covers, not on where they are. */
  lemma {:induction false} WalkShift(b: seq<byte>, c: seq<byte>, at: int, from: int, end: int)
    requires Shifted(b, c, from, end) && from <= at && |c| == end - from && end <= |b| && 0 <= from
    ensures Walk(c, at - from, end - at) == Walk(b, at, end - at)
    decreases end - at
  {
    hide U16At, Align, At, Shifted;
    if end - at >= RTA_HEADER {
      ShiftAt(b, c, at, from, end);
      if Ok(b, at, end - at) {
        WalkShift(b, c, at + Align(U16At(b, at)), from, end);
      }
    }
  }

  /** The bytes of an attribute, without its padding. */
  function Bytes(a: Attr): (s: seq<byte>)
    requires Fits(a)
    ensures |s| == 4 + |a.data|
    ensures s[0] as int + 256 * s[1] as int == |s| && s[2] as int + 256 * s[3] as int == a.kind && s[4..] == a.data
  {
    U16(RTA_HEADER + |a.data|) + U16(a.kind) + a.data
  }

  function Size(a: Attr): nat { Align(RTA_HEADER + |a.data|) }

  function SizeOfAll(attrs: seq<Attr>): nat {
    if attrs == [] then 0 else Size(attrs[0]) + SizeOfAll(attrs[1..])
  }

  /** What was written is read. */
  lemma AtBytes(b: seq<byte>, at: nat, a: Attr)
    requires Fits(a) && at + Size(a) <= |b| && b[at..at + |Bytes(a)|] == Bytes(a)
    ensures Ok(b, at, Size(a)) && U16At(b, at) == RTA_HEADER + |a.data| && At(b, at, Size(a)) == a
  {
    var s := Bytes(a);
    assert forall i :: at <= i < at + |s| ==> b[i] == b[at..at + |s|][i - at];
    assert s[RTA_HEADER..] == a.data;
    assert b[at + RTA_HEADER..at + |s|] == b[at..at + |s|][RTA_HEADER..];
  }
}
