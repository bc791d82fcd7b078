/** Small things several modules share. */
module Common {
  datatype Option<+T> = None | Some(value: T)

  lemma Assoc<T>(a: seq<T>, b: seq<T>, c: seq<T>)
    ensures a + b + c == a + (b + c)
  {
  }

  /** The number of characters in front of the first one like this. */
  function Find(s: string, c: char): (n: nat)
    ensures n <= |s|
    ensures forall i :: 0 <= i < n ==> s[i] != c
    ensures n < |s| ==> s[n] == c
  {
    if s == "" || s[0] == c then 0 else 1 + Find(s[1..], c)
  }

  lemma {:induction false} FindIs(s: string, c: char, n: nat)
    requires n <= |s| && (forall i :: 0 <= i < n ==> s[i] != c) && (n < |s| ==> s[n] == c)
    ensures Find(s, c) == n
  {
    if n > 0 {
      FindIs(s[1..], c, n - 1);
    }
  }

  /** The text of a C string. */
  predicate NulFree(s: string) {
    forall i :: 0 <= i < |s| ==> s[i] != '\0'
  }

  /** What C sees of a text: up to the first NUL. */
  function UntilNul(s: string): (t: string)
    ensures |t| <= |s| && t == s[..|t|] && (|t| < |s| ==> s[|t|] == '\0')
    ensures NulFree(t)
  {
    if s == "" || s[0] == '\0' then "" else [s[0]] + UntilNul(s[1..])
  }

  lemma {:induction false} UntilNulIsClean(s: string)
    requires NulFree(s)
    ensures UntilNul(s) == s
  {
    if s != "" {
      UntilNulIsClean(s[1..]);
    }
  }

  type byte = x: int | 0 <= x < 256

  /** A C int. */
  type int32 = x: int | -0x8000_0000 <= x < 0x8000_0000

  /** Conversion of a wider number to a C int. */
  function ToInt(x: int): (r: int32)
    ensures -0x8000_0000 <= x < 0x8000_0000 ==> r == x
    ensures (x - r) % 0x1_0000_0000 == 0
  {
    (x + 0x8000_0000) % 0x1_0000_0000 - 0x8000_0000
  }

  /** isspace in the C locale. */
  predicate IsSpace(c: char) { c in {' ', '\t', '\n', '\U{0B}', '\U{0C}', '\r'} }
}
