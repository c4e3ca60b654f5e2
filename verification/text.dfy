/** Character and integer helpers shared by the cipher modules: the ASCII part of
    `Character.isLetter` and `String.toUpperCase`, Java's truncating `%`, and Java's
    32-bit `int` wrap-around. */
module Text {

  /** `Character.isLetter`, restricted to ASCII. */
  predicate IsLetter(c: char) {
    'A' <= c <= 'Z' || 'a' <= c <= 'z'
  }

  /** Distance of a character from 'A' (`c - 'A'` in the source). */
  function Offset(c: char): int {
    c as int - 'A' as int
  }

  /** `Character.toUpperCase`, restricted to ASCII: every other character is its own
      upper case. */
  function ToUpper(c: char): (u: char)
    ensures IsLetter(c) <==> 'A' <= u <= 'Z'
    ensures !('a' <= u <= 'z')
    ensures !IsLetter(c) ==> u == c
    ensures 'A' <= c <= 'Z' ==> u == c
    ensures IsLetter(c) ==> Offset(u) == Offset(c) % 32
  {
    if 'a' <= c <= 'z' then (c as int - 32) as char else c
  }

  /** `String.toUpperCase`, character by character (ASCII only): the same length, no
      lower-case letter left, each letter replaced by the capital of the same letter
      of the alphabet, and every other character kept in place. */
  function Upper(s: string): (u: string)
    ensures |u| == |s|
    ensures forall i :: 0 <= i < |u| ==> !('a' <= u[i] <= 'z')
    ensures forall i :: 0 <= i < |s| && IsLetter(s[i]) ==>
              'A' <= u[i] <= 'Z' && Offset(u[i]) == Offset(s[i]) % 32
    ensures forall i :: 0 <= i < |s| && !IsLetter(s[i]) ==> u[i] == s[i]
  {
    seq(|s|, i requires 0 <= i < |s| => ToUpper(s[i]))
  }

  /** Upper-casing twice is upper-casing once. */
  lemma UpperIdempotent(s: string)
    ensures Upper(Upper(s)) == Upper(s)
  {
    UpperOfUpper(Upper(s));
  }

  /** Upper-casing leaves a text without lower-case letters unchanged. */
  lemma UpperOfUpper(s: string)
    requires forall i :: 0 <= i < |s| ==> !('a' <= s[i] <= 'z')
    ensures Upper(s) == s
  {
  }

  /** Java's `x % 26`: the remainder takes the sign of `x` (division truncates
      toward zero), unlike Dafny's Euclidean `%`. Every remainder in the ciphers is
      taken modulo 26. */
  function JavaRem26(x: int): (r: int)
    ensures -26 < r < 26
    ensures 0 <= x ==> 0 <= r
    ensures x <= 0 ==> r <= 0
    ensures (x - r) % 26 == 0
  {
    if x >= 0 then x % 26 else -((-x) % 26)
  }

  const TwoTo31: int := 0x8000_0000
  const TwoTo32: int := 0x1_0000_0000

  /** The values of a Java `int`. */
  predicate IsInt32(x: int) {
    -TwoTo31 <= x < TwoTo31
  }

  /** The Java `int` that an exact result `x` wraps around to: the only 32-bit value
      congruent to `x` modulo 2^32. */
  function Wrap32(x: int): (r: int)
    ensures IsInt32(r)
    ensures IsInt32(x) ==> r == x
    ensures (x - r) % TwoTo32 == 0
  {
    (x + TwoTo31) % TwoTo32 - TwoTo31
  }

  /** The remainder modulo `m` is the unique `b` in 0..m-1 with `v == m * a + b`. */
  lemma ModUnique(v: int, m: int, a: int, b: int)
    requires m > 0 && v == m * a + b && 0 <= b < m
    ensures v % m == b
  {
    var k := a - v / m;
    assert m * k == v % m - b by {
      assert v == m * (v / m) + v % m;
    }
    if k > 0 {
      MulAtLeast(m, k);
    } else if k < 0 {
      MulAtLeast(m, -k);
    }
  }

  lemma MulAtLeast(m: nat, k: nat)
    requires k >= 1
    ensures m * k >= m
  {
    if k > 1 {
      MulAtLeast(m, k - 1);
      assert m * k == m * (k - 1) + m;
    }
  }
}
