/** The affine cipher of `encryptAffine` / `decryptAffine`. A letter with
    `x = c - 'A'` encrypts to `(a*x + b) % 26` and decrypts with the caller's inverse
    `c` as `((c*(y - b)) % 26 + 26) % 26`. Neither direction upper-cases its input,
    the arithmetic is Java's 32-bit `int` with its truncating `%`, `encryptAffine`
    does not use `c` and `decryptAffine` does not use `a`. */
module Affine {
  import opened Text

  /** One character of `encryptAffine`. */
  function EncryptChar(ch: char, a: int, b: int): (r: char)
    ensures !IsLetter(ch) ==> r == ch
  {
    if IsLetter(ch) then
      var x := Offset(ch);
      var y := JavaRem26(Wrap32(Wrap32(a * x) + b));
      ('A' as int + y) as char
    else ch
  }

  /** One character of `decryptAffine`: whatever `b` and `c` are, a letter becomes a
      capital letter. */
  function DecryptChar(ch: char, b: int, c: int): (r: char)
    ensures !IsLetter(ch) ==> r == ch
    ensures IsLetter(ch) ==> 'A' <= r <= 'Z'
  {
    if IsLetter(ch) then
      var y := Offset(ch);
      var x := Wrap32(c * Wrap32(y - b));
      ('A' as int + JavaRem26(JavaRem26(x) + 26)) as char
    else ch
  }

  /** `encryptAffine` as a specification. */
  function Encrypt(s: string, a: int, b: int, c: int): (r: string)
    ensures |r| == |s|
  {
    seq(|s|, i requires 0 <= i < |s| => EncryptChar(s[i], a, b))
  }

  /** `decryptAffine` as a specification. */
  function Decrypt(s: string, a: int, b: int, c: int): (r: string)
    ensures |r| == |s|
  {
    seq(|s|, i requires 0 <= i < |s| => DecryptChar(s[i], b, c))
  }

  /** Both directions keep every non-letter where it is, and decryption turns every
      letter into a capital letter. */
  lemma {:induction false} NonLettersKept(s: string, a: int, b: int, c: int, i: nat)
    requires i < |s|
    ensures !IsLetter(s[i]) ==> Encrypt(s, a, b, c)[i] == s[i] && Decrypt(s, a, b, c)[i] == s[i]
    ensures IsLetter(s[i]) ==> 'A' <= Decrypt(s, a, b, c)[i] <= 'Z'
  {
    assert Encrypt(s, a, b, c)[i] == EncryptChar(s[i], a, b);
    assert Decrypt(s, a, b, c)[i] == DecryptChar(s[i], b, c);
  }

  /** Parameters small enough that no product or sum of the cipher leaves the 32-bit
      range, and with `c` the inverse of `a` modulo 26. */
  predicate InverseKey(a: int, b: int, c: int) {
    0 <= a < 0x8000 && 0 <= b < 0x8000 && 0 <= c < 0x8000 && (a * c) % 26 == 1
  }

  lemma MulBelow(m: nat, k: nat, bound: nat, kmax: nat)
    requires m < bound && k <= kmax
    ensures m * k <= bound * kmax
  {
    if k > 0 {
      MulBelow(m, k - 1, bound, kmax);
      assert m * k == m * (k - 1) + m;
      assert bound * kmax >= bound * (kmax - 1) + m;
    }
  }

  /** With non-negative parameters below 2^15 nothing overflows: a letter encrypts to
      the capital at `(a*x + b) mod 26`. */
  lemma EncryptLetter(ch: char, a: int, b: int)
    requires IsLetter(ch) && 0 <= a < 0x8000 && 0 <= b < 0x8000
    ensures 'A' <= EncryptChar(ch, a, b) <= 'Z'
    ensures Offset(EncryptChar(ch, a, b)) == (a * Offset(ch) + b) % 26
  {
    EncryptOffset(a, b, Offset(ch));
  }

  /** The arithmetic of `EncryptLetter`. */
  lemma EncryptOffset(a: int, b: int, x: int)
    requires 0 <= a < 0x8000 && 0 <= b < 0x8000 && 0 <= x <= 57
    ensures JavaRem26(Wrap32(Wrap32(a * x) + b)) == (a * x + b) % 26
  {
    var t := a * x;
    assert 0 <= t <= 0x8000 * 57 by {
      MulBelow(a, x, 0x8000, 57);
    }
    assert Wrap32(t) == t;
    NoWrap(t + b);
  }

  /** A non-negative `int` is its own wrap-around and its own Java remainder. */
  lemma NoWrap(u: int)
    requires 0 <= u < TwoTo31
    ensures JavaRem26(Wrap32(u)) == u % 26
  {
  }

  lemma ProductInRange(c: int, y: int, b: int)
    requires 0 <= c < 0x8000 && 0 <= y < 26 && 0 <= b < 0x8000
    ensures IsInt32(c * (y - b))
  {
    if y - b >= 0 {
      MulBelow(c, y - b, 0x8000, 25);
    } else {
      MulBelow(c, b - y, 0x8000, 0x8000);
      assert c * (y - b) == -(c * (b - y));
    }
  }

  /** The value a letter comes back as after a round trip: its offset from 'A'
      reduced modulo 26, so a capital comes back as itself and a lower-case letter
      (offset 32..57) as the capital six places after its upper case. */
  function Restored(ch: char): char {
    if IsLetter(ch) then ('A' as int + Offset(ch) % 26) as char else ch
  }

  /** A whole text after a round trip. */
  function RestoredText(s: string): string {
    seq(|s|, i requires 0 <= i < |s| => Restored(s[i]))
  }

  /** With `b` and `c` in the same range, a capital decrypts to the capital at
      `c*(y - b) mod 26`. */
  lemma DecryptCapital(r: char, b: int, c: int)
    requires 'A' <= r <= 'Z' && 0 <= b < 0x8000 && 0 <= c < 0x8000
    ensures Offset(DecryptChar(r, b, c)) == (c * (Offset(r) - b)) % 26
  {
    var y := Offset(r);
    var d := c * (y - b);
    ProductInRange(c, y, b);
    assert Wrap32(y - b) == y - b;
    assert Wrap32(d) == d;
    var j := JavaRem26(d);
    var m := (d - j) / 26;
    assert d - j == 26 * m;
    ModUnique(j + 26, 26, d / 26 - m + 1, d % 26);
  }

  /** The modular arithmetic of the round trip: with `a*c = 1 (mod 26)`,
      `c*((a*x + b) mod 26 - b) = x (mod 26)`. */
  lemma InverseCancels(a: nat, b: nat, c: nat, x: nat)
    requires (a * c) % 26 == 1
    ensures (c * ((a * x + b) % 26 - b)) % 26 == x % 26
  {
    var e := a * x + b;
    var q := e / 26;
    var p := (a * c) / 26;
    assert a * c == 26 * p + 1;
    var k := p * x - c * q;
    assert c * (e % 26 - b) == x + 26 * k by {
      assert e % 26 - b == a * x - 26 * q;
      assert c * (a * x - 26 * q) == (a * c) * x - 26 * (c * q);
      assert (26 * p + 1) * x == 26 * (p * x) + x;
    }
    ModUnique(x + 26 * k, 26, k + x / 26, x % 26);
  }

  /** One letter through encryption and then decryption with the inverse key. */
  lemma DecryptEncryptChar(ch: char, a: int, b: int, c: int)
    requires InverseKey(a, b, c)
    ensures DecryptChar(EncryptChar(ch, a, b), b, c) == Restored(ch)
  {
    if IsLetter(ch) {
      var x := Offset(ch);
      EncryptLetter(ch, a, b);
      var r := EncryptChar(ch, a, b);
      DecryptCapital(r, b, c);
      InverseCancels(a, b, c, x);
    }
  }

  /** Decrypting with the inverse key undoes encryption on every capital letter and
      every non-letter; a lower-case letter comes back as `Restored` says. */
  lemma {:induction false} DecryptEncrypt(s: string, a: int, b: int, c: int)
    requires InverseKey(a, b, c)
    ensures Decrypt(Encrypt(s, a, b, c), a, b, c) == RestoredText(s)
    ensures (forall i :: 0 <= i < |s| ==> !('a' <= s[i] <= 'z')) ==> Decrypt(Encrypt(s, a, b, c), a, b, c) == s
  {
    var r := Decrypt(Encrypt(s, a, b, c), a, b, c);
    forall i | 0 <= i < |s|
      ensures r[i] == Restored(s[i])
    {
      DecryptEncryptChar(s[i], a, b, c);
    }
    RestoredCapitals(s);
  }

  /** Only a lower-case letter is not restored as itself. */
  lemma RestoredCapitals(s: string)
    ensures (forall i :: 0 <= i < |s| ==> !('a' <= s[i] <= 'z')) ==>
              RestoredText(s) == s
  {
  }

  /** With the default key a = 5, b = 8, c = 21, HELLO encrypts to RCLLA ... */
  lemma HelloEncrypt()
    ensures Encrypt("HELLO", 5, 8, 21) == "RCLLA"
  {
    var e := Encrypt("HELLO", 5, 8, 21);
    EncryptLetter('H', 5, 8);
    EncryptLetter('E', 5, 8);
    EncryptLetter('L', 5, 8);
    EncryptLetter('O', 5, 8);
    assert e[0] == 'R' && e[1] == 'C' && e[2] == 'L' && e[3] == 'L' && e[4] == 'A';
  }

  /** ... and back. */
  lemma HelloDecrypt()
    ensures Decrypt("RCLLA", 5, 8, 21) == "HELLO"
  {
    HelloEncrypt();
    DecryptEncrypt("HELLO", 5, 8, 21);
  }

  /** `encryptAffine`: one pass appending to a builder. */
  method EncryptAffine(input: string, a: int, b: int, c: int) returns (output: string)
    ensures output == Encrypt(input, a, b, c)
  {
    output := [];
    var i := 0;
    while i < |input|
      invariant i <= |input|
      invariant output == Encrypt(input, a, b, c)[..i]
    {
      var c1 := input[i];
      if IsLetter(c1) {
        var x := Offset(c1);
        var y := JavaRem26(Wrap32(Wrap32(a * x) + b));
        output := output + [('A' as int + y) as char];
      } else {
        output := output + [c1];
      }
      i := i + 1;
    }
  }

  /** `decryptAffine`: one pass appending to a builder. */
  method DecryptAffine(input: string, a: int, b: int, c: int) returns (output: string)
    ensures output == Decrypt(input, a, b, c)
  {
    output := [];
    var i := 0;
    while i < |input|
      invariant i <= |input|
      invariant output == Decrypt(input, a, b, c)[..i]
    {
      var c1 := input[i];
      if IsLetter(c1) {
        var y := Offset(c1);
        var x := Wrap32(c * Wrap32(y - b));
        x := JavaRem26(JavaRem26(x) + 26);
        output := output + [('A' as int + x) as char];
      } else {
        output := output + [c1];
      }
      i := i + 1;
    }
  }
}
