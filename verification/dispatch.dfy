/** The file processing at the end of `main`: once the prompts have settled on a
    cipher, a direction and the cipher's parameters, every line of the input file
    goes through that cipher on its own and the result is written out as one line. */
module Dispatch {
  import opened Text
  import RailFence
  import Vigenere
  import Baconian
  import Affine
  import Morse

  /** What the prompts collect: the cipher choice "1".."5", the action ("1" encrypt,
      anything else decrypt), the Vigenère key and the affine parameters, which keep
      their defaults 5, 8, 21 unless the affine cipher is chosen. */
  datatype Settings = Settings(choice: string, action: string, key: string, a: int, b: int, c: int)

  /** The settings the prompts let through to the file loop: an unknown cipher or
      action ends the program, an empty Vigenère key is asked for again, and the
      affine parameters (Java `int`s) are asked for again until `(a * c) % 26 == 1`
      in Java's 32-bit arithmetic. */
  predicate Accepted(s: Settings) {
    (s.choice == "1" || s.choice == "2" || s.choice == "3" || s.choice == "4" || s.choice == "5") &&
    (s.action == "1" || s.action == "2") &&
    (s.choice == "2" ==> s.key != []) &&
    (s.choice == "4" ==> IsInt32(s.a) && IsInt32(s.b) && IsInt32(s.c) && JavaRem26(Wrap32(s.a * s.c)) == 1)
  }

  /** The defaults a = 5, c = 21 pass the affine check. */
  lemma DefaultsAccepted()
    ensures Accepted(Settings("4", "1", "", 5, 8, 21))
    ensures Accepted(Settings("4", "2", "", 5, 8, 21))
  {
    assert Wrap32(5 * 21) == 105;
  }

  /** For parameters in 0..2^15 the 32-bit check is the mathematical one, so the
      accepted affine parameters in that range are exactly the inverse keys. */
  lemma AffineCheck(s: Settings)
    requires s.choice == "4" && 0 <= s.a < 0x8000 && 0 <= s.b < 0x8000 && 0 <= s.c < 0x8000
    requires s.action == "1" || s.action == "2"
    ensures Accepted(s) <==> Affine.InverseKey(s.a, s.b, s.c)
  {
    SmallProduct(s.a, s.c);
  }

  lemma SmallProduct(a: int, c: int)
    requires 0 <= a < 0x8000 && 0 <= c < 0x8000
    ensures JavaRem26(Wrap32(a * c)) == (a * c) % 26
  {
    ProductBound(a, c);
    Affine.NoWrap(a * c);
  }

  lemma ProductBound(a: int, c: int)
    requires 0 <= a < 0x8000 && 0 <= c < 0x8000
    ensures 0 <= a * c < TwoTo31
  {
    Affine.MulBelow(a, c, 0x8000, 0x8000);
  }

  /** Outside 0..2^15 the 32-bit products wrap, and an accepted key need not give
      the text back: with a = 86304449, b = 0, c = 17 (and 86304449 * 17 % 26 == 1),
      'Z' encrypts to '.', which decryption leaves alone. */
  lemma OverflowBreaksRoundTrip()
    ensures Accepted(Settings("4", "1", "", 86304449, 0, 17))
    ensures ProcessLine(Settings("4", "1", "", 86304449, 0, 17), "Z") == "."
    ensures ProcessLine(Settings("4", "2", "", 86304449, 0, 17), ".") == "."
  {
    assert Wrap32(86304449 * 17) == 1467175633;
    assert Wrap32(86304449 * 25) == -2137356071;
    assert JavaRem26(-2137356071) == -19;
    assert Affine.EncryptChar('Z', 86304449, 0) == '.';
    assert Affine.Encrypt("Z", 86304449, 0, 17) == ".";
    assert Affine.Decrypt(".", 86304449, 0, 17) == ".";
  }

  /** One line through the selected cipher and direction; a choice outside 1..5
      leaves the line empty. */
  function ProcessLine(s: Settings, line: string): string {
    var encrypt := s.action == "1";
    if s.choice == "1" then
      (if encrypt then RailFence.Encode(line) else RailFence.Decode(line))
    else if s.choice == "2" then
      (if encrypt then Vigenere.Encrypt(line, s.key) else Vigenere.Decrypt(line, s.key))
    else if s.choice == "3" then
      (if encrypt then Baconian.Encode(line) else Baconian.Decode(line))
    else if s.choice == "4" then
      (if encrypt then Affine.Encrypt(line, s.a, s.b, s.c) else Affine.Decrypt(line, s.a, s.b, s.c))
    else if s.choice == "5" then
      (if encrypt then Morse.Encode(line) else Morse.Decode(line))
    else ""
  }

  /** The lines written for a file: one output line per input line, in order, each
      depending on its own input line only. */
  function ProcessAll(s: Settings, lines: seq<string>): (out: seq<string>)
    ensures |out| == |lines|
    ensures forall i :: 0 <= i < |lines| ==> out[i] == ProcessLine(s, lines[i])
  {
    if lines == [] then [] else [ProcessLine(s, lines[0])] + ProcessAll(s, lines[1..])
  }

  /** No state is carried from one line to the next: processing two parts of a file
      one after the other writes the same lines as processing the whole file. */
  lemma {:induction false} ProcessAllAppend(s: Settings, xs: seq<string>, ys: seq<string>)
    ensures ProcessAll(s, xs + ys) == ProcessAll(s, xs) + ProcessAll(s, ys)
  {
    if xs == [] {
      assert xs + ys == ys;
    } else {
      assert (xs + ys)[1..] == xs[1..] + ys;
      ProcessAllAppend(s, xs[1..], ys);
    }
  }

  /** The same settings with the direction reversed to decryption. */
  function Decrypting(s: Settings): Settings {
    s.(action := "2")
  }

  /** What a line comes back as when it is encrypted and then decrypted with the
      same parameters. */
  function Recovered(s: Settings, line: string): string {
    if s.choice == "1" then line
    else if s.choice == "2" then Upper(line)
    else if s.choice == "3" then Baconian.Fold(line)
    else if s.choice == "4" then Affine.RestoredText(line)
    else Morse.Kept(Upper(line))
  }

  /** Settings under which decrypting an encryption is meant to give the text back:
      accepted settings for encryption, a Vigenère key of letters, and affine
      parameters in 0..2^15 (then `c` is the inverse of `a`, by `AffineCheck`). */
  predicate Invertible(s: Settings) {
    Accepted(s) && s.action == "1" &&
    (s.choice == "2" ==> Vigenere.LetterKey(s.key)) &&
    (s.choice == "4" ==> 0 <= s.a < 0x8000 && 0 <= s.b < 0x8000 && 0 <= s.c < 0x8000)
  }

  /** A line encrypted with one run of the program and decrypted with a second run
      with the same parameters comes back as `Recovered` says. */
  lemma LineRoundTrip(s: Settings, line: string)
    requires Invertible(s)
    ensures ProcessLine(Decrypting(s), ProcessLine(s, line)) == Recovered(s, line)
  {
    var d := Decrypting(s);
    if s.choice == "1" {
      assert ProcessLine(s, line) == RailFence.Encode(line);
      assert ProcessLine(d, RailFence.Encode(line)) == RailFence.Decode(RailFence.Encode(line));
      RailFence.DecodeEncode(line);
    } else if s.choice == "2" {
      assert ProcessLine(s, line) == Vigenere.Encrypt(line, s.key);
      assert ProcessLine(d, Vigenere.Encrypt(line, s.key)) == Vigenere.Decrypt(Vigenere.Encrypt(line, s.key), s.key);
      Vigenere.DecryptEncrypt(line, s.key);
    } else if s.choice == "3" {
      assert ProcessLine(s, line) == Baconian.Encode(line);
      assert ProcessLine(d, Baconian.Encode(line)) == Baconian.Decode(Baconian.Encode(line));
      Baconian.DecodeEncode(line);
    } else if s.choice == "4" {
      var e := Affine.Encrypt(line, s.a, s.b, s.c);
      assert ProcessLine(s, line) == e;
      assert ProcessLine(d, e) == Affine.Decrypt(e, s.a, s.b, s.c);
      AffineCheck(s);
      Affine.DecryptEncrypt(line, s.a, s.b, s.c);
    } else {
      assert ProcessLine(s, line) == Morse.Encode(line);
      assert ProcessLine(d, Morse.Encode(line)) == Morse.Decode(Morse.Encode(line));
      Morse.DecodeEncode(line);
    }
  }

  /** The same for a whole file, line by line. */
  lemma {:induction false} FileRoundTrip(s: Settings, lines: seq<string>)
    requires Invertible(s)
    ensures |ProcessAll(Decrypting(s), ProcessAll(s, lines))| == |lines|
    ensures forall i :: 0 <= i < |lines| ==>
              ProcessAll(Decrypting(s), ProcessAll(s, lines))[i] == Recovered(s, lines[i])
  {
    forall i | 0 <= i < |lines|
      ensures ProcessAll(Decrypting(s), ProcessAll(s, lines))[i] == Recovered(s, lines[i])
    {
      LineRoundTrip(s, lines[i]);
    }
  }

  /** A rail-fence file comes back unchanged in either order of the two runs. */
  lemma RailFenceFile(s: Settings, lines: seq<string>)
    requires Accepted(s) && s.choice == "1"
    ensures ProcessAll(Decrypting(s), ProcessAll(s.(action := "1"), lines)) == lines
    ensures ProcessAll(s.(action := "1"), ProcessAll(Decrypting(s), lines)) == lines
  {
    forall i | 0 <= i < |lines|
      ensures ProcessAll(Decrypting(s), ProcessAll(s.(action := "1"), lines))[i] == lines[i]
      ensures ProcessAll(s.(action := "1"), ProcessAll(Decrypting(s), lines))[i] == lines[i]
    {
      RailFence.DecodeEncode(lines[i]);
      RailFence.EncodeDecode(lines[i]);
    }
  }

  /** The body of the file loop: the selected cipher method in the selected
      direction, or nothing for an unknown choice. */
  method ProcessOne(s: Settings, line: string) returns (processed: string)
    ensures processed == ProcessLine(s, line)
  {
    processed := "";
    if s.choice == "1" {
      if s.action == "1" {
        processed := RailFence.EncryptRailFence(line);
      } else {
        processed := RailFence.DecryptRailFence(line);
      }
    } else if s.choice == "2" {
      if s.action == "1" {
        processed := Vigenere.EncryptVigenere(line, s.key);
      } else {
        processed := Vigenere.DecryptVigenere(line, s.key);
      }
    } else if s.choice == "3" {
      if s.action == "1" {
        processed := Baconian.EncryptBaconian(line);
      } else {
        processed := Baconian.DecryptBaconian(line);
      }
    } else if s.choice == "4" {
      if s.action == "1" {
        processed := Affine.EncryptAffine(line, s.a, s.b, s.c);
      } else {
        processed := Affine.DecryptAffine(line, s.a, s.b, s.c);
      }
    } else if s.choice == "5" {
      if s.action == "1" {
        processed := Morse.EncryptMorseCode(line);
      } else {
        processed := Morse.DecryptMorseCode(line);
      }
    }
  }

  /** The file loop: read a line, run the selected cipher method on it, write the
      result. */
  method ProcessLines(s: Settings, lines: seq<string>) returns (out: seq<string>)
    requires Accepted(s)
    ensures out == ProcessAll(s, lines)
  {
    out := [];
    var i := 0;
    while i < |lines|
      invariant i <= |lines|
      invariant out == ProcessAll(s, lines[..i])
    {
      var processed := ProcessOne(s, lines[i]);
      ProcessAllStep(s, lines, i);
      out := out + [processed];
      i := i + 1;
    }
    assert lines[..i] == lines;
  }

  /** Writing line `i` extends the lines written for the lines before it. */
  lemma ProcessAllStep(s: Settings, lines: seq<string>, i: nat)
    requires i < |lines|
    ensures ProcessAll(s, lines[..i + 1]) == ProcessAll(s, lines[..i]) + [ProcessLine(s, lines[i])]
  {
    assert lines[..i + 1] == lines[..i] + [lines[i]];
    ProcessAllAppend(s, lines[..i], [lines[i]]);
  }
}
