/** The Vigenère cipher of `encryptVigenere` / `decryptVigenere`. Input and key are
    upper-cased; only letters are shifted; the key character used at position `i` is
    `key[i % |key|]`, so a non-letter also uses up a key position. */
module Vigenere {
  import opened Text

  /** One letter of `encryptVigenere`: `(c - 'A' + (k - 'A')) % 26 + 'A'`. */
  function ShiftUp(c: char, k: char): (r: char)
    ensures 'A' <= c <= 'Z' && 'A' <= k <= 'Z' ==>
              'A' <= r <= 'Z' && Offset(r) == (Offset(c) + Offset(k)) % 26
  {
    ('A' as int + JavaRem26(Offset(c) + Offset(k))) as char
  }

  /** One letter of `decryptVigenere`: `(c - 'A' - (k - 'A') + 26) % 26 + 'A'`. */
  function ShiftDown(c: char, k: char): (r: char)
    ensures 'A' <= c <= 'Z' && 'A' <= k <= 'Z' ==>
              'A' <= r <= 'Z' && Offset(r) == (Offset(c) - Offset(k)) % 26
  {
    ('A' as int + JavaRem26(Offset(c) - Offset(k) + 26)) as char
  }

  /** Key letter `k` undoes its own shift. */
  lemma ShiftDownUp(c: char, k: char)
    requires 'A' <= c <= 'Z' && 'A' <= k <= 'Z'
    ensures ShiftDown(ShiftUp(c, k), k) == c
  {
  }

  /** The character at position `i` of the output of one direction: a non-letter is
      copied, a letter is shifted by the key character at `i % |key|`. */
  function Cell(u: string, k: string, i: nat, decrypt: bool): (r: char)
    requires i < |u| && k != []
  {
    if !IsLetter(u[i]) then u[i]
    else if decrypt then ShiftDown(u[i], k[i % |k|])
    else ShiftUp(u[i], k[i % |k|])
  }

  /** `encryptVigenere` as a specification. */
  function Encrypt(input: string, key: string): (r: string)
    ensures key == [] ==> r == []
    ensures key != [] ==> |r| == |input|
  {
    if key == [] then []
    else
      var u, k := Upper(input), Upper(key);
      seq(|u|, i requires 0 <= i < |u| => Cell(u, k, i, false))
  }

  /** `decryptVigenere` as a specification. */
  function Decrypt(input: string, key: string): (r: string)
    ensures key == [] ==> r == []
    ensures key != [] ==> |r| == |input|
  {
    if key == [] then []
    else
      var u, k := Upper(input), Upper(key);
      seq(|u|, i requires 0 <= i < |u| => Cell(u, k, i, true))
  }

  /** A key made of ASCII letters (either case). */
  predicate LetterKey(key: string) {
    key != [] && forall i :: 0 <= i < |key| ==> IsLetter(key[i])
  }

  /** What encryption does at each position: non-letters are kept, and a letter at
      position `i` is shifted by the key letter at `i % |key|`, counting every earlier
      position whether or not it held a letter. */
  lemma {:induction false} EncryptAt(input: string, key: string, i: nat)
    requires LetterKey(key) && i < |input|
    ensures !IsLetter(input[i]) ==> Encrypt(input, key)[i] == input[i]
    ensures IsLetter(input[i]) ==>
              'A' <= Encrypt(input, key)[i] <= 'Z' &&
              Offset(Encrypt(input, key)[i])
                == (Offset(ToUpper(input[i])) + Offset(ToUpper(key[i % |key|]))) % 26
  {
    assert IsLetter(key[i % |key|]);
  }

  /** Decrypting with the same letter key gives back the upper-cased input. */
  lemma {:induction false} DecryptEncrypt(input: string, key: string)
    requires LetterKey(key)
    ensures Decrypt(Encrypt(input, key), key) == Upper(input)
  {
    forall i | 0 <= i < |input|
      ensures Decrypt(Encrypt(input, key), key)[i] == Upper(input)[i]
    {
      DecryptEncryptAt(input, key, i);
    }
  }

  /** One position of the round trip. */
  lemma DecryptEncryptAt(input: string, key: string, i: nat)
    requires LetterKey(key) && i < |input|
    ensures Decrypt(Encrypt(input, key), key)[i] == ToUpper(input[i])
  {
    var e := Encrypt(input, key);
    var k := Upper(key);
    var j := i % |key|;
    assert IsLetter(key[j]);
    assert e[i] == Cell(Upper(input), k, i, false);
    assert Decrypt(e, key)[i] == Cell(Upper(e), k, i, true);
    if IsLetter(input[i]) {
      ShiftDownUp(ToUpper(input[i]), k[j]);
    }
  }

  /** On capitals only, encryption shifts each letter by the key letter at its
      position. */
  lemma EncryptCapitals(plain: string, key: string)
    requires forall i :: 0 <= i < |plain| ==> 'A' <= plain[i] <= 'Z'
    requires key != [] && forall i :: 0 <= i < |key| ==> 'A' <= key[i] <= 'Z'
    ensures |Encrypt(plain, key)| == |plain|
    ensures forall i :: 0 <= i < |plain| ==> Encrypt(plain, key)[i] == ShiftUp(plain[i], key[i % |key|])
  {
    UpperOfUpper(plain);
    UpperOfUpper(key);
  }

  /** The letter shifts used by the textbook example. */
  lemma LemonShifts()
    ensures ShiftUp('A', 'E') == 'E'
    ensures ShiftUp('A', 'L') == 'L'
    ensures ShiftUp('A', 'N') == 'N'
    ensures ShiftUp('A', 'O') == 'O'
    ensures ShiftUp('C', 'N') == 'P'
    ensures ShiftUp('D', 'O') == 'R'
    ensures ShiftUp('K', 'L') == 'V'
    ensures ShiftUp('N', 'E') == 'R'
    ensures ShiftUp('T', 'E') == 'X'
    ensures ShiftUp('T', 'M') == 'F'
    ensures ShiftUp('W', 'L') == 'H'
  {
    LemonShiftsWrap();
  }

  /** The remaining shifts of the example; T+M and W+L pass 'Z' and wrap around. */
  lemma LemonShiftsWrap()
    ensures ShiftUp('N', 'E') == 'R'
    ensures ShiftUp('T', 'E') == 'X'
    ensures ShiftUp('T', 'M') == 'F'
    ensures ShiftUp('W', 'L') == 'H'
  {
  }

  /** The textbook example: ATTACKATDAWN under LEMON encrypts to LXFOPVEFRNHR ... */
  lemma LemonEncrypt()
    ensures Encrypt("ATTACKATDAWN", "LEMON") == "LXFOPVEFRNHR"
  {
    var plain, key := "ATTACKATDAWN", "LEMON";
    EncryptCapitals(plain, key);
    LemonShifts();
    var e := Encrypt(plain, key);
    assert e[0] == 'L';
    assert e[1] == 'X';
    assert e[2] == 'F';
    assert e[3] == 'O';
    assert e[4] == 'P';
    assert e[5] == 'V';
    assert e[6] == 'E';
    assert e[7] == 'F';
    assert e[8] == 'R';
    assert e[9] == 'N';
    assert e[10] == 'H';
    assert e[11] == 'R';
  }

  /** ... and decrypts back. */
  lemma LemonDecrypt()
    ensures Decrypt("LXFOPVEFRNHR", "LEMON") == "ATTACKATDAWN"
  {
    LemonEncrypt();
    DecryptEncrypt("ATTACKATDAWN", "LEMON");
    UpperOfUpper("ATTACKATDAWN");
  }

  /** `encryptVigenere`: one pass over the upper-cased input, appending to a builder. */
  method EncryptVigenere(input: string, key: string) returns (output: string)
    ensures output == Encrypt(input, key)
  {
    if key == [] {
      return "";
    }
    var u := Upper(input);
    var k := Upper(key);
    output := [];
    var i := 0;
    while i < |u|
      invariant i <= |u|
      invariant output == Encrypt(input, key)[..i]
    {
      var c := u[i];
      if IsLetter(c) {
        output := output + [ShiftUp(c, k[i % |k|])];
      } else {
        output := output + [c];
      }
      i := i + 1;
    }
  }

  /** `decryptVigenere`: the same pass with the shift reversed. */
  method DecryptVigenere(input: string, key: string) returns (output: string)
    ensures output == Decrypt(input, key)
  {
    if key == [] {
      return "";
    }
    var u := Upper(input);
    var k := Upper(key);
    output := [];
    var i := 0;
    while i < |u|
      invariant i <= |u|
      invariant output == Decrypt(input, key)[..i]
    {
      var c := u[i];
      if IsLetter(c) {
        output := output + [ShiftDown(c, k[i % |k|])];
      } else {
        output := output + [c];
      }
      i := i + 1;
    }
  }
}
