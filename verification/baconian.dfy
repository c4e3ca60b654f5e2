/** The Baconian cipher of `encryptBaconian` / `decryptBaconian`. A space stays a
    space; every other character becomes five symbols, 'a' for a set bit and 'b' for a
    clear one, for bits 0 to 4 of its ordinal. Only five bits are kept, so ordinals of
    32 and above come back as `ordinal % 32`. */
module Baconian {
  import opened Text

  function Pow2(j: nat): (p: nat)
    ensures p >= 1
  {
    if j == 0 then 1 else 2 * Pow2(j - 1)
  }

  /** Bit `j` of `v`: `(v & (1 << j)) != 0` in the source. */
  predicate BitSet(v: nat, j: nat) {
    (v / Pow2(j)) % 2 == 1
  }

  /** The five symbols for ordinal `v`, bit 0 first. */
  function Block(v: nat): (b: string)
    ensures |b| == 5
    ensures forall j :: 0 <= j < 5 ==> (b[j] == 'a' || b[j] == 'b')
  {
    seq(5, j requires 0 <= j < 5 => if BitSet(v, j) then 'a' else 'b')
  }

  /** What one input character becomes. */
  function Piece(c: char): string {
    if c == ' ' then " " else Block(c as int)
  }

  /** `encryptBaconian` as a specification. */
  function Encode(s: string): (r: string)
  {
    if s == [] then [] else Piece(s[0]) + Encode(s[1..])
  }

  /** The number whose bit `j` is set exactly when symbol `j` of `b` is 'a'; any other
      symbol leaves its bit clear. */
  function Value(b: string): (v: nat)
    ensures v < Pow2(|b|)
    ensures |b| <= 5 ==> v < 32
  {
    if b == [] then 0
    else Value(b[..|b| - 1]) + (if b[|b| - 1] == 'a' then Pow2(|b| - 1) else 0)
  }

  /** `decryptBaconian` as a specification: a space decodes to a space, five symbols to
      the character of their value, and an incomplete final block ends the text. */
  function Decode(t: string): (r: string)
    ensures |r| <= |t|
    ensures forall i :: 0 <= i < |r| ==> r[i] == ' ' || r[i] as int < 32
    decreases |t|
  {
    if t == [] then []
    else if t[0] == ' ' then " " + Decode(t[1..])
    else if |t| < 5 then []
    else [Value(t[..5]) as char] + Decode(t[5..])
  }

  /** What a round trip gives back for one character: a space, or `chr(ord(c) % 32)`. */
  function FoldChar(c: char): char {
    if c == ' ' then ' ' else (c as int % 32) as char
  }

  /** What a round trip gives back for a text. */
  function Fold(s: string): (r: string)
    ensures |r| == |s|
  {
    seq(|s|, i requires 0 <= i < |s| => FoldChar(s[i]))
  }

  /** Number of spaces in `s`. */
  function Spaces(s: string): (n: nat)
    ensures n <= |s|
  {
    if s == [] then 0 else (if s[0] == ' ' then 1 else 0) + Spaces(s[1..])
  }

  /** A space is kept; every other character takes exactly five symbols. */
  lemma {:induction false} EncodeLength(s: string)
    ensures |Encode(s)| == Spaces(s) + 5 * (|s| - Spaces(s))
  {
    if s != [] {
      EncodeLength(s[1..]);
    }
  }

  /** Symbol `j` of the block for a 16-bit Java `char` is 'a' exactly when the source's
      test `(ch & (1 << j)) != 0` holds, for each of the five offsets. */
  lemma BlockBits(v: nat)
    requires v < 0x1_0000
    ensures Block(v)[0] == 'a' <==> (v as bv16 & (1 << 0)) != 0
    ensures Block(v)[1] == 'a' <==> (v as bv16 & (1 << 1)) != 0
    ensures Block(v)[2] == 'a' <==> (v as bv16 & (1 << 2)) != 0
    ensures Block(v)[3] == 'a' <==> (v as bv16 & (1 << 3)) != 0
    ensures Block(v)[4] == 'a' <==> (v as bv16 & (1 << 4)) != 0
  {
    LowBits(v);
    HighBits(v);
  }

  /** `BitSet` agrees with the bitwise test for bits 0 to 2 ... */
  lemma LowBits(v: nat)
    requires v < 0x1_0000
    ensures BitSet(v, 0) <==> (v as bv16 & (1 << 0)) != 0
    ensures BitSet(v, 1) <==> (v as bv16 & (1 << 1)) != 0
    ensures BitSet(v, 2) <==> (v as bv16 & (1 << 2)) != 0
  {
    assert Pow2(0) == 1 && Pow2(1) == 2 && Pow2(2) == 4;
  }

  /** ... and for bits 3 and 4. */
  lemma HighBits(v: nat)
    requires v < 0x1_0000
    ensures BitSet(v, 3) <==> (v as bv16 & (1 << 3)) != 0
    ensures BitSet(v, 4) <==> (v as bv16 & (1 << 4)) != 0
  {
    assert Pow2(3) == 8 && Pow2(4) == 16;
  }

  /** One more bit of remainder: `v % 2p` adds bit `log p` of `v` to `v % p`. */
  lemma ModDouble(v: nat, p: nat)
    requires p > 0
    ensures v % (2 * p) == v % p + (if (v / p) % 2 == 1 then p else 0)
  {
    var q, r := v / p, v % p;
    var h, e := q / 2, q % 2;
    assert v == p * q + r;
    assert p * q == (2 * p) * h + p * e by {
      assert q == 2 * h + e;
    }
    ModUnique(v, 2 * p, h, p * e + r);
  }

  /** The first `j` symbols of a block hold the low `j` bits of its ordinal. */
  lemma {:induction false} BlockPrefixValue(v: nat, j: nat)
    requires j <= 5
    ensures Value(Block(v)[..j]) == v % Pow2(j)
  {
    if j == 0 {
      assert Block(v)[..0] == [];
    } else {
      var p := Pow2(j - 1);
      var bit := (v / p) % 2;
      BlockPrefixValue(v, j - 1);
      var b := Block(v)[..j];
      assert b[..j - 1] == Block(v)[..j - 1];
      assert Value(b) == v % p + (if bit == 1 then p else 0) by {
        assert b[j - 1] == 'a' <==> bit == 1;
      }
      assert Pow2(j) == 2 * p;
      ModDouble(v, p);
    }
  }

  /** Decoding a block gives back the low five bits of its ordinal. */
  lemma BlockValue(v: nat)
    ensures Value(Block(v)) == v % 32
  {
    BlockPrefixValue(v, 5);
    assert Block(v)[..5] == Block(v);
    assert Pow2(5) == 32;
  }

  /** Decoding the encoding of `s` followed by any text `t` decodes `s` to `Fold(s)`
      and then carries on with `t`. */
  lemma {:induction false} DecodeEncodeThen(s: string, t: string)
    ensures Decode(Encode(s) + t) == Fold(s) + Decode(t)
  {
    if s == [] {
      assert Encode(s) + t == t;
      assert Fold(s) + Decode(t) == Decode(t);
    } else {
      var rest := Encode(s[1..]) + t;
      calc {
        Decode(Encode(s) + t);
      == { EncodeCons(s, t); }
        Decode(Piece(s[0]) + rest);
      == { DecodePiece(s[0], rest); }
        [FoldChar(s[0])] + Decode(rest);
      == { DecodeEncodeThen(s[1..], t); }
        [FoldChar(s[0])] + (Fold(s[1..]) + Decode(t));
      == { FoldCons(s, Decode(t)); }
        Fold(s) + Decode(t);
      }
    }
  }

  lemma EncodeCons(s: string, t: string)
    requires s != []
    ensures Encode(s) + t == Piece(s[0]) + (Encode(s[1..]) + t)
  {
  }

  lemma FoldCons(s: string, d: string)
    requires s != []
    ensures [FoldChar(s[0])] + (Fold(s[1..]) + d) == Fold(s) + d
  {
    assert Fold(s) == [FoldChar(s[0])] + Fold(s[1..]);
  }

  /** Decoding one character's piece followed by more text. */
  lemma DecodePiece(c: char, rest: string)
    ensures Decode(Piece(c) + rest) == [FoldChar(c)] + Decode(rest)
  {
    if c == ' ' {
      assert (Piece(c) + rest)[1..] == rest;
    } else {
      var v := c as int;
      BlockValue(v);
      assert (Block(v) + rest)[..5] == Block(v);
      assert (Block(v) + rest)[5..] == rest;
    }
  }

  /** The round trip is lossy: it gives `Fold(s)`, not `s`. */
  lemma DecodeEncode(s: string)
    ensures Decode(Encode(s)) == Fold(s)
  {
    DecodeEncodeThen(s, []);
    assert Encode(s) + [] == Encode(s);
  }

  /** It is the identity exactly on texts whose non-space ordinals are below 32. */
  lemma DecodeEncodeIdentity(s: string)
    ensures Decode(Encode(s)) == s <==> forall i :: 0 <= i < |s| && s[i] != ' ' ==> s[i] as int < 32
  {
    DecodeEncode(s);
    FoldIdentity(s);
  }

  lemma FoldIdentity(s: string)
    ensures Fold(s) == s <==> forall i :: 0 <= i < |s| && s[i] != ' ' ==> s[i] as int < 32
  {
    if forall i :: 0 <= i < |s| && s[i] != ' ' ==> s[i] as int < 32 {
      forall i | 0 <= i < |s|
        ensures Fold(s)[i] == s[i]
      {
      }
    } else {
      var i :| 0 <= i < |s| && s[i] != ' ' && s[i] as int >= 32;
      assert Fold(s)[i] != s[i];
    }
  }

  /** Fewer than five symbols after the last whole block are ignored. */
  lemma TruncatedTail(s: string, t: string)
    requires 0 < |t| < 5 && t[0] != ' '
    ensures Decode(Encode(s) + t) == Fold(s)
  {
    DecodeEncodeThen(s, t);
  }

  /** 'A' (ordinal 65) encodes to "abbbb" and comes back as the control character 1. */
  lemma LossyExample()
    ensures Encode("A ") == "abbbb "
    ensures Decode("abbbb ") == [1 as char, ' ']
  {
    var b := Block('A' as int);
    assert Pow2(1) == 2 && Pow2(2) == 4 && Pow2(3) == 8 && Pow2(4) == 16;
    assert b[0] == 'a' && b[1] == 'b' && b[2] == 'b' && b[3] == 'b' && b[4] == 'b';
    assert Encode("A ") == b + " " + Encode([]);
    DecodeEncode("A ");
  }

  /** Appending the piece of the character at `i` to what precedes it keeps the
      encoding of the whole text in view. */
  lemma EncodeAt(s: string, i: nat, done: string)
    requires i < |s| && done + Encode(s[i..]) == Encode(s)
    ensures (done + Piece(s[i])) + Encode(s[i + 1..]) == Encode(s)
  {
    var p, rest := Piece(s[i]), Encode(s[i + 1..]);
    assert Encode(s[i..]) == p + rest by { EncodeSuffix(s, i); }
    assert (done + p) + rest == done + (p + rest);
  }

  lemma EncodeSuffix(s: string, i: nat)
    requires i < |s|
    ensures Encode(s[i..]) == Piece(s[i]) + Encode(s[i + 1..])
  {
    assert s[i..][1..] == s[i + 1..];
  }

  /** Writing one more symbol of a block. */
  lemma BlockStep(v: nat, j: nat)
    requires j < 5
    ensures Block(v)[..j + 1] == Block(v)[..j] + (if (v / Pow2(j)) % 2 == 1 then "a" else "b")
  {
    assert Block(v)[..j + 1] == Block(v)[..j] + [Block(v)[j]];
  }

  /** The inner loop of `encryptBaconian`: the five symbols for ordinal `v`. */
  method WriteBlock(v: nat) returns (block: string)
    ensures block == Block(v)
  {
    block := [];
    for j := 0 to 5
      invariant block == Block(v)[..j]
    {
      BlockStep(v, j);
      if (v / Pow2(j)) % 2 == 1 {
        block := block + "a";
      } else {
        block := block + "b";
      }
    }
    assert Block(v)[..5] == Block(v);
  }

  /** `encryptBaconian`: for each character, a space or five symbols appended to a
      builder by an inner loop over the bits. */
  method EncryptBaconian(input: string) returns (output: string)
    ensures output == Encode(input)
  {
    output := [];
    var i := 0;
    while i < |input|
      invariant i <= |input|
      invariant output + Encode(input[i..]) == Encode(input)
    {
      EncodeAt(input, i, output);
      if input[i] == ' ' {
        output := output + " ";
        i := i + 1;
        continue;
      }
      var block := WriteBlock(input[i] as int);
      output := output + block;
      i := i + 1;
    }
  }

  /** Decoding from index `i` when a space is there. */
  lemma DecodeSpaceAt(t: string, i: nat, done: string)
    requires i < |t| && t[i] == ' ' && done + Decode(t[i..]) == Decode(t)
    ensures (done + " ") + Decode(t[i + 1..]) == Decode(t)
  {
    assert t[i..][1..] == t[i + 1..];
    assert Decode(t[i..]) == " " + Decode(t[i + 1..]);
  }

  /** Decoding from index `i` when fewer than five symbols are left. */
  lemma DecodeShortAt(t: string, i: nat, done: string)
    requires i < |t| && t[i] != ' ' && i + 5 > |t| && done + Decode(t[i..]) == Decode(t)
    ensures done == Decode(t)
  {
    assert Decode(t[i..]) == [];
  }

  /** Decoding from index `i` when a whole block is there. */
  lemma DecodeBlockAt(t: string, i: nat, done: string)
    requires i + 5 <= |t| && t[i] != ' ' && done + Decode(t[i..]) == Decode(t)
    ensures (done + [Value(t[i..i + 5]) as char]) + Decode(t[i + 5..]) == Decode(t)
  {
    assert t[i..][..5] == t[i..i + 5];
    assert t[i..][5..] == t[i + 5..];
    assert Decode(t[i..]) == [Value(t[i..i + 5]) as char] + Decode(t[i + 5..]);
  }

  /** Reading one more symbol of a block adds its bit to the value. */
  lemma ValueStep(t: string, i: nat, j: nat)
    requires i + j < |t|
    ensures Value(t[i..i + j + 1]) == Value(t[i..i + j]) + (if t[i + j] == 'a' then Pow2(j) else 0)
  {
    var b := t[i..i + j + 1];
    assert |b| == j + 1 && b[j] == t[i + j];
    assert b[..j] == t[i..i + j];
  }

  /** The inner loop of `decryptBaconian`: the value of the five symbols at `i`. */
  method ReadBlock(input: string, i: nat) returns (value: nat)
    requires i + 5 <= |input|
    ensures value == Value(input[i..i + 5])
  {
    value := 0;
    for j := 0 to 5
      invariant value == Value(input[i..i + j])
    {
      ValueStep(input, i, j);
      if input[i + j] == 'a' {
        // `value |= 1 << j`: bit j is still clear, since value < 2^j
        value := value + Pow2(j);
      }
    }
  }

  /** `decryptBaconian`: a manual index walks the cipher text; a block's bits are
      accumulated into `value`, and an incomplete final block stops the walk. */
  method DecryptBaconian(input: string) returns (output: string)
    ensures output == Decode(input)
  {
    output := [];
    var i := 0;
    while i < |input|
      invariant i <= |input|
      invariant output + Decode(input[i..]) == Decode(input)
    {
      if input[i] == ' ' {
        DecodeSpaceAt(input, i, output);
        output := output + " ";
        i := i + 1;
      } else {
        if i + 5 > |input| {
          DecodeShortAt(input, i, output);
          break;
        }
        DecodeBlockAt(input, i, output);
        var value := ReadBlock(input, i);
        output := output + [value as char];
        i := i + 5;
      }
    }
  }
}
