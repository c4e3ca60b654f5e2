/** The Morse code of `encryptMorseCode` / `decryptMorseCode`. Encryption upper-cases
    the input, writes each letter or digit as its code followed by a space and each
    space as " / ", drops every other character and trims the result. Decryption
    trims the input, splits it at runs of whitespace and decodes each token: "/" is
    a space, a known code its character, anything else is dropped. */
module Morse {
  import opened Text

  datatype Option<T> = None | Some(value: T)

  /** The table of `encryptMorseCode`: `containsKey(c)` is `CodeOf(c).Some?` and
      `get(c)` is `CodeOf(c).value`. */
  function CodeOf(c: char): Option<string> {
    match c
    case 'A' => Some(".-") case 'B' => Some("-...") case 'C' => Some("-.-.") case 'D' => Some("-..")
    case 'E' => Some(".") case 'F' => Some("..-.") case 'G' => Some("--.") case 'H' => Some("....")
    case 'I' => Some("..") case 'J' => Some(".---") case 'K' => Some("-.-") case 'L' => Some(".-..")
    case 'M' => Some("--") case 'N' => Some("-.") case 'O' => Some("---") case 'P' => Some(".--.")
    case 'Q' => Some("--.-") case 'R' => Some(".-.") case 'S' => Some("...") case 'T' => Some("-")
    case 'U' => Some("..-") case 'V' => Some("...-") case 'W' => Some(".--") case 'X' => Some("-..-")
    case 'Y' => Some("-.--") case 'Z' => Some("--..")
    case '0' => Some("-----") case '1' => Some(".----") case '2' => Some("..---") case '3' => Some("...--")
    case '4' => Some("....-") case '5' => Some(".....") case '6' => Some("-....") case '7' => Some("--...")
    case '8' => Some("---..") case '9' => Some("----.")
    case _ => None
  }
  /** The table of `decryptMorseCode`, read the same way. */
  function CharOf(w: string): Option<char> {
    match w
    case ".-" => Some('A') case "-..." => Some('B') case "-.-." => Some('C') case "-.." => Some('D')
    case "." => Some('E') case "..-." => Some('F') case "--." => Some('G') case "...." => Some('H')
    case ".." => Some('I') case ".---" => Some('J') case "-.-" => Some('K') case ".-.." => Some('L')
    case "--" => Some('M') case "-." => Some('N') case "---" => Some('O') case ".--." => Some('P')
    case "--.-" => Some('Q') case ".-." => Some('R') case "..." => Some('S') case "-" => Some('T')
    case "..-" => Some('U') case "...-" => Some('V') case ".--" => Some('W') case "-..-" => Some('X')
    case "-.--" => Some('Y') case "--.." => Some('Z')
    case "-----" => Some('0') case ".----" => Some('1') case "..---" => Some('2') case "...--" => Some('3')
    case "....-" => Some('4') case "....." => Some('5') case "-...." => Some('6') case "--..." => Some('7')
    case "---.." => Some('8') case "----." => Some('9')
    case _ => None
  }
  /** A code word: dots and dashes only, at least one of them. */
  predicate IsCode(w: string) {
    w != [] && forall i :: 0 <= i < |w| ==> w[i] == '.' || w[i] == '-'
  }

  /** The encryption table covers exactly the capital letters and the digits. */
  lemma CodeOfKeys(c: char)
    ensures CodeOf(c).Some? <==> 'A' <= c <= 'Z' || '0' <= c <= '9'
  {
  }

  /** Every code is a code word. */
  lemma CodeOfIsCode(c: char)
    requires CodeOf(c).Some?
    ensures IsCode(CodeOf(c).value)
  {
    if c <= '4' {
      CodeOfIsCodeLowDigit(c);
    } else if c <= '9' {
      CodeOfIsCodeHighDigit(c);
    }
  }

  lemma CodeOfIsCodeLowDigit(c: char)
    requires '0' <= c <= '4'
    ensures IsCode(CodeOf(c).value)
  {
  }

  lemma CodeOfIsCodeHighDigit(c: char)
    requires '5' <= c <= '9'
    ensures IsCode(CodeOf(c).value)
  {
  }

  /** The decryption table takes every code back to its character ... */
  lemma CharOfCodeOf(c: char)
    requires CodeOf(c).Some?
    ensures CharOf(CodeOf(c).value) == Some(c)
  {
  }

  /** ... and holds no other entries: the two tables are inverse. */
  lemma CodeOfCharOf(w: string)
    requires CharOf(w).Some?
    ensures CodeOf(CharOf(w).value) == Some(w)
  {
  }

  /** No two characters share a code. */
  lemma CodesDistinct(c: char, d: char)
    requires CodeOf(c).Some? && CodeOf(d).Some? && c != d
    ensures CodeOf(c).value != CodeOf(d).value
  {
    CharOfCodeOf(c);
    CharOfCodeOf(d);
  }

  /** The characters `split("\\s+")` splits at: space, tab, line feed, vertical tab,
      form feed and carriage return. */
  predicate IsSpace(c: char) {
    c == ' ' || '\t' <= c <= '\r'
  }

  /** Characters that `String.trim` removes: those up to and including ' '. */
  predicate Blank(t: string) {
    forall i :: 0 <= i < |t| ==> t[i] <= ' '
  }

  /** The leading part of `String.trim`: drops the longest blank prefix. */
  function TrimLeft(s: string): (r: string)
    ensures |r| <= |s| && r == s[|s| - |r|..]
    ensures Blank(s[..|s| - |r|])
    ensures r == [] || r[0] > ' '
  {
    if s != [] && s[0] <= ' ' then
      var r := TrimLeft(s[1..]);
      assert s[..|s| - |r|] == [s[0]] + s[1..][..|s| - 1 - |r|];
      r
    else s
  }

  /** The trailing part of `String.trim`: drops the longest blank suffix. */
  function TrimRight(s: string): (r: string)
    ensures |r| <= |s| && r == s[..|r|]
    ensures Blank(s[|r|..])
    ensures r == [] || r[|r| - 1] > ' '
  {
    if s != [] && s[|s| - 1] <= ' ' then
      var p := s[..|s| - 1];
      var r := TrimRight(p);
      assert s[|r|..] == p[|r|..] + [s[|s| - 1]];
      r
    else s
  }

  /** `String.trim`: no blank character is left at either end. */
  function Trim(s: string): (r: string)
    ensures |r| <= |s|
    ensures r == [] || (r[0] > ' ' && r[|r| - 1] > ' ')
  {
    TrimRight(TrimLeft(s))
  }

  /** What `String.trim` returns is the piece of `s` left after removing blank
      characters from both ends. */
  lemma TrimIsSlice(s: string)
    ensures exists lo :: 0 <= lo <= |s| - |Trim(s)| && Trim(s) == s[lo..lo + |Trim(s)|] &&
              Blank(s[..lo]) && Blank(s[lo + |Trim(s)|..])
  {
    var l := TrimLeft(s);
    var r := TrimRight(l);
    var lo := |s| - |l|;
    assert Trim(s) == r;
    assert l == s[lo..];
    assert r == s[lo..lo + |r|] by { assert r == l[..|r|]; }
    assert Blank(s[lo + |r|..]) by { assert s[lo + |r|..] == l[|r|..]; }
  }

  /** The longest prefix of `s` without whitespace. */
  function Token(s: string): (w: string)
    ensures |w| <= |s| && w == s[..|w|]
    ensures forall i :: 0 <= i < |w| ==> !IsSpace(w[i])
    ensures |w| < |s| ==> IsSpace(s[|w|])
  {
    if s == [] || IsSpace(s[0]) then [] else [s[0]] + Token(s[1..])
  }

  /** `split("\\s+")`: the maximal runs of non-whitespace characters, in order. Java
      also yields one empty token for an empty string; no empty token decodes to
      anything, so it is not listed. */
  function Words(s: string): (ws: seq<string>)
    decreases |s|
  {
    if s == [] then []
    else if IsSpace(s[0]) then Words(s[1..])
    else
      var w := Token(s);
      [w] + Words(s[|w|..])
  }

  /** Every token is non-empty and holds no whitespace. */
  lemma {:induction false} WordsShape(s: string)
    ensures forall k :: 0 <= k < |Words(s)| ==> Words(s)[k] != []
    ensures forall k, i :: 0 <= k < |Words(s)| && 0 <= i < |Words(s)[k]| ==> !IsSpace(Words(s)[k][i])
    decreases |s|
  {
    if s != [] {
      if IsSpace(s[0]) {
        WordsShape(s[1..]);
      } else {
        WordsShape(s[|Token(s)|..]);
      }
    }
  }

  /** What one upper-cased character becomes. */
  function Piece(c: char): string {
    if c == ' ' then " / "
    else if CodeOf(c).Some? then CodeOf(c).value + " "
    else ""
  }

  /** The builder's contents after the loop of `encryptMorseCode`. */
  function Pieces(u: string): string {
    if u == [] then [] else Piece(u[0]) + Pieces(u[1..])
  }

  /** `encryptMorseCode` as a specification. */
  function Encode(s: string): string {
    Trim(Pieces(Upper(s)))
  }

  /** What one token decodes to. */
  function DecodeToken(w: string): string {
    if w == "/" then " "
    else if CharOf(w).Some? then [CharOf(w).value]
    else []
  }

  function DecodeTokens(ws: seq<string>): string {
    if ws == [] then [] else DecodeToken(ws[0]) + DecodeTokens(ws[1..])
  }

  /** `decryptMorseCode` as a specification. */
  function Decode(s: string): string {
    DecodeTokens(Words(Trim(s)))
  }

  /** The characters encryption does not drop: spaces, capital letters and digits. */
  function Kept(u: string): (r: string)
    ensures |r| <= |u|
  {
    if u == [] then []
    else (if u[0] == ' ' || CodeOf(u[0]).Some? then [u[0]] else []) + Kept(u[1..])
  }

  /** Dots, dashes, slashes and spaces: everything encryption writes. */
  predicate MorseText(s: string) {
    forall i :: 0 <= i < |s| ==> s[i] in {'.', '-', '/', ' '}
  }

  lemma {:induction false} PiecesMorse(u: string)
    ensures MorseText(Pieces(u))
  {
    if u != [] {
      PiecesMorse(u[1..]);
      if u[0] != ' ' && CodeOf(u[0]).Some? {
        CodeOfIsCode(u[0]);
      }
    }
  }

  /** The token at the front of a text that starts with a word `w` and then a
      whitespace character. */
  lemma {:induction false} TokenOfWord(w: string, t: string)
    requires forall i :: 0 <= i < |w| ==> !IsSpace(w[i])
    requires t != [] && IsSpace(t[0])
    ensures Token(w + t) == w
  {
    if w != [] {
      assert (w + t)[1..] == w[1..] + t;
      TokenOfWord(w[1..], t);
    }
  }

  /** A word followed by a space is one token, and the rest is split on its own. */
  lemma WordThen(w: string, rest: string)
    requires w != [] && forall i :: 0 <= i < |w| ==> !IsSpace(w[i])
    ensures Words(w + " " + rest) == [w] + Words(rest)
  {
    var t := " " + rest;
    var s := w + t;
    assert w + " " + rest == s;
    TokenOfWord(w, t);
    assert s[0] == w[0];
    assert s[|w|..] == t;
    assert Words(s) == [w] + Words(t);
    assert t[1..] == rest;
  }

  /** Splitting the pieces of a character and what follows them. */
  lemma WordsPiece(c: char, rest: string)
    ensures c == ' ' ==> Words(Piece(c) + rest) == ["/"] + Words(rest)
    ensures c != ' ' && CodeOf(c).Some? ==> Words(Piece(c) + rest) == [CodeOf(c).value] + Words(rest)
    ensures c != ' ' && CodeOf(c).None? ==> Words(Piece(c) + rest) == Words(rest)
  {
    if c == ' ' {
      assert Piece(c) + rest == " " + ("/" + " " + rest);
      assert (" " + ("/" + " " + rest))[1..] == "/" + " " + rest;
      WordThen("/", rest);
    } else if CodeOf(c).Some? {
      CodeOfIsCode(c);
      assert Piece(c) + rest == CodeOf(c).value + " " + rest;
      WordThen(CodeOf(c).value, rest);
    } else {
      assert Piece(c) + rest == rest;
    }
  }

  lemma {:induction false} DecodeTokensAppend(a: seq<string>, b: seq<string>)
    ensures DecodeTokens(a + b) == DecodeTokens(a) + DecodeTokens(b)
  {
    if a == [] {
      assert a + b == b;
    } else {
      assert (a + b)[1..] == a[1..] + b;
      DecodeTokensAppend(a[1..], b);
    }
  }

  /** Decoding the tokens of the untrimmed pieces gives back the kept characters. */
  lemma {:induction false} DecodePieces(u: string)
    requires forall i :: 0 <= i < |u| ==> !('a' <= u[i] <= 'z')
    ensures DecodeTokens(Words(Pieces(u))) == Kept(u)
  {
    if u != [] {
      var c, rest := u[0], Pieces(u[1..]);
      WordsPiece(c, rest);
      DecodePieces(u[1..]);
      if c == ' ' {
        DecodeTokensAppend(["/"], Words(rest));
      } else if CodeOf(c).Some? {
        CodeOfIsCode(c);
        CharOfCodeOf(c);
        DecodeTokensAppend([CodeOf(c).value], Words(rest));
      }
    }
  }

  /** A text of Morse characters splits the same way after trimming. */
  lemma {:induction false} WordsTrimLeft(s: string)
    requires MorseText(s)
    ensures Words(TrimLeft(s)) == Words(s)
  {
    if s != [] && s[0] <= ' ' {
      WordsTrimLeft(s[1..]);
    }
  }

  lemma {:induction false} TokenSnoc(s: string, c: char)
    requires IsSpace(c)
    ensures Token(s + [c]) == Token(s)
  {
    if s != [] && !IsSpace(s[0]) {
      assert (s + [c])[1..] == s[1..] + [c];
      TokenSnoc(s[1..], c);
    }
  }

  /** A trailing whitespace character adds no token. */
  lemma {:induction false} WordsSnoc(s: string, c: char)
    requires IsSpace(c)
    ensures Words(s + [c]) == Words(s)
    decreases |s|
  {
    var t := s + [c];
    if s == [] {
      assert Words(t) == Words(t[1..]) && t[1..] == [];
    } else if IsSpace(s[0]) {
      assert t[1..] == s[1..] + [c];
      WordsSnoc(s[1..], c);
    } else {
      TokenSnoc(s, c);
      var w := Token(s);
      assert t[|w|..] == s[|w|..] + [c];
      WordsSnoc(s[|w|..], c);
    }
  }

  lemma {:induction false} WordsTrimRight(s: string)
    requires MorseText(s)
    ensures Words(TrimRight(s)) == Words(s)
    decreases |s|
  {
    if s != [] && s[|s| - 1] <= ' ' {
      var p := s[..|s| - 1];
      assert s == p + [s[|s| - 1]];
      WordsSnoc(p, s[|s| - 1]);
      WordsTrimRight(p);
    }
  }

  lemma WordsTrim(s: string)
    requires MorseText(s)
    ensures Words(Trim(s)) == Words(s)
  {
    WordsTrimLeft(s);
    var l := TrimLeft(s);
    assert MorseText(l) by {
      assert l == s[|s| - |l|..];
    }
    WordsTrimRight(l);
  }

  /** Encryption writes only dots, dashes, slashes and spaces, and never starts or
      ends with whitespace. */
  lemma EncodeShape(s: string)
    ensures MorseText(Encode(s))
    ensures Encode(s) == [] || (Encode(s)[0] > ' ' && Encode(s)[|Encode(s)| - 1] > ' ')
  {
    PiecesMorse(Upper(s));
    MorseTextTrim(Pieces(Upper(s)));
  }

  /** Trimming keeps a text of Morse characters one. */
  lemma MorseTextTrim(p: string)
    requires MorseText(p)
    ensures MorseText(Trim(p))
  {
    var l := TrimLeft(p);
    assert MorseText(l) by {
      assert l == p[|p| - |l|..];
    }
    var r := TrimRight(l);
    assert MorseText(r) by {
      assert r == l[..|r|];
    }
  }

  /** Decrypting an encryption gives back the upper-cased input without the
      characters encryption drops. */
  lemma DecodeEncode(s: string)
    ensures Decode(Encode(s)) == Kept(Upper(s))
  {
    var p := Pieces(Upper(s));
    PiecesMorse(Upper(s));
    WordsTrim(p);
    DecodePieces(Upper(s));
  }

  lemma {:induction false} KeptAll(u: string)
    ensures Kept(u) == u <==> forall i :: 0 <= i < |u| ==> u[i] == ' ' || CodeOf(u[i]).Some?
  {
    if u != [] {
      KeptAll(u[1..]);
      if Kept(u) == u {
        assert u[0] == ' ' || CodeOf(u[0]).Some?;
        assert Kept(u[1..]) == u[1..];
      }
    }
  }

  /** So the round trip is the identity exactly on texts of spaces, capital letters
      and digits. */
  lemma DecodeEncodeIdentity(s: string)
    requires forall i :: 0 <= i < |s| ==> s[i] == ' ' || 'A' <= s[i] <= 'Z' || '0' <= s[i] <= '9'
    ensures Decode(Encode(s)) == s
  {
    assert Upper(s) == s by { UpperOfUpper(s); }
    assert Kept(s) == s by {
      forall i | 0 <= i < |s|
        ensures s[i] == ' ' || CodeOf(s[i]).Some?
      {
        CodeOfKeys(s[i]);
      }
      KeptAll(s);
    }
    DecodeEncode(s);
  }

  /** Three letters: SOS encrypts to "... --- ..." and decrypts back. */
  lemma SosExample()
    ensures Encode("SOS") == "... --- ..."
    ensures Decode("... --- ...") == "SOS"
  {
    UpperOfUpper("SOS");
    var p := Pieces("SOS");
    assert p == "... --- ... " by {
      assert "SOS"[1..] == "OS" && "OS"[1..] == "S" && "S"[1..] == [];
    }
    assert TrimLeft(p) == p;
    assert p[..|p| - 1] == "... --- ...";
    assert Encode("SOS") == "... --- ...";
    DecodeEncodeIdentity("SOS");
  }

  /** A token that is not in the table ("..--..", a question mark in other Morse
      tables) is dropped. */
  lemma UnknownTokenDropped()
    ensures Decode("..." + " " + "..--.." + " " + "...") == "SS"
  {
    DecodeThree("...", "..--..", "...");
    DecodeOne("...");
    DecodeOne("..--..");
    ExampleTokens();
  }

  lemma ExampleTokens()
    ensures DecodeToken("...") == "S" && DecodeToken("..--..") == []
  {
  }

  /** Three words separated by single spaces decode token by token. */
  lemma DecodeThree(a: string, x: string, c: string)
    requires IsCode(a) && IsCode(c)
    requires x != [] && forall i :: 0 <= i < |x| ==> !IsSpace(x[i])
    ensures Decode(a + " " + x + " " + c) == DecodeTokens([a]) + (DecodeTokens([x]) + DecodeTokens([c]))
  {
    var t := a + " " + x + " " + c;
    ThreeWords(a, x, c);
    assert t[0] == a[0] && t[|t| - 1] == c[|c| - 1];
    DecodeUntrimmed(t);
    DecodeTokensAppend([a], [x, c]);
    DecodeTokensAppend([x], [c]);
  }

  lemma DecodeOne(w: string)
    ensures DecodeTokens([w]) == DecodeToken(w)
  {
    assert [w][1..] == [];
  }

  /** Decrypting a text without whitespace at its ends splits it as it is. */
  lemma DecodeUntrimmed(t: string)
    requires t != [] && t[0] > ' ' && t[|t| - 1] > ' '
    ensures Decode(t) == DecodeTokens(Words(t))
  {
    TrimIdle(t);
  }

  /** A text without whitespace at its ends is its own trim. */
  lemma TrimIdle(t: string)
    requires t != [] && t[0] > ' ' && t[|t| - 1] > ' '
    ensures Trim(t) == t
  {
  }

  lemma ThreeWords(a: string, b: string, c: string)
    requires a != [] && forall i :: 0 <= i < |a| ==> !IsSpace(a[i])
    requires b != [] && forall i :: 0 <= i < |b| ==> !IsSpace(b[i])
    requires c != [] && forall i :: 0 <= i < |c| ==> !IsSpace(c[i])
    ensures Words(a + " " + b + " " + c) == [a, b, c]
  {
    assert a + " " + b + " " + c == a + " " + (b + " " + c);
    WordThen(a, b + " " + c);
    WordThen(b, c);
    WordsOfWord(c);
  }

  /** A word on its own is one token. */
  lemma WordsOfWord(w: string)
    requires w != [] && forall i :: 0 <= i < |w| ==> !IsSpace(w[i])
    ensures Words(w) == [w]
  {
    TokenAll(w);
    assert w[|w|..] == [];
  }

  lemma {:induction false} TokenAll(w: string)
    requires forall i :: 0 <= i < |w| ==> !IsSpace(w[i])
    ensures Token(w) == w
  {
    if w != [] {
      TokenAll(w[1..]);
    }
  }

  /** Continuing the builder with the piece of character `i`. */
  lemma PiecesAt(u: string, i: nat, done: string)
    requires i < |u| && done + Pieces(u[i..]) == Pieces(u)
    ensures (done + Piece(u[i])) + Pieces(u[i + 1..]) == Pieces(u)
  {
    PiecesSuffix(u, i);
    Regroup(done, Piece(u[i]), Pieces(u[i + 1..]));
  }

  lemma PiecesSuffix(u: string, i: nat)
    requires i < |u|
    ensures Pieces(u[i..]) == Piece(u[i]) + Pieces(u[i + 1..])
  {
    assert u[i..][1..] == u[i + 1..];
  }

  /** `encryptMorseCode`: the input is upper-cased, each character's piece is
      appended to a builder and the builder is trimmed. */
  method EncryptMorseCode(input: string) returns (output: string)
    ensures output == Encode(input)
  {
    var u := Upper(input);
    var sb := "";
    var i := 0;
    while i < |u|
      invariant i <= |u|
      invariant sb + Pieces(u[i..]) == Pieces(u)
    {
      PiecesAt(u, i, sb);
      var ch := u[i];
      ghost var before := sb;
      if ch == ' ' {
        sb := sb + " / ";
        assert sb == before + Piece(ch);
      } else if CodeOf(ch).Some? {
        sb := sb + CodeOf(ch).value;
        sb := sb + " ";
        assert sb == before + Piece(ch);
      } else {
        assert sb == before + Piece(ch);
      }
      i := i + 1;
    }
    assert u[i..] == [] && Pieces(u[i..]) == [];
    assert sb == Pieces(u);
    output := Trim(sb);
  }

  /** Continuing the output with the decoding of token `i`. */
  lemma TokensAt(ws: seq<string>, i: nat, done: string)
    requires i < |ws| && done + DecodeTokens(ws[i..]) == DecodeTokens(ws)
    ensures (done + DecodeToken(ws[i])) + DecodeTokens(ws[i + 1..]) == DecodeTokens(ws)
  {
    TokensSuffix(ws, i);
    Regroup(done, DecodeToken(ws[i]), DecodeTokens(ws[i + 1..]));
  }

  lemma Regroup(a: string, b: string, c: string)
    ensures (a + b) + c == a + (b + c)
  {
  }

  lemma TokensSuffix(ws: seq<string>, i: nat)
    requires i < |ws|
    ensures DecodeTokens(ws[i..]) == DecodeToken(ws[i]) + DecodeTokens(ws[i + 1..])
  {
    assert ws[i..][1..] == ws[i + 1..];
  }

  /** `decryptMorseCode`: the trimmed input is split into tokens and each token's
      character, if any, is appended to a builder. */
  method DecryptMorseCode(input: string) returns (output: string)
    ensures output == Decode(input)
  {
    var tokens := Words(Trim(input));
    output := "";
    var i := 0;
    while i < |tokens|
      invariant i <= |tokens|
      invariant output + DecodeTokens(tokens[i..]) == DecodeTokens(tokens)
    {
      TokensAt(tokens, i, output);
      var token := tokens[i];
      ghost var before := output;
      if token == "/" {
        output := output + " ";
      } else if CharOf(token).Some? {
        output := output + [CharOf(token).value];
      }
      assert output == before + DecodeToken(token);
      i := i + 1;
    }
    assert tokens[i..] == [];
  }
}
