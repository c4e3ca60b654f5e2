# Cipher suite in Dafny

This project models the text ciphers of `Cypher_Solver.java` and proves their
properties. The five ciphers are rail fence, Vigenère, Baconian, affine and Morse
code. The model also covers the file loop that applies the chosen cipher and
direction to every line of the input file.

The project has one module per cipher, plus two more:

- `Text`: the ASCII helpers the ciphers share.
- `Dispatch`: the per-line file processing.

Each module follows the same pattern:

- A pure function specifies each direction (`Encode`/`Decode` or `Encrypt`/`Decrypt`).
- An imperative method mirrors the Java method. Like the source, it has index loops that append to a builder, and it is proved equal to its function.
- Lemmas state the round trips and other laws about the specification functions.

Java semantics that matter are written out:

- `%` truncates toward zero (`Text.JavaRem26`).
- `int` arithmetic wraps around at 32 bits (`Text.Wrap32`, used in the affine cipher and in the check on its parameters).
- `toUpperCase` and `Character.isLetter` are modelled on ASCII only.
- `String.trim` removes characters up to and including `' '`.
- `split("\\s+")` yields maximal runs of non-whitespace characters.

Two behaviours of the code are easy to miss:

- **Vigenère key position.** The key character used at position `i` is `key[i % |key|]` (Cypher_Solver.java:97, 128). A non-letter therefore also uses up a key position.
- **Affine case.** `encryptAffine` does not upper-case its input. A lower-case letter has `x = c - 'A'` in 32..57. After a round trip it comes back as the capital `'A' + x mod 26` (`Affine.Restored`), not as itself.

## Model

| member | source | states |
|---|---|---|
| Text.ToUpper | Cypher_Solver.java:85-86 | ASCII upper case: a letter becomes the capital with the same position in the alphabet (its offset from 'A' taken mod 32), no lower-case letter is left, every other character is unchanged |
| Text.Upper | Cypher_Solver.java:85-86 | `toUpperCase` keeps the length, leaves no lower-case letter, turns each letter into the capital of the same letter, and keeps every other character in place |
| Text.UpperIdempotent | Cypher_Solver.java:85-86 | upper-casing twice is the same as upper-casing once |
| Text.UpperOfUpper | Cypher_Solver.java:85-86 | upper-casing a text without lower-case letters leaves it unchanged |
| Text.JavaRem26 | Cypher_Solver.java:97 | Java `x % 26`: in -25..25, has the sign of `x`, and is congruent to `x` |
| Text.Wrap32 | Cypher_Solver.java:279 | Java `int` arithmetic: the result is a 32-bit value, congruent to the exact result modulo 2^32, and equal to it when that fits |
| RailFence.TracksCover | Cypher_Solver.java:27-38 | the three passes together visit exactly `n` positions |
| RailFence.Position | Cypher_Solver.java:27-38 | the text position read at each index of the cipher text lies in 0..n-1 |
| RailFence.Slot | Cypher_Solver.java:52-67 | the cipher-text index of each text position is in range and is the inverse of `Position` |
| RailFence.PositionIsPermutation | Cypher_Solver.java:27-38 | encryption is a permutation: Position and Slot are mutually inverse, the passes take positions 0 mod 4, odd, and 2 mod 4, each in ascending order |
| RailFence.Encode | Cypher_Solver.java:13-41 | encryption keeps the length |
| RailFence.Decode | Cypher_Solver.java:44-70 | decryption keeps the length |
| RailFence.DecodeEncode | Cypher_Solver.java:13-70 | decrypting an encryption gives back every text, the empty one included |
| RailFence.EncodeDecode | Cypher_Solver.java:13-70 | encrypting a decryption gives back every text |
| RailFence.OnTrackA | Cypher_Solver.java:56-59 | in the first decryption pass, the cursor `idx` reads the cipher-text index for position `i = 4*idx` |
| RailFence.OnTrackB | Cypher_Solver.java:60-63 | the same for the second pass and odd positions |
| RailFence.OnTrackC | Cypher_Solver.java:64-67 | the same for the third pass and positions 2 mod 4 |
| RailFence.Place | Cypher_Solver.java:52-67 | writing `input[idx]` at its position never overwrites a character placed earlier |
| RailFence.AllPlaced | Cypher_Solver.java:52-69 | a buffer holding every input character at its position is the decryption |
| RailFence.EncryptRailFence | Cypher_Solver.java:13-41 | the three append loops produce `Encode(input)` |
| RailFence.DecryptRailFence | Cypher_Solver.java:44-70 | overwriting a copy of the input from one moving cursor produces `Decode(input)` |
| Vigenere.ShiftUp | Cypher_Solver.java:97-98 | a capital shifted by a capital key letter is the capital at `(x + k) mod 26` |
| Vigenere.ShiftDown | Cypher_Solver.java:128-129 | a capital shifted back by a capital key letter is the capital at `(y - k) mod 26` |
| Vigenere.ShiftDownUp | Cypher_Solver.java:128-129 | shifting back undoes the shift |
| Vigenere.Encrypt | Cypher_Solver.java:77-106 | an empty key gives "", otherwise the output has the input's length |
| Vigenere.Decrypt | Cypher_Solver.java:109-137 | an empty key gives "", otherwise the output has the input's length |
| Vigenere.EncryptAt | Cypher_Solver.java:90-104 | non-letters are unchanged at their position, and a letter at `i` becomes the capital at `(upper(input[i]) + upper(key[i % |key|])) mod 26`, counting every position as a key position |
| Vigenere.DecryptEncryptAt | Cypher_Solver.java:122-134 | one position of the round trip gives back the upper-cased character |
| Vigenere.DecryptEncrypt | Cypher_Solver.java:77-137 | with a key of letters, decrypting an encryption gives back the upper-cased input |
| Vigenere.EncryptCapitals | Cypher_Solver.java:90-104 | on capitals with a capital key, each letter is shifted by the key letter at its position |
| Vigenere.LemonShifts | Cypher_Solver.java:97 | the letter shifts of the ATTACKATDAWN / LEMON example without wrap-around |
| Vigenere.LemonShiftsWrap | Cypher_Solver.java:97 | the shifts of the example that pass 'Z' and wrap around |
| Vigenere.LemonEncrypt | Cypher_Solver.java:77-106 | "ATTACKATDAWN" with key "LEMON" encrypts to "LXFOPVEFRNHR" |
| Vigenere.LemonDecrypt | Cypher_Solver.java:109-137 | "LXFOPVEFRNHR" with key "LEMON" decrypts to "ATTACKATDAWN" |
| Vigenere.EncryptVigenere | Cypher_Solver.java:77-106 | the append loop produces `Encrypt(input, key)` |
| Vigenere.DecryptVigenere | Cypher_Solver.java:109-137 | the append loop produces `Decrypt(input, key)` |
| Baconian.Block | Cypher_Solver.java:171-183 | a block has exactly five symbols, each 'a' or 'b' |
| Baconian.BlockBits | Cypher_Solver.java:171-183 | for a 16-bit `char`, symbol `j` of its block is 'a' exactly when the bitwise test `(ch & (1 << j)) != 0` holds, for each `j` in 0..4 |
| Baconian.Value | Cypher_Solver.java:232-244 | the value rebuilt from `j` symbols is below 2^j, so below 32 for a block |
| Baconian.Decode | Cypher_Solver.java:199-254 | decryption is no longer than its input and yields only spaces and characters below 32 |
| Baconian.Fold | Cypher_Solver.java:152-254 | the round-trip image keeps the length |
| Baconian.EncodeLength | Cypher_Solver.java:162-184 | the output length is (#spaces) + 5·(#non-spaces) |
| Baconian.ModDouble | Cypher_Solver.java:235-240 | setting bit `j` is adding 2^j to the lower bits |
| Baconian.BlockPrefixValue | Cypher_Solver.java:232-244 | the first `j` symbols of a block decode to the ordinal's low `j` bits |
| Baconian.BlockValue | Cypher_Solver.java:232-244 | a block decodes to its ordinal mod 32 |
| Baconian.DecodePiece | Cypher_Solver.java:210-252 | the piece of one character, followed by any text, decodes to the folded character and then that text's decoding |
| Baconian.DecodeEncodeThen | Cypher_Solver.java:152-254 | decoding an encoding followed by any text gives `Fold(s)` and then the decoding of that text |
| Baconian.DecodeEncode | Cypher_Solver.java:152-254 | the round trip gives `s` with each non-space `c` replaced by `chr(ord(c) % 32)` |
| Baconian.FoldIdentity | Cypher_Solver.java:246-247 | folding leaves a text unchanged exactly when every non-space ordinal is below 32 |
| Baconian.DecodeEncodeIdentity | Cypher_Solver.java:152-254 | the round trip is the identity exactly when every non-space ordinal is below 32 |
| Baconian.TruncatedTail | Cypher_Solver.java:221-225 | one to four trailing symbols after the last block are silently ignored |
| Baconian.LossyExample | Cypher_Solver.java:152-254 | "A " encodes to "abbbb " and comes back as the control character 1 and a space |
| Baconian.EncodeAt | Cypher_Solver.java:162-184 | the encryption loop invariant is kept by one step |
| Baconian.WriteBlock | Cypher_Solver.java:171-183 | the inner bit loop writes exactly `Block(ord)` |
| Baconian.EncryptBaconian | Cypher_Solver.java:152-186 | the loop produces `Encode(input)` |
| Baconian.DecodeSpaceAt | Cypher_Solver.java:213-217 | a space in the cipher text is one space of output |
| Baconian.DecodeShortAt | Cypher_Solver.java:221-225 | stopping at an incomplete block leaves the full decoding |
| Baconian.DecodeBlockAt | Cypher_Solver.java:228-250 | a whole block is one character, its value |
| Baconian.ValueStep | Cypher_Solver.java:232-244 | reading one more symbol adds its bit to the value |
| Baconian.ReadBlock | Cypher_Solver.java:228-244 | the inner loop computes the value of the five symbols at `i` |
| Baconian.DecryptBaconian | Cypher_Solver.java:199-254 | the walk with its early break produces `Decode(input)` |
| Affine.EncryptChar | Cypher_Solver.java:275-285 | a non-letter is copied |
| Affine.DecryptChar | Cypher_Solver.java:305-317 | a non-letter is copied, and a letter always decrypts to a capital, for any `b` and `c` |
| Affine.Encrypt | Cypher_Solver.java:266-288 | encryption keeps the length |
| Affine.Decrypt | Cypher_Solver.java:296-320 | decryption keeps the length |
| Affine.NonLettersKept | Cypher_Solver.java:273-319 | both directions keep each non-letter at its position, and decryption makes each letter a capital |
| Affine.EncryptLetter | Cypher_Solver.java:278-280 | for `a, b` in 0..2^15, a letter encrypts to the capital at `(a·x + b) mod 26` |
| Affine.EncryptOffset | Cypher_Solver.java:279 | the 32-bit computation of `(a*x + b) % 26` is the mathematical one for such `a, b` |
| Affine.ProductInRange | Cypher_Solver.java:309 | `c*(y - b)` fits in an `int` for `b, c` in 0..2^15 |
| Affine.DecryptCapital | Cypher_Solver.java:308-312 | a capital decrypts to the capital at `c·(y - b) mod 26` |
| Affine.InverseCancels | Cypher_Solver.java:309-311 | with `a·c ≡ 1 (mod 26)`, decrypting undoes encrypting modulo 26 |
| Affine.DecryptEncryptChar | Cypher_Solver.java:266-320 | one character of the round trip gives back `Restored(ch)` |
| Affine.DecryptEncrypt | Cypher_Solver.java:266-320 | the round trip gives each character's `Restored` form, and so gives back every text without lower-case letters |
| Affine.RestoredCapitals | Cypher_Solver.java:276-280 | only lower-case letters are not restored as themselves |
| Affine.HelloEncrypt | Cypher_Solver.java:266-288 | with the default key 5, 8, 21, "HELLO" encrypts to "RCLLA" |
| Affine.HelloDecrypt | Cypher_Solver.java:296-320 | "RCLLA" decrypts back to "HELLO" |
| Affine.EncryptAffine | Cypher_Solver.java:266-288 | the append loop produces `Encrypt(input, a, b, c)` |
| Affine.DecryptAffine | Cypher_Solver.java:296-320 | the append loop produces `Decrypt(input, a, b, c)` |
| Morse.CodeOfKeys | Cypher_Solver.java:342-377 | the encryption table's keys are exactly A–Z and 0–9 |
| Morse.CodeOfIsCode | Cypher_Solver.java:342-377 | every code is non-empty and made of dots and dashes |
| Morse.CodeOfIsCodeLowDigit | Cypher_Solver.java:368-372 | the same for the digits 0–4 |
| Morse.CodeOfIsCodeHighDigit | Cypher_Solver.java:373-377 | the same for the digits 5–9 |
| Morse.CharOfCodeOf | Cypher_Solver.java:416-451 | the decryption table takes every code back to its character |
| Morse.CodesDistinct | Cypher_Solver.java:342-377 | no two characters share a code |
| Morse.CodeOfCharOf | Cypher_Solver.java:416-451 | every entry of the decryption table comes from the encryption table, so the tables are inverse |
| Morse.TrimLeft | Cypher_Solver.java:455 | the left trim is a suffix, everything it drops is at most ' ', and it starts with a character above ' ' |
| Morse.TrimRight | Cypher_Solver.java:455 | the right trim is a prefix, everything it drops is at most ' ', and it ends with a character above ' ' |
| Morse.Trim | Cypher_Solver.java:455 | `trim()` is no longer than its input and has no character at most ' ' at either end |
| Morse.TrimIsSlice | Cypher_Solver.java:455 | `trim()` is a contiguous piece of its input, and everything removed before and after it is at most ' ' |
| Morse.Token | Cypher_Solver.java:455 | a token is the longest whitespace-free prefix |
| Morse.WordsShape | Cypher_Solver.java:455 | `split("\\s+")` yields non-empty tokens without whitespace |
| Morse.Kept | Cypher_Solver.java:387-396 | the characters encryption keeps are no more than the input |
| Morse.PiecesMorse | Cypher_Solver.java:383-397 | the builder holds only dots, dashes, slashes and spaces |
| Morse.EncodeShape | Cypher_Solver.java:333-399 | the encryption uses only dots, dashes, slashes and spaces, and has no leading or trailing whitespace |
| Morse.MorseTextTrim | Cypher_Solver.java:398 | trimming keeps a text of Morse characters |
| Morse.TokenOfWord | Cypher_Solver.java:455 | a word followed by whitespace is one token |
| Morse.WordThen | Cypher_Solver.java:455 | a word and a space split off as one token ahead of the rest |
| Morse.WordsPiece | Cypher_Solver.java:387-396 | a character's piece splits into "/", its code, or nothing |
| Morse.DecodeTokensAppend | Cypher_Solver.java:457-469 | decoding a token list is decoding its parts in order |
| Morse.DecodePieces | Cypher_Solver.java:457-469 | the untrimmed builder decodes to the kept characters |
| Morse.WordsTrimLeft | Cypher_Solver.java:455 | leading whitespace changes no token |
| Morse.TokenSnoc | Cypher_Solver.java:455 | a trailing whitespace character does not change the first token |
| Morse.WordsSnoc | Cypher_Solver.java:455 | a trailing whitespace character adds no token |
| Morse.WordsTrimRight | Cypher_Solver.java:455 | trailing whitespace changes no token |
| Morse.WordsTrim | Cypher_Solver.java:455 | trimming a Morse text changes no token |
| Morse.DecodeEncode | Cypher_Solver.java:333-472 | the round trip gives the upper-cased input without the characters outside the table and spaces |
| Morse.KeptAll | Cypher_Solver.java:387-396 | nothing is dropped exactly when every character is a space or in the table |
| Morse.DecodeEncodeIdentity | Cypher_Solver.java:333-472 | on spaces, capitals and digits the round trip is the identity, runs of spaces included |
| Morse.SosExample | Cypher_Solver.java:333-472 | "SOS" encrypts to "... --- ..." and decrypts back |
| Morse.UnknownTokenDropped | Cypher_Solver.java:463-469 | the unknown token "..--.." is dropped: "... ..--.. ..." decrypts to "SS" |
| Morse.ExampleTokens | Cypher_Solver.java:457-469 | "..." decodes to "S" and "..--.." to nothing |
| Morse.DecodeThree | Cypher_Solver.java:455-469 | three single-spaced words decrypt token by token |
| Morse.DecodeOne | Cypher_Solver.java:457-469 | a one-token list decodes as its token |
| Morse.DecodeUntrimmed | Cypher_Solver.java:455 | a text without whitespace at its ends is split as it is |
| Morse.TrimIdle | Cypher_Solver.java:455 | such a text is its own trim |
| Morse.ThreeWords | Cypher_Solver.java:455 | three single-spaced words split into exactly those three tokens |
| Morse.WordsOfWord | Cypher_Solver.java:455 | a whitespace-free word is one token |
| Morse.TokenAll | Cypher_Solver.java:455 | a whitespace-free word is its own first token |
| Morse.PiecesAt | Cypher_Solver.java:383-397 | the encryption loop invariant is kept by one character |
| Morse.EncryptMorseCode | Cypher_Solver.java:333-399 | the append loop and the final trim produce `Encode(input)` |
| Morse.TokensAt | Cypher_Solver.java:457-469 | the decryption loop invariant is kept by one token |
| Morse.DecryptMorseCode | Cypher_Solver.java:407-472 | the token loop produces `Decode(input)` |
| Dispatch.DefaultsAccepted | Cypher_Solver.java:540-561 | the default affine parameters 5, 8, 21 pass the check `(a * c) % 26 == 1` |
| Dispatch.AffineCheck | Cypher_Solver.java:555 | for parameters in 0..2^15 the prompt's 32-bit check accepts exactly the keys where `c` inverts `a` modulo 26 |
| Dispatch.SmallProduct | Cypher_Solver.java:555 | for such parameters Java's `(a * c) % 26` is the mathematical remainder |
| Dispatch.OverflowBreaksRoundTrip | Cypher_Solver.java:555 | the check accepts a = 86304449, b = 0, c = 17, yet 'Z' encrypts to '.' (the 32-bit product wraps) and '.' decrypts to '.', so the round trip fails |
| Dispatch.ProcessAll | Cypher_Solver.java:574-653 | one output line per input line, in order, each the selected cipher and direction applied to that line |
| Dispatch.ProcessAllAppend | Cypher_Solver.java:574-653 | no state is carried between lines: processing two parts of a file writes the same lines as processing the whole |
| Dispatch.LineRoundTrip | Cypher_Solver.java:574-653 | a line encrypted in one run and decrypted in another with the same accepted parameters comes back per cipher: unchanged, upper-cased, folded, restored, or kept |
| Dispatch.FileRoundTrip | Cypher_Solver.java:574-653 | the same, line by line, for a whole file |
| Dispatch.RailFenceFile | Cypher_Solver.java:580-593 | a rail-fence file comes back unchanged in either order of the two runs |
| Dispatch.ProcessAllStep | Cypher_Solver.java:574-653 | writing one more line extends the lines written so far by that line's processing |
| Dispatch.ProcessOne | Cypher_Solver.java:576-649 | the selected cipher method in the selected direction writes `ProcessLine(settings, line)`, and "" for an unknown choice |
| Dispatch.ProcessLines | Cypher_Solver.java:574-653 | the file loop, calling the cipher methods, writes `ProcessAll(settings, lines)` |

## Left out

- Terminal and file I/O is not modelled. This covers the prompts, the file-existence loop, `Scanner` and the `FileWriter` to `Processing_File.txt`. The input file is a sequence of lines, and the model returns the output lines.
- The output model does not add the line separator that the loop appends to each line.
- `Dispatch.Accepted` states the prompt checks as a predicate on the settings the prompts produce. It does not model the re-prompting itself.
- `Dispatch.ProcessLine` is total. It yields "" for a cipher choice the prompts would have rejected, just as the loop's `processedLine` stays "" in that case.
- `null` inputs and keys are not modelled. Dafny strings cannot be null, and `Scanner.nextLine` never yields one.
- Case and letters are modelled on ASCII only. Non-ASCII letters, and case mappings that change length, are not modelled.
- `toUpperCase()` (Cypher_Solver.java:85, 117 and 380) uses the default locale. The model uses the locale-independent ASCII mapping. Under a Turkish locale, Java maps 'i' to 'İ' (U+0130), which the model does not capture.
- A Dafny `char` is a Unicode scalar value, but a Java `char` is a UTF-16 code unit. A character outside the Basic Multilingual Plane is one `char` here but two in Java. So the model does not capture that rail fence may separate the two halves of a surrogate pair, or that Baconian writes 10 symbols for such a character, 5 for each half.
- Affine.DecryptEncrypt: proved only for `a`, `b` and `c` in 0..2^15. In that range no intermediate product leaves the 32-bit range. Outside it, the round trip can really fail: `Dispatch.OverflowBreaksRoundTrip` shows parameters a = 86304449, b = 0, c = 17 that pass the prompt's check, yet 'Z' encrypts to '.' and decrypts to '.'.
- Dispatch.LineRoundTrip: proved only for Vigenère keys made of letters and for affine parameters in 0..2^15. For larger affine parameters it can fail, as `Dispatch.OverflowBreaksRoundTrip` shows.
- Morse.Words models `split("\\s+")`, but drops the single empty token Java yields for an empty string and for a leading whitespace run. Trimming removes such a run first, and an empty token decodes to nothing, so the decryption is the same.
- `Morse.Encode` has no contract of its own. What its output looks like is stated by `Morse.EncodeShape`.
- The two Morse `HashMap`s are rebuilt on every call in the source. Here they are the constant lookup functions `Morse.CodeOf` and `Morse.CharOf`.
- `StringBuilder` is modelled as a `string` value that the loop reassigns.
- WeatherApp.java and Main.java are not part of this model. They cover HTTP calls, JSON parsing, floating-point forecasts and an interactive menu.
