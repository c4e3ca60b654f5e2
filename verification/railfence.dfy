/** The three-track rail-fence cipher of `encryptRailFence` / `decryptRailFence`.
    The cipher text lists the characters at positions 0, 4, 8, ... (track A), then
    1, 3, 5, ... (track B), then 2, 6, 10, ... (track C). */
module RailFence {

  /** Number of positions of a length-`n` text on each track. */
  function CountA(n: nat): nat { (n + 3) / 4 }
  function CountB(n: nat): nat { n / 2 }
  function CountC(n: nat): nat { (n + 1) / 4 }

  lemma TracksCover(n: nat)
    ensures CountA(n) + CountB(n) + CountC(n) == n
  {
    var q := n / 4;
    if n % 4 == 0 {
      assert n == 4 * q && CountA(n) == q && CountB(n) == 2 * q && CountC(n) == q;
    } else if n % 4 == 1 {
      assert n == 4 * q + 1 && CountA(n) == q + 1 && CountB(n) == 2 * q && CountC(n) == q;
    } else if n % 4 == 2 {
      assert n == 4 * q + 2 && CountA(n) == q + 1 && CountB(n) == 2 * q + 1 && CountC(n) == q;
    } else {
      assert n == 4 * q + 3 && CountA(n) == q + 1 && CountB(n) == 2 * q + 1 && CountC(n) == q + 1;
    }
  }

  /** The text position whose character is written at index `k` of the cipher text. */
  function Position(n: nat, k: nat): (p: nat)
    requires k < n
    ensures p < n
  {
    TracksCover(n);
    if k < CountA(n) then 4 * k
    else if k < CountA(n) + CountB(n) then 2 * (k - CountA(n)) + 1
    else 4 * (k - CountA(n) - CountB(n)) + 2
  }

  /** The cipher-text index that text position `p` is written to: the inverse of
      `Position`. */
  function Slot(n: nat, p: nat): (k: nat)
    requires p < n
    ensures k < n
    ensures Position(n, k) == p
  {
    TracksCover(n);
    if p % 4 == 0 then p / 4
    else if p % 2 == 1 then CountA(n) + p / 2
    else CountA(n) + CountB(n) + p / 4
  }

  lemma SlotByTrack(n: nat, p: nat)
    requires p < n
    ensures p % 4 == 0 || p % 2 == 1 || p % 4 == 2
    ensures p % 4 == 0 ==> Slot(n, p) == p / 4
    ensures p % 2 == 1 ==> Slot(n, p) == CountA(n) + p / 2
    ensures p % 4 == 2 ==> Slot(n, p) == CountA(n) + CountB(n) + p / 4
  {
  }

  /** `Position` and `Slot` are inverse bijections of 0..n-1, so the cipher is a
      permutation of positions; the three tracks are read in ascending order and are
      the positions that are 0 mod 4, odd, and 2 mod 4. */
  lemma {:induction false} PositionIsPermutation(n: nat, k: nat)
    requires k < n
    ensures Slot(n, Position(n, k)) == k
    ensures k < CountA(n) ==> Position(n, k) % 4 == 0
    ensures CountA(n) <= k < CountA(n) + CountB(n) ==> Position(n, k) % 2 == 1
    ensures CountA(n) + CountB(n) <= k ==> Position(n, k) % 4 == 2
    ensures k + 1 < CountA(n) ==> Position(n, k) < Position(n, k + 1)
    ensures CountA(n) <= k && k + 1 < CountA(n) + CountB(n) ==> Position(n, k) < Position(n, k + 1)
    ensures CountA(n) + CountB(n) <= k && k + 1 < n ==> Position(n, k) < Position(n, k + 1)
  {
    TracksCover(n);
  }

  /** Rail-fence encryption as a specification. */
  function Encode(s: string): (r: string)
    ensures |r| == |s|
  {
    seq(|s|, k requires 0 <= k < |s| => s[Position(|s|, k)])
  }

  /** Rail-fence decryption as a specification. */
  function Decode(s: string): (r: string)
    ensures |r| == |s|
  {
    seq(|s|, p requires 0 <= p < |s| => s[Slot(|s|, p)])
  }

  lemma {:induction false} DecodeEncode(s: string)
    ensures Decode(Encode(s)) == s
  {
  }

  lemma {:induction false} EncodeDecode(s: string)
    ensures Encode(Decode(s)) == s
  {
    forall k | 0 <= k < |s|
      ensures Encode(Decode(s))[k] == s[k]
    {
      PositionIsPermutation(|s|, k);
    }
  }

  /** A cursor `idx` that reads track A, B or C at text position `i` reads the
      cipher-text index whose position is `i`. */
  lemma OnTrackA(n: nat, idx: nat)
    requires 4 * idx < n
    ensures idx < CountA(n) && Position(n, idx) == 4 * idx
  {
  }

  lemma OnTrackB(n: nat, idx: nat)
    requires CountA(n) <= idx && 2 * (idx - CountA(n)) + 1 < n
    ensures idx < CountA(n) + CountB(n) && Position(n, idx) == 2 * (idx - CountA(n)) + 1
  {
  }

  lemma OnTrackC(n: nat, idx: nat)
    requires CountA(n) + CountB(n) <= idx && 4 * (idx - CountA(n) - CountB(n)) + 2 < n
    ensures idx < n && Position(n, idx) == 4 * (idx - CountA(n) - CountB(n)) + 2
  {
    TracksCover(n);
  }

  /** Writing input character `idx` at its position keeps every character read so
      far at its own position, since `Position` is injective. */
  lemma Place(input: string, buf: string, idx: nat)
    requires |buf| == |input| && idx < |input|
    requires forall j :: 0 <= j < idx ==> buf[Position(|input|, j)] == input[j]
    ensures forall j :: 0 <= j <= idx ==>
              buf[Position(|input|, idx) := input[idx]][Position(|input|, j)] == input[j]
  {
    var n := |input|;
    forall j | 0 <= j < idx
      ensures Position(n, j) != Position(n, idx)
    {
      PositionIsPermutation(n, j);
      PositionIsPermutation(n, idx);
    }
  }

  /** A buffer holding every input character at its position is the decryption of
      the input. */
  lemma AllPlaced(input: string, buf: string)
    requires |buf| == |input|
    requires forall j :: 0 <= j < |input| ==> buf[Position(|input|, j)] == input[j]
    ensures buf == Decode(input)
  {
    var n := |input|;
    forall p | 0 <= p < n
      ensures buf[p] == input[Slot(n, p)]
    {
      assert buf[Position(n, Slot(n, p))] == input[Slot(n, p)];
    }
  }

  /** `encryptRailFence`: three index loops appending to a builder. */
  method EncryptRailFence(input: string) returns (output: string)
    ensures output == Encode(input)
  {
    var n := |input|;
    TracksCover(n);
    output := [];
    var i := 0;
    while i < n
      invariant i == 4 * |output| && |output| <= CountA(n)
      invariant forall k :: 0 <= k < |output| ==> output[k] == input[Position(n, k)]
    {
      output := output + [input[i]];
      i := i + 4;
    }
    i := 1;
    while i < n
      invariant CountA(n) <= |output| <= CountA(n) + CountB(n)
      invariant i == 2 * (|output| - CountA(n)) + 1
      invariant forall k :: 0 <= k < |output| ==> output[k] == input[Position(n, k)]
    {
      output := output + [input[i]];
      i := i + 2;
    }
    i := 2;
    while i < n
      invariant CountA(n) + CountB(n) <= |output| <= n
      invariant i == 4 * (|output| - CountA(n) - CountB(n)) + 2
      invariant forall k :: 0 <= k < |output| ==> output[k] == input[Position(n, k)]
    {
      output := output + [input[i]];
      i := i + 4;
    }
  }

  /** `decryptRailFence`: a copy of the input (the builder) is overwritten position by
      position in the encryption order, from a cursor `idx` that reads the input
      left to right. */
  method DecryptRailFence(input: string) returns (output: string)
    ensures output == Decode(input)
  {
    var n := |input|;
    var buf := input;
    var idx := 0;
    var i := 0;
    while i < n
      invariant |buf| == n && idx <= CountA(n) && i == 4 * idx
      invariant forall j :: 0 <= j < idx ==> buf[Position(n, j)] == input[j]
    {
      OnTrackA(n, idx);
      Place(input, buf, idx);
      buf := buf[i := input[idx]];
      idx := idx + 1;
      i := i + 4;
    }
    i := 1;
    while i < n
      invariant |buf| == n && CountA(n) <= idx <= CountA(n) + CountB(n)
      invariant i == 2 * (idx - CountA(n)) + 1
      invariant forall j :: 0 <= j < idx ==> buf[Position(n, j)] == input[j]
    {
      OnTrackB(n, idx);
      Place(input, buf, idx);
      buf := buf[i := input[idx]];
      idx := idx + 1;
      i := i + 2;
    }
    i := 2;
    while i < n
      invariant |buf| == n && CountA(n) + CountB(n) <= idx <= n
      invariant i == 4 * (idx - CountA(n) - CountB(n)) + 2
      invariant forall j :: 0 <= j < idx ==> buf[Position(n, j)] == input[j]
    {
      OnTrackC(n, idx);
      Place(input, buf, idx);
      buf := buf[i := input[idx]];
      idx := idx + 1;
      i := i + 4;
    }
    TracksCover(n);
    AllPlaced(input, buf);
    output := buf;
  }
}
