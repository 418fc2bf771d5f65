/**
 * The 1-bit encoder: each pixel is thresholded to light or dark and eight
 * pixels are packed into a byte, first pixel in the most significant bit.
 */
module Monochrome {
  import opened Pixels

  /** A channel strictly above this value makes the pixel light. */
  const Threshold: bv8 := 130

  /** Light iff some channel exceeds the threshold. */
  predicate IsLight(p: Rgb)
  {
    p.r > Threshold || p.g > Threshold || p.b > Threshold
  }

  /** A pixel that is not light is dark; dark pixels are the ones encoded as 1. */
  predicate IsDark(p: Rgb)
  {
    !IsLight(p)
  }

  /**
   * Display polarity: a dark pixel is encoded as 1 and a light pixel as 0,
   * so the bit is set exactly when every channel is at most the threshold.
   */
  function DarkBit(p: Rgb): (d: bv8)
    ensures d == 1 <==> (p.r <= Threshold && p.g <= Threshold && p.b <= Threshold)
    ensures d == 0 <==> IsLight(p)
  {
    if IsLight(p) then 0 else 1
  }

  /** The mask of the `j`-th bit counted from the most significant end, that is bit `7 - j`. */
  function MsbMask(j: nat): (m: bv8)
    requires j < 8
  {
    if j == 0 then 0x80 else if j == 1 then 0x40 else if j == 2 then 0x20 else if j == 3 then 0x10
    else if j == 4 then 0x08 else if j == 5 then 0x04 else if j == 6 then 0x02 else 0x01
  }

  /** The encoder's mask `1 << (7 - bitCount)` is the `bitCount`-th bit from the top. */
  lemma ShiftIsMsbMask(c: nat)
    requires c < 8
    ensures (1 as bv8) << (7 - Counter(c)) == MsbMask(c)
  {
  }

  /**
   * The `u8` bit counter holding the count `n`, written as a table so that
   * the bit-level proofs need no conversion between integers and bit-vectors.
   */
  function Counter(n: nat): (c: bv8)
    requires n <= 8
  {
    if n == 0 then 0 else if n == 1 then 1 else if n == 2 then 2 else if n == 3 then 3
    else if n == 4 then 4 else if n == 5 then 5 else if n == 6 then 6 else if n == 7 then 7 else 8
  }

  /** Incrementing the counter counts one more; it reaches 8 exactly from 7. */
  lemma CounterStep(n: nat)
    requires n < 8
    ensures Counter(n) + 1 == Counter(n + 1)
    ensures Counter(n) + 1 == 8 <==> n == 7
  {
  }

  /** Whether bit `7 - j` of `b` is 1. */
  predicate IsSet(b: bv8, j: nat)
    requires j < 8
  {
    b & MsbMask(j) != 0
  }

  /** Two bytes that agree on every bit are equal. */
  lemma BitsDetermineByte(a: bv8, b: bv8)
    requires forall j :: 0 <= j < 8 ==> IsSet(a, j) == IsSet(b, j)
    ensures a == b
  {
    assert IsSet(a, 0) == IsSet(b, 0) && IsSet(a, 1) == IsSet(b, 1);
    assert IsSet(a, 2) == IsSet(b, 2) && IsSet(a, 3) == IsSet(b, 3);
    assert IsSet(a, 4) == IsSet(b, 4) && IsSet(a, 5) == IsSet(b, 5);
    assert IsSet(a, 6) == IsSet(b, 6) && IsSet(a, 7) == IsSet(b, 7);
  }

  /**
   * The byte for a group of eight pixels: pixel `j` of the group gives
   * bit `7 - j`, so the first pixel lands in the most significant bit.
   */
  function PackGroup(g: seq<Rgb>): bv8
    requires |g| == 8
  {
    // Dafny's `|` binds tighter than `<<`, hence the parentheses.
    (DarkBit(g[0]) << 7) | (DarkBit(g[1]) << 6) | (DarkBit(g[2]) << 5) | (DarkBit(g[3]) << 4) |
    (DarkBit(g[4]) << 3) | (DarkBit(g[5]) << 2) | (DarkBit(g[6]) << 1) | DarkBit(g[7])
  }

  /** Bit `7 - j` of a group's byte is 1 exactly when pixel `j` of the group is dark. */
  lemma PackGroupBits(g: seq<Rgb>)
    requires |g| == 8
    ensures forall j :: 0 <= j < 8 ==> (IsSet(PackGroup(g), j) <==> IsDark(g[j]))
  {
    forall j | 0 <= j < 8
      ensures IsSet(PackGroup(g), j) <==> IsDark(g[j])
    {
      PackGroupBit(g, j);
    }
  }

  /** One bit of `PackGroupBits`. */
  lemma PackGroupBit(g: seq<Rgb>, j: nat)
    requires |g| == 8 && j < 8
    ensures IsSet(PackGroup(g), j) <==> IsDark(g[j])
  {
  }

  /**
   * The encoded buffer for a row-major pixel sequence: one byte per whole
   * group of eight pixels. A trailing group of fewer than eight pixels
   * produces no byte.
   */
  function Pack(s: seq<Rgb>): (out: seq<bv8>)
    ensures |out| == |s| / 8
  {
    if |s| < 8 then [] else [PackGroup(s[..8])] + Pack(s[8..])
  }

  /** Pixel `j` of group `i` goes to bit `7 - j` of byte `i`. */
  lemma {:induction false} PackBitOfGroup(s: seq<Rgb>, i: nat, j: nat)
    requires i < |s| / 8 && j < 8
    ensures 8 * i + j < |s|
    ensures IsSet(Pack(s)[i], j) <==> IsDark(s[8 * i + j])
  {
    if i > 0 {
      PackBitOfGroup(s[8..], i - 1, j);
      assert Pack(s)[i] == Pack(s[8..])[i - 1];
      assert s[8..][8 * (i - 1) + j] == s[8 * i + j];
    } else {
      PackGroupBit(s[..8], j);
    }
  }

  /** Pixel `k` goes to bit `7 - k % 8` of byte `k / 8`, for every pixel of a whole group. */
  lemma PackBit(s: seq<Rgb>, k: nat)
    requires k < |s| / 8 * 8
    ensures IsSet(Pack(s)[k / 8], k % 8) <==> IsDark(s[k])
  {
    PackBitOfGroup(s, k / 8, k % 8);
  }

  /** The pixels past the last whole group never reach the buffer. */
  lemma {:induction false} PackIgnoresTail(s: seq<Rgb>, t: seq<Rgb>)
    requires |s| % 8 == 0 && |t| < 8
    ensures Pack(s + t) == Pack(s)
  {
    if |s| >= 8 {
      assert (s + t)[..8] == s[..8];
      assert (s + t)[8..] == s[8..] + t;
      PackIgnoresTail(s[8..], t);
    } else {
      assert s == [];
      assert s + t == t;
    }
  }

  /** Appending a pixel that does not complete a group of eight leaves the buffer as it was. */
  lemma {:induction false} PackSnocPartial(s: seq<Rgb>, p: Rgb)
    requires (|s| + 1) % 8 != 0
    ensures Pack(s + [p]) == Pack(s)
  {
    if |s| >= 8 {
      var t := s[8..];
      assert (s + [p])[..8] == s[..8];
      assert (s + [p])[8..] == t + [p];
      PackSnocPartial(t, p);
    }
  }

  /** Appending the pixel that completes a group of eight appends that group's byte. */
  lemma {:induction false} PackSnocGroup(s: seq<Rgb>, p: Rgb)
    requires (|s| + 1) % 8 == 0
    ensures Pack(s + [p]) == Pack(s) + [PackGroup((s + [p])[|s| - 7..])]
  {
    if |s| >= 8 {
      var t := s[8..];
      assert (s + [p])[..8] == s[..8];
      assert (s + [p])[8..] == t + [p];
      PackSnocGroup(t, p);
      assert (t + [p])[|t| - 7..] == (s + [p])[|s| - 7..];
    } else {
      assert (s + [p])[|s| - 7..] == (s + [p])[..8];
      assert (s + [p])[8..] == [];
    }
  }

  /**
   * The top `|pending|` bits of the working byte hold the dark flags of the
   * pending pixels, first pixel on top. The bits below are left over from
   * the previous byte and are unconstrained.
   */
  ghost predicate Holds(monoByte: bv8, pending: seq<Rgb>)
  {
    |pending| <= 8 &&
    forall j :: 0 <= j < |pending| ==> (IsSet(monoByte, j) <==> IsDark(pending[j]))
  }

  /**
   * The encoder's state after visiting the pixels `seen`: the bytes pushed
   * so far are the packing of `seen`, and the working byte holds the
   * `bitCount` pixels of the unfinished group.
   */
  ghost predicate Packed(seen: seq<Rgb>, bitCount: nat, monoByte: bv8, monoPixels: seq<bv8>)
  {
    bitCount == |seen| % 8 &&
    monoPixels == Pack(seen) &&
    Holds(monoByte, seen[|seen| - bitCount..])
  }

  /** `before` with bit `7 - j` cleared for a light pixel `p` and set for a dark one. */
  function MarkBit(before: bv8, j: nat, p: Rgb): bv8
    requires j < 8
  {
    if IsLight(p) then before & !MsbMask(j) else before | MsbMask(j)
  }

  /** Writing the next pending pixel's bit keeps the bits already written. */
  lemma WriteBitHolds(before: bv8, pending: seq<Rgb>, p: Rgb)
    requires Holds(before, pending) && |pending| < 8
    ensures Holds(MarkBit(before, |pending|, p), pending + [p])
  {
    var c := |pending|;
    var after := MarkBit(before, c, p);
    if IsLight(p) { ClearBit(before, c); } else { SetBit(before, c); }
    forall j | 0 <= j < c + 1
      ensures IsSet(after, j) <==> IsDark((pending + [p])[j])
    {
      if j < c {
        assert IsSet(before, j) <==> IsDark(pending[j]);
      }
    }
  }

  /** A byte holding all eight pixels of a group is that group's packing. */
  lemma GroupByte(b: bv8, g: seq<Rgb>)
    requires |g| == 8 && Holds(b, g)
    ensures b == PackGroup(g)
  {
    PackGroupBits(g);
    BitsDetermineByte(b, PackGroup(g));
  }

  /** The pixels pending after one more pixel are the pending ones and that pixel. */
  lemma PendingSnoc(seen: seq<Rgb>, c: nat, p: Rgb)
    requires c <= |seen|
    ensures (seen + [p])[|seen + [p]| - (c + 1)..] == seen[|seen| - c..] + [p]
  {
  }

  /** Writing a pixel that does not complete a group keeps `Packed` and pushes nothing. */
  lemma WriteBitKeepsPacked(seen: seq<Rgb>, bitCount: nat, before: bv8, monoPixels: seq<bv8>, p: Rgb)
    requires Packed(seen, bitCount, before, monoPixels) && bitCount < 7
    ensures Packed(seen + [p], bitCount + 1, MarkBit(before, bitCount, p), monoPixels)
  {
    PendingSnoc(seen, bitCount, p);
    WriteBitHolds(before, seen[|seen| - bitCount..], p);
    PackSnocPartial(seen, p);
  }

  /**
   * Writing the eighth pixel of a group makes the working byte exactly the
   * packing of that group; pushing it keeps `Packed` with no pixel pending.
   */
  lemma WriteBitCompletesGroup(seen: seq<Rgb>, before: bv8, monoPixels: seq<bv8>, p: Rgb)
    requires Packed(seen, 7, before, monoPixels)
    ensures Packed(seen + [p], 0, MarkBit(before, 7, p), monoPixels + [MarkBit(before, 7, p)])
  {
    var pending := seen[|seen| - 7..];
    PendingSnoc(seen, 7, p);
    WriteBitHolds(before, pending, p);
    GroupByte(MarkBit(before, 7, p), pending + [p]);
    PackSnocGroup(seen, p);
    assert (seen + [p])[|seen| + 1..] == [];
  }

  /**
   * The Monochrome arm of the encoder: visits the pixels row by row (`y`
   * outer, `x` inner), sets or clears bit `7 - bitCount` of the working
   * byte, and pushes the byte each time eight bits have been written. The
   * working byte is never reset and nothing is flushed after the loops, so
   * a trailing partial group is dropped; every pushed byte is exactly the
   * packing of its eight pixels.
   */
  method Encode(img: Image) returns (monoPixels: seq<bv8>)
    requires img.Valid()
    ensures monoPixels == Pack(PixelsOf(img))
    ensures |monoPixels| == img.width * img.height / 8
    ensures forall k :: 0 <= k < |monoPixels| * 8 ==>
      (IsSet(monoPixels[k / 8], k % 8) <==> IsDark(PixelsOf(img)[k]))
  {
    monoPixels := [];
    var bitCount: bv8 := 0;
    var monoByte: bv8 := 0;
    ghost var count: nat := 0;
    ghost var seen: seq<Rgb> := [];
    for y := 0 to img.height
      invariant seen == Flatten(img.rows[..y])
      invariant Packed(seen, count, monoByte, monoPixels) && bitCount == Counter(count)
    {
      monoPixels, bitCount, monoByte, count := EncodeRow(img.rows[y], seen, count, monoPixels, bitCount, monoByte);
      FlattenSnoc(img.rows, y);
      seen := seen + img.rows[y];
    }
    assert img.rows[..img.height] == img.rows;
    forall k | 0 <= k < |monoPixels| * 8
      ensures IsSet(monoPixels[k / 8], k % 8) <==> IsDark(PixelsOf(img)[k])
    {
      PackBit(seen, k);
    }
    FlattenLength(img.rows, img.width);
  }

  /**
   * The inner loop of `Encode` over one row, `x` from left to right, with
   * the encoder's three variables passed in and out. `seen` and `count` are
   * the pixels visited before the row and the bit count as a number.
   */
  method EncodeRow(row: seq<Rgb>, ghost seen: seq<Rgb>, ghost count: nat,
                   monoPixels: seq<bv8>, bitCount: bv8, monoByte: bv8)
    returns (monoPixels': seq<bv8>, bitCount': bv8, monoByte': bv8, ghost count': nat)
    requires Packed(seen, count, monoByte, monoPixels) && bitCount == Counter(count)
    ensures Packed(seen + row, count', monoByte', monoPixels') && bitCount' == Counter(count')
  {
    monoPixels', bitCount', monoByte', count' := monoPixels, bitCount, monoByte, count;
    ghost var visited := seen;
    for x := 0 to |row|
      invariant visited == seen + row[..x]
      invariant Packed(visited, count', monoByte', monoPixels') && bitCount' == Counter(count')
    {
      var pixel := row[x];
      WritePixelKeepsPacked(visited, count', bitCount', monoByte', monoPixels', pixel);
      // 130 is `Threshold`: this is the `IsLight` test as the loop writes it.
      if pixel.r > 130 || pixel.g > 130 || pixel.b > 130 {
        monoByte' := monoByte' & !(1 << (7 - bitCount'));
      } else {
        monoByte' := monoByte' | (1 << (7 - bitCount'));
      }
      RowPrefixSnoc(seen, row, x);
      visited := visited + [pixel];
      bitCount' := bitCount' + 1;
      count' := count' + 1;
      if bitCount' == 8 {
        monoPixels' := monoPixels' + [monoByte'];
        bitCount' := 0;
        count' := 0;
      }
    }
    assert row[..|row|] == row;
  }

  /**
   * The encoder's in-place update of the working byte for pixel `p`, with
   * `bitCount` pixels of the group already written: a light pixel clears
   * the bit under `1 << (7 - bitCount)`, a dark one sets it.
   */
  function WriteBit(monoByte: bv8, bitCount: bv8, p: Rgb): bv8
    requires bitCount < 8
  {
    // 130 is `Threshold`: this is the `IsLight` test as the loop writes it.
    if p.r > 130 || p.g > 130 || p.b > 130 then monoByte & !(1 << (7 - bitCount))
    else monoByte | (1 << (7 - bitCount))
  }

  /**
   * One iteration of the encoder keeps `Packed`: write the pixel's bit and,
   * when that completes eight bits, push the working byte and restart the count.
   */
  lemma WritePixelKeepsPacked(seen: seq<Rgb>, count: nat, bitCount: bv8, monoByte: bv8, monoPixels: seq<bv8>, p: Rgb)
    requires Packed(seen, count, monoByte, monoPixels) && bitCount == Counter(count)
    ensures count < 8 && bitCount + 1 == Counter(count + 1)
    ensures bitCount + 1 == 8 <==> count == 7
    ensures count < 7 ==>
      Packed(seen + [p], count + 1, WriteBit(monoByte, bitCount, p), monoPixels)
    ensures count == 7 ==>
      Packed(seen + [p], 0, WriteBit(monoByte, bitCount, p), monoPixels + [WriteBit(monoByte, bitCount, p)])
  {
    CounterStep(count);
    WriteBitIsMarkBit(monoByte, count, p);
    if count < 7 {
      WriteBitKeepsPacked(seen, count, monoByte, monoPixels, p);
    } else {
      WriteBitCompletesGroup(seen, monoByte, monoPixels, p);
    }
  }

  /** The update marks bit `7 - bitCount` with the pixel's dark flag. */
  lemma WriteBitIsMarkBit(monoByte: bv8, bitCount: nat, p: Rgb)
    requires bitCount < 8
    ensures WriteBit(monoByte, Counter(bitCount), p) == MarkBit(monoByte, bitCount, p)
  {
    ShiftIsMsbMask(bitCount);
  }

  /** Clearing bit `7 - c` makes that bit 0 and leaves every other bit as it was. */
  lemma ClearBit(b: bv8, c: nat)
    requires c < 8
    ensures forall j :: 0 <= j < 8 ==> (IsSet(b & !MsbMask(c), j) <==> j != c && IsSet(b, j))
  {
  }

  /** Setting bit `7 - c` makes that bit 1 and leaves every other bit as it was. */
  lemma SetBit(b: bv8, c: nat)
    requires c < 8
    ensures forall j :: 0 <= j < 8 ==> (IsSet(b | MsbMask(c), j) <==> j == c || IsSet(b, j))
  {
  }

  /** The buffer has one byte per whole group: a 3-by-3 image gives a single byte. */
  lemma ThreeByThree(img: Image)
    requires img.Valid() && img.width == 3 && img.height == 3
    ensures |Pack(PixelsOf(img))| == 1
  {
    FlattenLength(img.rows, img.width);
  }
}
