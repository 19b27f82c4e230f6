/**
  The bit packer of the compressor (bitSerialization): the codes of the emitted
  dictionary indices are written one after another into bytes, most significant bit
  first. Every full byte is emitted; the bits left over at the end are not, only their
  number follows as one last byte.

  A byte holds 8 bits (BYTE_WIDTH * sizeof(unsigned char)). The output stream is the
  method's result. A code character other than '1' counts as a 0 bit, as in the source,
  where only '1' sets a bit.
*/
module BitPacker {
  import opened Config
  import Huffman

  // ---------------------------------------------------------------------------
  // Bit strings and the numbers they spell
  // ---------------------------------------------------------------------------

  /** v << n on unbounded integers. */
  function Shl(v: nat, n: nat): nat
  {
    if n == 0 then v else 2 * Shl(v, n - 1)
  }

  lemma {:induction false} ShlAdd(a: nat, b: nat, n: nat)
    ensures Shl(a + b, n) == Shl(a, n) + Shl(b, n)
  {
    if n > 0 {
      ShlAdd(a, b, n - 1);
    }
  }

  lemma {:induction false} ShlZero(n: nat)
    ensures Shl(0, n) == 0
  {
    if n > 0 {
      ShlZero(n - 1);
    }
  }

  /** a | b on unbounded integers, one bit at a time from the lowest. */
  function Or(a: nat, b: nat): nat
    decreases a + b
  {
    if a == 0 && b == 0 then 0
    else 2 * Or(a / 2, b / 2) + (if a % 2 == 1 || b % 2 == 1 then 1 else 0)
  }

  lemma {:induction false} OrZero(a: nat)
    ensures Or(a, 0) == a
  {
    if a > 0 {
      OrZero(a / 2);
    }
  }

  /** Setting a bit that is clear in v (bit k, character n-1-k of its n lowest bits)
      adds 1 << k. */
  lemma {:induction false} OrClearBit(v: nat, n: nat, k: nat)
    requires k < n && Bits(v, n)[n - 1 - k] == '0'
    ensures Or(v, Shl(1, k)) == v + Shl(1, k)
  {
    if k == 0 {
      assert v % 2 == 0;
      OrZero(v / 2);
    } else {
      assert Bits(v, n)[n - 1 - k] == Bits(v / 2, n - 1)[(n - 1) - 1 - (k - 1)];
      OrClearBit(v / 2, n - 1, k - 1);
    }
  }

  /** The bits a code string stands for: only '1' is a set bit. */
  function Cleaned(bits: string): (r: string)
    ensures |r| == |bits|
  {
    if bits == [] then [] else [if bits[0] == '1' then '1' else '0'] + Cleaned(bits[1..])
  }

  function Zeros(n: nat): (r: string)
    ensures |r| == n
    ensures forall k :: 0 <= k < n ==> r[k] == '0'
  {
    if n == 0 then [] else Zeros(n - 1) + ['0']
  }

  /** The number `bits` spell, most significant bit first. */
  function Value(bits: string): nat
  {
    if bits == [] then 0
    else 2 * Value(bits[..|bits| - 1]) + (if bits[|bits| - 1] == '1' then 1 else 0)
  }

  /** The `n` lowest bits of `v`, most significant first. */
  function Bits(v: nat, n: nat): (bits: string)
    ensures |bits| == n
  {
    if n == 0 then [] else Bits(v / 2, n - 1) + [if v % 2 == 1 then '1' else '0']
  }

  lemma {:induction false} CleanedConcat(a: string, b: string)
    ensures Cleaned(a + b) == Cleaned(a) + Cleaned(b)
    decreases |a|
  {
    if a == [] {
      assert a + b == b;
    } else {
      assert (a + b)[1..] == a[1..] + b;
      CleanedConcat(a[1..], b);
    }
  }

  /** A position of the cleaned string is set exactly when the code character is '1'. */
  lemma {:induction false} CleanedAt(bits: string, k: nat)
    requires k < |bits|
    ensures Cleaned(bits)[k] == '1' <==> bits[k] == '1'
    ensures Cleaned(bits)[k] == '0' <==> bits[k] != '1'
  {
    if k > 0 {
      CleanedAt(bits[1..], k - 1);
    }
  }

  /** Codes made of '0' and '1' only are read as they are. */
  lemma {:induction false} CleanedBits(bits: string)
    requires Huffman.IsBits(bits)
    ensures Cleaned(bits) == bits
  {
    if bits != [] {
      CleanedBits(bits[1..]);
    }
  }

  lemma {:induction false} ValueBound(bits: string)
    ensures Value(bits) < Shl(1, |bits|)
  {
    if bits != [] {
      ValueBound(bits[..|bits| - 1]);
    }
  }

  /** Reading `|bits|` bits back from the number `bits` spell gives the bits. */
  lemma {:induction false} ValueRoundTrip(bits: string)
    ensures Bits(Value(bits), |bits|) == Cleaned(bits)
  {
    if bits != [] {
      var front := bits[..|bits| - 1];
      var last := bits[|bits| - 1];
      ValueRoundTrip(front);
      assert bits == front + [last];
      CleanedConcat(front, [last]);
    }
  }

  lemma {:induction false} ZerosCons(n: nat)
    ensures Zeros(n + 1) == ['0'] + Zeros(n)
  {
    if n > 0 {
      ZerosCons(n - 1);
    }
  }

  lemma {:induction false} ZerosCleaned(n: nat)
    ensures Cleaned(Zeros(n)) == Zeros(n)
  {
    if n > 0 {
      ZerosCons(n - 1);
      ZerosCleaned(n - 1);
    }
  }

  /** Clear bits appended at the end shift the value left. */
  lemma {:induction false} ValueZeros(bits: string, n: nat)
    ensures Value(bits + Zeros(n)) == Shl(Value(bits), n)
  {
    if n == 0 {
      assert bits + Zeros(n) == bits;
    } else {
      var w := bits + Zeros(n);
      assert w[..|w| - 1] == bits + Zeros(n - 1);
      ValueZeros(bits, n - 1);
    }
  }

  lemma ValueSnoc(bits: string, c: char)
    ensures Value(bits + [c]) == 2 * Value(bits) + (if c == '1' then 1 else 0)
  {
    assert (bits + [c])[..|bits|] == bits;
  }

  lemma PadBit(bits: string, c: char, m: nat)
    ensures Value((bits + [c]) + Zeros(m)) == Shl(2 * Value(bits), m) + (if c == '1' then Shl(1, m) else 0)
  {
    ValueZeros(bits + [c], m);
    ValueSnoc(bits, c);
    ShlAdd(2 * Value(bits), if c == '1' then 1 else 0, m);
    ShlZero(m);
  }

  lemma PadZero(bits: string, m: nat)
    ensures Value(bits + Zeros(m + 1)) == Shl(2 * Value(bits), m)
  {
    ZerosCons(m);
    assert bits + Zeros(m + 1) == (bits + ['0']) + Zeros(m);
    ValueZeros(bits + ['0'], m);
    ValueSnoc(bits, '0');
  }

  /** Reading back `bits` followed by `m` clear bits gives `bits` and the clear bits. */
  lemma PadRoundTrip(bits: string, m: nat)
    ensures Bits(Value(bits + Zeros(m)), |bits| + m) == Cleaned(bits) + Zeros(m)
  {
    var w := bits + Zeros(m);
    ValueRoundTrip(w);
    assert |w| == |bits| + m;
    CleanedConcat(bits, Zeros(m));
    ZerosCleaned(m);
  }

  /** One more bit written before `m` clear bits adds its place value. */
  lemma PadSnoc(bits: string, c: char, m: nat)
    ensures Value((bits + [c]) + Zeros(m)) == Value(bits + Zeros(m + 1)) + (if c == '1' then Shl(1, m) else 0)
  {
    PadBit(bits, c, m);
    PadZero(bits, m);
  }

  // ---------------------------------------------------------------------------
  // The partial byte
  // ---------------------------------------------------------------------------

  /** The byte with the bits `pending` written from the most significant bit down and
      all other bits clear. */
  function Imprint(pending: string): (r: nat)
    requires |pending| <= 8
    ensures r < 256
  {
    ValueBound(pending + Zeros(8 - |pending|));
    assert Shl(1, 8) == 256;
    Value(pending + Zeros(8 - |pending|))
  }

  lemma ImprintIs(pending: string, m: nat)
    requires |pending| + m == 8
    ensures Imprint(pending) == Value(pending + Zeros(m))
  {
  }

  /** The bits of a partial byte: those written, then clear bits. */
  lemma ImprintRoundTrip(pending: string)
    requires |pending| <= 8
    ensures Bits(Imprint(pending), 8) == Cleaned(pending) + Zeros(8 - |pending|)
  {
    PadRoundTrip(pending, 8 - |pending|);
  }

  /** Writing one more bit adds 1 << (its distance from the least significant bit). */
  lemma ImprintSnoc(pending: string, c: char)
    requires |pending| < 8
    ensures Imprint(pending + [c]) == Imprint(pending) + (if c == '1' then Shl(1, 7 - |pending|) else 0)
  {
    var m := 7 - |pending|;
    ImprintIs(pending + [c], m);
    ImprintIs(pending, m + 1);
    PadSnoc(pending, c, m);
  }

  // ---------------------------------------------------------------------------
  // What the packer writes
  // ---------------------------------------------------------------------------

  /** The 8 bits of an output byte, most significant first. */
  function ByteBits(b: Byte): (bits: string)
    ensures |bits| == 8
  {
    Bits(b as nat, 8)
  }

  /** The concatenated codes of the emitted indices, in order. Codes of bits give bits,
      and nonempty codes give at least one bit per index. */
  function Serialized(table: seq<nat>, codes: seq<string>): (r: string)
    requires forall i :: 0 <= i < |table| ==> table[i] < |codes|
    ensures (forall i :: 0 <= i < |codes| ==> Huffman.IsBits(codes[i])) ==> Huffman.IsBits(r)
    ensures (forall i :: 0 <= i < |codes| ==> codes[i] != []) ==> |r| >= |table|
  {
    if table == [] then [] else Serialized(table[..|table| - 1], codes) + codes[table[|table| - 1]]
  }

  /** The `j`th group of eight bits. */
  function Chunk(bits: string, j: nat): (chunk: string)
    requires 8 * j + 8 <= |bits|
    ensures |chunk| == 8
  {
    bits[8 * j..8 * j + 8]
  }

  function ChunkByte(bits: string, j: nat): Byte
    requires 8 * j + 8 <= |bits|
  {
    Imprint(Chunk(bits, j)) as Byte
  }

  /** One byte per complete group of eight bits; leftover bits give none. */
  function FullBytes(bits: string): (bytes: seq<Byte>)
    ensures |bytes| == |bits| / 8
  {
    seq(|bits| / 8, j requires 0 <= j < |bits| / 8 => ChunkByte(bits, j))
  }

  /** What the packer writes for the bit string `bits`: one byte per complete group of
      eight bits, then the number of leftover bits, which is below 8. */
  function Packed(bits: string): (bytes: seq<Byte>)
    ensures |bytes| == |bits| / 8 + 1
    ensures bytes[|bits| / 8] as int == |bits| % 8 < 8
  {
    FullBytes(bits) + [(|bits| % 8) as Byte]
  }

  /** The bits read back from a sequence of bytes, eight per byte. */
  function Unpack(bytes: seq<Byte>): (bits: string)
    ensures |bits| == 8 * |bytes|
  {
    if bytes == [] then [] else Unpack(bytes[..|bytes| - 1]) + ByteBits(bytes[|bytes| - 1])
  }

  /** An output byte holds its group of eight bits. */
  lemma ChunkBits(bits: string, j: nat)
    requires 8 * j + 8 <= |bits|
    ensures ByteBits(ChunkByte(bits, j)) == Cleaned(Chunk(bits, j))
  {
    ImprintRoundTrip(Chunk(bits, j));
  }

  /** A bit string that extends another keeps its complete groups of eight. */
  lemma FullBytesPrefix(bits: string, front: string)
    requires |front| <= |bits| && bits[..|front|] == front
    ensures FullBytes(bits)[..|front| / 8] == FullBytes(front)
  {
    forall j | 0 <= j < |front| / 8
      ensures Chunk(bits, j) == Chunk(front, j)
    {
    }
  }

  /** Reading the output's full bytes back gives every bit up to the last complete
      byte. */
  lemma {:induction false} FullBytesRoundTrip(bits: string)
    requires |bits| % 8 == 0
    ensures Unpack(FullBytes(bits)) == Cleaned(bits)
    decreases |bits|
  {
    if bits != [] {
      var front := bits[..|bits| - 8];
      var last := Chunk(bits, |bits| / 8 - 1);
      var bytes := FullBytes(bits);
      FullBytesPrefix(bits, front);
      assert bytes == FullBytes(front) + [ChunkByte(bits, |bits| / 8 - 1)];
      FullBytesRoundTrip(front);
      ChunkBits(bits, |bits| / 8 - 1);
      assert bits == front + last;
      CleanedConcat(front, last);
    }
  }

  /** Output byte `j` holds bits 8j .. 8j+7, most significant first. */
  lemma PackedBits(bits: string)
    ensures forall j, i :: 0 <= j < |bits| / 8 && 0 <= i < 8 ==>
      (ByteBits(Packed(bits)[j])[i] == '1' <==> bits[8 * j + i] == '1')
  {
    forall j, i | 0 <= j < |bits| / 8 && 0 <= i < 8
      ensures ByteBits(Packed(bits)[j])[i] == '1' <==> bits[8 * j + i] == '1'
    {
      ChunkBits(bits, j);
      CleanedAt(Chunk(bits, j), i);
    }
  }

  /** Reading the bytes before the count gives back all bits but the leftover ones. */
  lemma PackedRoundTrip(bits: string)
    ensures Unpack(Packed(bits)[..|bits| / 8]) == Cleaned(bits[..|bits| - |bits| % 8])
  {
    var whole := bits[..|bits| - |bits| % 8];
    FullBytesPrefix(bits, whole);
    FullBytesRoundTrip(whole);
    assert Packed(bits)[..|bits| / 8] == FullBytes(bits)[..|whole| / 8];
  }

  // ---------------------------------------------------------------------------
  // The packing loop
  // ---------------------------------------------------------------------------

  /** The packer state after the bits `done`: the full bytes written, the partial
      byte `imprint` and the number `progress` of bits in it. */
  ghost predicate Pending(done: string, out: seq<Byte>, imprint: nat, progress: nat)
  {
    && progress == |done| % 8
    && out == FullBytes(done)
    && imprint == Imprint(done[|done| - progress..])
  }

  /** A bit that does not complete a byte leaves the full bytes as they were. */
  lemma FullBytesSame(done: string, ch: char)
    requires (|done| + 1) % 8 != 0
    ensures FullBytes(done + [ch]) == FullBytes(done)
  {
    FullBytesPrefix(done + [ch], done);
  }

  /** A bit that completes a byte adds that byte ... */
  lemma FullBytesGrow(done: string, ch: char)
    requires (|done| + 1) % 8 == 0
    ensures FullBytes(done + [ch]) == FullBytes(done) + [ChunkByte(done + [ch], |done| / 8)]
  {
    var bytes := FullBytes(done + [ch]);
    FullBytesPrefix(done + [ch], done);
    assert bytes == bytes[..|done| / 8] + [bytes[|done| / 8]];
  }

  /** ... which is the partial byte with the bit in it. */
  lemma LastChunk(done: string, ch: char)
    requires (|done| + 1) % 8 == 0
    ensures ChunkByte(done + [ch], |done| / 8) as int == Imprint(done[|done| - 7..] + [ch])
  {
    var j := |done| / 8;
    assert 8 * j + 8 == |done| + 1;
    assert Chunk(done + [ch], j) == (done + [ch])[|done| - 7..];
    SnocSuffix(done, ch, 7);
  }

  lemma SnocSuffix(done: string, ch: char, n: nat)
    requires n <= |done|
    ensures (done + [ch])[|done| - n..] == done[|done| - n..] + [ch]
  {
  }

  lemma EmptyImprint()
    ensures Imprint([]) == 0
  {
    ShlZero(8);
    ValueZeros([], 8);
  }

  /** Before any code: nothing written and an empty partial byte. */
  lemma PendingStart()
    ensures Pending([], [], 0, 0)
  {
    EmptyImprint();
  }

  /** The bit the next code character goes to is still clear in the partial byte, so
      setting it is an addition (`OrClearBit`). */
  lemma PendingBitClear(done: string, out: seq<Byte>, imprint: nat, progress: nat)
    requires Pending(done, out, imprint, progress)
    ensures progress < 8
    ensures Bits(imprint, 8)[progress] == '0'
  {
    ImprintRoundTrip(done[|done| - progress..]);
  }

  /** A character that fills the partial byte: the byte, with its bit set, is written out
      and the next partial byte starts empty. */
  lemma PendingFull(done: string, out: seq<Byte>, imprint: nat, progress: nat, ch: char)
    requires Pending(done, out, imprint, progress) && progress + 1 == 8
    ensures var imprint' := imprint + (if ch == '1' then Shl(1, 7 - progress) else 0);
      && imprint' < 256
      && Pending(done + [ch], out + [imprint' as Byte], 0, 0)
  {
    var pending := done[|done| - progress..];
    ImprintSnoc(pending, ch);
    FullBytesGrow(done, ch);
    LastChunk(done, ch);
    EmptyImprint();
  }

  /** A character that does not fill the partial byte only sets its bit there. */
  lemma PendingPartial(done: string, out: seq<Byte>, imprint: nat, progress: nat, ch: char)
    requires Pending(done, out, imprint, progress) && progress + 1 < 8
    ensures var imprint' := imprint + (if ch == '1' then Shl(1, 7 - progress) else 0);
      && imprint' < 256
      && Pending(done + [ch], out, imprint', progress + 1)
  {
    var pending := done[|done| - progress..];
    ImprintSnoc(pending, ch);
    SnocSuffix(done, ch, progress);
    FullBytesSame(done, ch);
  }

  lemma SerializedNext(table: seq<nat>, codes: seq<string>, i: nat)
    requires i < |table| && forall k :: 0 <= k < |table| ==> table[k] < |codes|
    ensures Serialized(table[..i + 1], codes) == Serialized(table[..i], codes) + codes[table[i]]
  {
    assert table[..i + 1][..i] == table[..i];
  }

  /** One pass of the inner loop of bitSerialization: bit `ch` goes into the partial
      byte, which is written out once it holds eight bits. */
  method PackBit(ch: char, out: seq<Byte>, imprint: nat, progress: nat, ghost done: string)
    returns (out': seq<Byte>, imprint': nat, progress': nat)
    requires Pending(done, out, imprint, progress)
    ensures Pending(done + [ch], out', imprint', progress')
  {
    PendingBitClear(done, out, imprint, progress);
    if progress + 1 == 8 {
      PendingFull(done, out, imprint, progress, ch);
    } else {
      PendingPartial(done, out, imprint, progress, ch);
    }
    imprint' := imprint;
    if ch == '1' {
      imprint' := Or(imprint, Shl(1, 7 - progress));
      OrClearBit(imprint, 8, 7 - progress);
    }
    progress' := progress + 1;
    out' := out;
    if progress' == 8 {
      out' := out + [imprint' as Byte];
      progress' := 0;
      imprint' := 0;
    }
  }

  /** The inner loop of bitSerialization: the bits of one code string, in order. */
  method PackCode(target: string, out: seq<Byte>, imprint: nat, progress: nat, ghost done: string)
    returns (out': seq<Byte>, imprint': nat, progress': nat)
    requires Pending(done, out, imprint, progress)
    ensures Pending(done + target, out', imprint', progress')
  {
    out', imprint', progress' := out, imprint, progress;
    assert done + target[..0] == done;
    for k := 0 to |target|
      invariant Pending(done + target[..k], out', imprint', progress')
    {
      out', imprint', progress' := PackBit(target[k], out', imprint', progress', done + target[..k]);
      assert done + target[..k + 1] == done + target[..k] + [target[k]];
    }
    WholePrefix(target);
  }

  /** bitSerialization: the packed codes of `lzwCompressed`, then the count of the bits
      that did not fill a last byte. */
  method BitSerialization(lzwCompressed: seq<nat>, huffmanMap: seq<string>) returns (out: seq<Byte>)
    requires forall i :: 0 <= i < |lzwCompressed| ==> lzwCompressed[i] < |huffmanMap|
    ensures out == Packed(Serialized(lzwCompressed, huffmanMap))
  {
    out := [];
    var imprint: nat := 0;
    var progress: nat := 0;
    PendingStart();
    for i := 0 to |lzwCompressed|
      invariant Pending(Serialized(lzwCompressed[..i], huffmanMap), out, imprint, progress)
    {
      var target := huffmanMap[lzwCompressed[i]];
      SerializedNext(lzwCompressed, huffmanMap, i);
      out, imprint, progress := PackCode(target, out, imprint, progress, Serialized(lzwCompressed[..i], huffmanMap));
    }
    WholePrefix(lzwCompressed);
    imprint := progress;
    out := out + [imprint as Byte];
  }

  /** Indices [2, 0, 1] with codes 0 -> "0", 1 -> "10", 2 -> "11" are the five bits
      "11010": no byte fills up, so the output is the single count byte 5. */
  lemma PackerExample(codes: seq<string>)
    requires |codes| == 3 && codes[0] == "0" && codes[1] == "10" && codes[2] == "11"
    ensures Serialized([2, 0, 1], codes) == "11010"
    ensures Packed(Serialized([2, 0, 1], codes)) == [5]
  {
    assert [2, 0, 1][..2] == [2, 0];
    assert [2, 0][..1] == [2];
    assert [2][..0] == [];
    assert Serialized([2], codes) == "11";
    assert Serialized([2, 0], codes) == "110";
  }
}
