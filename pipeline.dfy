/**
  The three stages in the order main runs them, without the files: the dictionary
  coder's indices and counts, the code table built from the counts, and the packed
  codes of the indices.
*/
module Pipeline {
  import opened Config
  import Lzw
  import Huffman
  import BitPacker

  /** Where the counts are those of every emitted index but the last, as the dictionary
      coder's are, every index emitted before the last has a nonzero count. */
  lemma EmittedCounted(product: Lzw.LzwProduct, t: nat)
    requires t + 1 < |product.table|
    requires forall k :: 0 <= k < |product.table| ==> product.table[k] < |product.occurrence|
    requires forall i :: 0 <= i < |product.occurrence| ==>
      product.occurrence[i] == Lzw.Count(product.table[..|product.table| - 1], i)
    ensures product.occurrence[product.table[t]] > 0
  {
    var front := product.table[..|product.table| - 1];
    Lzw.CountPositive(front, t);
    assert front[t] == product.table[t];
  }

  /** The counts and indices as the dictionary coder leaves them. */
  predicate Coded(product: Lzw.LzwProduct)
  {
    && |product.occurrence| == DictSize
    && |product.table| >= 1
    && (forall k :: 0 <= k < |product.table| ==> product.table[k] < DictSize)
    && (forall i :: 0 <= i < DictSize ==>
          product.occurrence[i] == Lzw.Count(product.table[..|product.table| - 1], i))
  }

  /** huffman and then bitSerialization on the dictionary coder's results. The codes
      are prefix-free over the counted indices, every index emitted before the flush
      has a nonempty code once two or more indices are counted, and the output is the
      packed concatenation of the codes of the emitted indices. */
  method CodeAndPack(product: Lzw.LzwProduct) returns (codes: seq<string>, out: seq<Byte>)
    requires Coded(product)
    ensures |codes| == DictSize
    ensures Huffman.PrefixFree(codes, Huffman.Counted(product.occurrence, DictSize))
    ensures |Huffman.Counted(product.occurrence, DictSize)| >= 2 ==>
      forall t :: 0 <= t < |product.table| - 1 ==> codes[product.table[t]] != []
    ensures out == BitPacker.Packed(BitPacker.Serialized(product.table, codes))
  {
    ghost var merges;
    codes, merges := Huffman.HuffmanCodes(product.occurrence);
    forall t | 0 <= t < |product.table| - 1
      ensures product.occurrence[product.table[t]] != 0
    {
      EmittedCounted(product, t);
    }
    out := BitPacker.BitSerialization(product.table, codes);
  }

  /** The compressor without its files: inputToLzw, huffman and bitSerialization one
      after another, each on the results of the one before. */
  method Compress(lines: seq<seq<Byte>>) returns (product: Lzw.LzwProduct, codes: seq<string>, out: seq<Byte>)
    ensures product == Lzw.Encode(lines)
    ensures |codes| == DictSize
    ensures Huffman.PrefixFree(codes, Huffman.Counted(product.occurrence, DictSize))
    ensures |Huffman.Counted(product.occurrence, DictSize)| >= 2 ==>
      forall t :: 0 <= t < |product.table| - 1 ==> codes[product.table[t]] != []
    ensures out == BitPacker.Packed(BitPacker.Serialized(product.table, codes))
  {
    product := Lzw.InputToLzw(lines);
    codes, out := CodeAndPack(product);
  }
}
