/** Constants shared by the three stages of the compressor. */
module Config {
  /** A byte of the input text. */
  newtype Byte = b: int | 0 <= b < 256

  /** Fixed capacity of the LZW dictionary; also the size of the count and code tables. */
  const DictSize: nat := 1024

  /** A loop over all of `s` ends with the prefix `s[..|s|]`, which is `s`. */
  lemma WholePrefix<T>(s: seq<T>)
    ensures s[..|s|] == s
  {
  }
}
