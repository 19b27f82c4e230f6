/**
  The dictionary coder (LZW stage). `Encode` is the reference definition: a
  coder state that `Step` advances by one scanned byte, `Run` over all scanned
  bytes, and the final `Flush`. `InputToLzw` is the imperative coder, proved to
  compute exactly `Encode`. The lemmas state what the coder promises: the
  emitted indices spell the input back, indices stay below the capacity, the
  dictionary freezes once full, and the counts add up to all but the flush.
*/
module Lzw {
  import opened Config

  /** Number of single-byte strings seeded into the dictionary (indices 0-255). */
  const AlphabetSize: nat := 256

  /** The byte appended to every line read from the input. */
  const Newline: Byte := 10

  type Dictionary = map<seq<Byte>, nat>

  /** The bytes the coder scans: every line, each followed by a newline. */
  function Scanned(lines: seq<seq<Byte>>): (r: seq<Byte>)
    ensures lines != [] ==> r != [] && r[|r| - 1] == Newline
  {
    if lines == [] then [] else Scanned(lines[..|lines| - 1]) + lines[|lines| - 1] + [Newline]
  }

  /** Sum of a count table. */
  function Sum(s: seq<nat>): nat
  {
    if s == [] then 0 else Sum(s[..|s| - 1]) + s[|s| - 1]
  }

  lemma {:induction false} SumIncrement(s: seq<nat>, i: nat)
    requires i < |s|
    ensures Sum(s[i := s[i] + 1]) == Sum(s) + 1
  {
    var n := |s|;
    if i == n - 1 {
      assert s[i := s[i] + 1][..n - 1] == s[..n - 1];
    } else {
      assert s[i := s[i] + 1][..n - 1] == s[..n - 1][i := s[i] + 1];
      SumIncrement(s[..n - 1], i);
    }
  }

  /** How many times index `i` occurs in `table`. */
  function Count(table: seq<nat>, i: nat): nat
  {
    if table == [] then 0 else Count(table[..|table| - 1], i) + (if table[|table| - 1] == i then 1 else 0)
  }

  lemma CountSnoc(table: seq<nat>, x: nat, i: nat)
    ensures Count(table + [x], i) == Count(table, i) + (if x == i then 1 else 0)
  {
    assert (table + [x])[..|table|] == table;
  }

  /** An index that occurs in a table is counted at least once. */
  lemma {:induction false} CountPositive(table: seq<nat>, t: nat)
    requires t < |table|
    ensures Count(table, table[t]) > 0
  {
    if t < |table| - 1 {
      assert table[..|table| - 1][t] == table[t];
      CountPositive(table[..|table| - 1], t);
    }
  }

  lemma {:induction false} SumZeros(n: nat)
    ensures Sum(seq(n, _ => 0)) == 0
  {
    if n > 0 {
      assert seq(n, _ => 0)[..n - 1] == seq(n - 1, _ => 0);
      SumZeros(n - 1);
    }
  }

  /** The 256 byte values in increasing order, as the seeding loop visits them. */
  function AllBytes(): (s: seq<Byte>)
    ensures |s| == AlphabetSize
    ensures forall i :: 0 <= i < AlphabetSize ==> s[i] as int == i
  {
    seq(AlphabetSize, i requires 0 <= i < AlphabetSize => i as Byte)
  }

  /** The dictionary built by seeding the bytes of `bytes`, each at its own value. */
  function Seed(bytes: seq<Byte>): Dictionary
  {
    if bytes == [] then map[]
    else Seed(bytes[..|bytes| - 1])[[bytes[|bytes| - 1]] := bytes[|bytes| - 1] as nat]
  }

  lemma {:induction false} SeedContents(n: nat)
    requires n <= AlphabetSize
    ensures |Seed(AllBytes()[..n])| == n
    ensures forall k :: k in Seed(AllBytes()[..n]) ==>
      |k| == 1 && Seed(AllBytes()[..n])[k] == k[0] as int && (k[0] as int) < n
    ensures forall b: Byte :: (b as int) < n ==> [b] in Seed(AllBytes()[..n])
  {
    if n > 0 {
      SeedContents(n - 1);
      var s := AllBytes()[..n];
      assert s[..n - 1] == AllBytes()[..n - 1];
      var b := s[n - 1];
      assert b as int == n - 1;
      assert [b] !in Seed(s[..n - 1]);
      forall b': Byte | (b' as int) < n
        ensures [b'] in Seed(s)
      {
        if b' != b {
          assert [b'] in Seed(s[..n - 1]);
        }
      }
    }
  }

  /** The dictionary maps single bytes to their own value (indices 0-255). */
  ghost predicate HasAlphabet(d: Dictionary)
  {
    forall b: Byte :: [b] in d && d[[b]] == b as int
  }

  /** The keys are nonempty and numbered 0 .. size-1, one key per index. */
  ghost predicate Numbered(d: Dictionary, size: nat)
  {
    && (forall k :: k in d ==> k != [] && d[k] < size)
    && (forall k, k' :: k in d && k' in d && d[k] == d[k'] ==> k == k')
    && (forall i :: 0 <= i < size ==> i in d.Values)
  }

  /** Every learned key is an earlier key plus one byte. */
  ghost predicate Extends(d: Dictionary)
  {
    forall k :: k in d && |k| > 1 ==> k[..|k| - 1] in d && d[k[..|k| - 1]] < d[k]
  }

  /** dictionary[key] in the source: a missing key reads as index 0 (and is inserted
      with it). `LookupFinds` and `FlushFinds` show when the key is present. */
  function Lookup(d: Dictionary, key: seq<Byte>): (r: nat)
    ensures key in d ==> r == d[key]
    ensures key !in d ==> r == 0
    ensures r == 0 || r in d.Values
  {
    if key in d then d[key] else 0
  }

  /** The local state of the coder between two scanned bytes. */
  datatype Coder = Coder(
    dictionary: Dictionary,
    dictProgress: nat,
    current: seq<Byte>,
    lzwResult: seq<nat>,
    occurrence: seq<nat>)

  /** What a step needs so that its count increment stays inside the count table. */
  ghost predicate Ready(c: Coder)
  {
    && c.dictProgress <= DictSize
    && |c.occurrence| == DictSize
    && (forall k :: k in c.dictionary ==> c.dictionary[k] < DictSize)
  }

  /** The invariant of the coder between two scanned bytes. */
  ghost predicate Valid(c: Coder)
  {
    && AlphabetSize <= c.dictProgress <= DictSize
    && HasAlphabet(c.dictionary)
    && Numbered(c.dictionary, c.dictProgress)
    && (c.current == [] || c.current in c.dictionary)
    && |c.occurrence| == DictSize
    && (forall t :: 0 <= t < |c.lzwResult| ==> c.lzwResult[t] < c.dictProgress)
    && Sum(c.occurrence) == |c.lzwResult|
    && (forall i :: 0 <= i < DictSize ==> c.occurrence[i] == Count(c.lzwResult, i))
  }

  /** The seeded dictionary: the 256 single-byte strings at their own byte value. */
  lemma SeedValid()
    ensures HasAlphabet(Seed(AllBytes()))
    ensures Numbered(Seed(AllBytes()), AlphabetSize)
    ensures Extends(Seed(AllBytes()))
  {
    SeedContents(AlphabetSize);
    var d := Seed(AllBytes());
    assert AllBytes()[..AlphabetSize] == AllBytes();
    forall i | 0 <= i < AlphabetSize
      ensures i in d.Values
    {
      var k := [i as Byte];
      assert k in d && d[k] == i;
    }
  }

  lemma FreshValid(d: Dictionary, zeros: seq<nat>)
    requires HasAlphabet(d) && Numbered(d, AlphabetSize)
    requires zeros == seq(DictSize, _ => 0)
    ensures Valid(Coder(d, AlphabetSize, [], [], zeros))
  {
    SumZeros(DictSize);
  }

  /** The state before the first byte: the seeded dictionary, no match, nothing emitted. */
  function Start(): (c: Coder)
    ensures Valid(c) && Extends(c.dictionary)
    ensures c.current == [] && c.lzwResult == []
    ensures forall i :: 0 <= i < DictSize ==> c.occurrence[i] == 0
  {
    var d := Seed(AllBytes());
    SeedValid();
    FreshValid(d, seq(DictSize, _ => 0));
    Coder(d, AlphabetSize, [], [], seq(DictSize, _ => 0))
  }

  /** Scanning one byte: extend the match, or emit and count it, learn one entry while
      there is room, and restart the match at this byte. */
  function Step(c: Coder, ch: Byte): (r: Coder)
    requires Ready(c)
    ensures Ready(r)
    ensures c.dictProgress <= r.dictProgress <= c.dictProgress + 1
    ensures c.lzwResult <= r.lzwResult && |r.lzwResult| <= |c.lzwResult| + 1
  {
    if c.current + [ch] in c.dictionary then
      c.(current := c.current + [ch])
    else
      var index := Lookup(c.dictionary, c.current);
      var learns := c.dictProgress != DictSize;
      Coder(
        if learns then c.dictionary[c.current + [ch] := c.dictProgress] else c.dictionary,
        if learns then c.dictProgress + 1 else c.dictProgress,
        [ch],
        c.lzwResult + [index],
        c.occurrence[index := c.occurrence[index] + 1])
  }

  lemma StepKeepsValid(c: Coder, ch: Byte)
    requires Valid(c)
    ensures Ready(c) && Valid(Step(c, ch))
    ensures Step(c, ch).current != []
    ensures forall k :: k in c.dictionary ==>
      k in Step(c, ch).dictionary && Step(c, ch).dictionary[k] == c.dictionary[k]
    ensures c.dictProgress == DictSize ==> Step(c, ch).dictionary == c.dictionary
    ensures Step(c, ch).dictionary == c.dictionary
      || (c.dictProgress < DictSize && c.current in c.dictionary && c.current + [ch] !in c.dictionary
          && Step(c, ch).dictProgress == c.dictProgress + 1
          && Step(c, ch).dictionary == c.dictionary[c.current + [ch] := c.dictProgress])
  {
    var r := Step(c, ch);
    if c.current + [ch] !in c.dictionary {
      assert [] + [ch] == [ch];
      var index := c.dictionary[c.current];
      SumIncrement(c.occurrence, index);
      forall i | 0 <= i < DictSize
        ensures r.occurrence[i] == Count(r.lzwResult, i)
      {
        CountSnoc(c.lzwResult, index, i);
      }
      if c.dictProgress != DictSize {
        var key := c.current + [ch];
        var d, d' := c.dictionary, r.dictionary;
        forall i | 0 <= i < r.dictProgress
          ensures i in d'.Values
        {
          if i < c.dictProgress {
            assert i in d.Values;
            var k :| k in d && d[k] == i;
            assert k in d' && d'[k] == i;
          } else {
            assert key in d' && d'[key] == i;
          }
        }
        assert Numbered(d', r.dictProgress);
        assert [ch] in d';
      }
    }
  }

  /** Every learned entry is an earlier entry extended by one byte, and a step keeps it so. */
  lemma StepKeepsExtends(c: Coder, ch: Byte)
    requires Valid(c) && Extends(c.dictionary)
    ensures Extends(Step(c, ch).dictionary)
  {
    StepKeepsValid(c, ch);
    var d, d' := c.dictionary, Step(c, ch).dictionary;
    if d' != d {
      var key := c.current + [ch];
      assert key[..|key| - 1] == c.current;
      forall k | k in d' && |k| > 1
        ensures k[..|k| - 1] in d' && d'[k[..|k| - 1]] < d'[k]
      {
        if k != key {
          assert k in d;
        }
      }
    }
  }

  /** The coder's state after scanning `bytes` from state `c`. */
  function Run(c: Coder, bytes: seq<Byte>): (r: Coder)
    requires Ready(c)
    ensures Ready(r)
    ensures c.dictProgress <= r.dictProgress <= c.dictProgress + |bytes|
    ensures c.lzwResult <= r.lzwResult && |r.lzwResult| <= |c.lzwResult| + |bytes|
  {
    if bytes == [] then c else Step(Run(c, bytes[..|bytes| - 1]), bytes[|bytes| - 1])
  }

  lemma {:induction false} RunKeepsValid(c: Coder, bytes: seq<Byte>)
    requires Valid(c)
    ensures Ready(c) && Valid(Run(c, bytes))
  {
    if bytes != [] {
      RunKeepsValid(c, bytes[..|bytes| - 1]);
      StepKeepsValid(Run(c, bytes[..|bytes| - 1]), bytes[|bytes| - 1]);
    }
  }

  /** Whatever is scanned, every learned entry extends an earlier one by one byte. */
  lemma {:induction false} RunKeepsExtends(c: Coder, bytes: seq<Byte>)
    requires Valid(c) && Extends(c.dictionary)
    ensures Ready(c) && Extends(Run(c, bytes).dictionary)
  {
    if bytes != [] {
      RunKeepsExtends(c, bytes[..|bytes| - 1]);
      RunKeepsValid(c, bytes[..|bytes| - 1]);
      StepKeepsExtends(Run(c, bytes[..|bytes| - 1]), bytes[|bytes| - 1]);
    }
  }

  /** The two results of the coder: the count per index and the emitted indices. */
  datatype LzwProduct = LzwProduct(occurrence: seq<nat>, table: seq<nat>)

  /** The final emission of the leftover match, which is not counted. Only the empty
      match of an empty input is missing from the dictionary. */
  function Flush(c: Coder): (r: LzwProduct)
    ensures r.occurrence == c.occurrence
    ensures |r.table| == |c.lzwResult| + 1 && r.table[..|c.lzwResult|] == c.lzwResult
    ensures Ready(c) ==> r.table[|c.lzwResult|] < DictSize
  {
    LzwProduct(c.occurrence, c.lzwResult + [Lookup(c.dictionary, c.current)])
  }

  lemma FlushFacts(c: Coder)
    requires Valid(c)
    ensures |Flush(c).occurrence| == DictSize
    ensures forall t :: 0 <= t < |Flush(c).table| ==> Flush(c).table[t] < DictSize
    ensures Sum(Flush(c).occurrence) + 1 == |Flush(c).table|
    ensures forall i :: 0 <= i < DictSize ==>
      Flush(c).occurrence[i] == Count(Flush(c).table[..|Flush(c).table| - 1], i)
    ensures c.current == [] ==> Lookup(c.dictionary, c.current) == 0
  {
  }

  /** The dictionary coder applied to a whole input, given as its lines. */
  function Encode(lines: seq<seq<Byte>>): (r: LzwProduct)
    ensures |r.occurrence| == DictSize
    ensures forall t :: 0 <= t < |r.table| ==> r.table[t] < DictSize
    ensures Sum(r.occurrence) + 1 == |r.table|
    ensures forall i :: 0 <= i < DictSize ==> r.occurrence[i] == Count(r.table[..|r.table| - 1], i)
    ensures lines == [] ==> r.table == [0] && forall i :: 0 <= i < DictSize ==> r.occurrence[i] == 0
  {
    var c := Run(Start(), Scanned(lines));
    RunKeepsValid(Start(), Scanned(lines));
    FlushFacts(c);
    Flush(c)
  }

  /** The dictionary the coder holds when the input is exhausted. */
  ghost function FinalDictionary(lines: seq<seq<Byte>>): Dictionary
  {
    Run(Start(), Scanned(lines)).dictionary
  }

  /** The key a dictionary holds at index `i`. */
  ghost function KeyOf(d: Dictionary, i: nat): seq<Byte>
    requires i in d.Values
  {
    var k :| k in d && d[k] == i; k
  }

  /** The strings the indices of `table` stand for, concatenated in order. */
  ghost function Expand(d: Dictionary, table: seq<nat>): seq<Byte>
    requires forall t :: 0 <= t < |table| ==> table[t] in d.Values
  {
    if table == [] then [] else Expand(d, table[..|table| - 1]) + KeyOf(d, table[|table| - 1])
  }

  lemma ExpandSnoc(d: Dictionary, table: seq<nat>, i: nat)
    requires forall t :: 0 <= t < |table| ==> table[t] in d.Values
    requires i in d.Values
    ensures Expand(d, table + [i]) == Expand(d, table) + KeyOf(d, i)
  {
    assert (table + [i])[..|table|] == table;
  }

  lemma KeyOfKey(d: Dictionary, k: seq<Byte>)
    requires k in d
    requires forall k1, k2 :: k1 in d && k2 in d && d[k1] == d[k2] ==> k1 == k2
    ensures KeyOf(d, d[k]) == k
  {
  }

  /** Growing an injective dictionary does not change what the old indices stand for. */
  lemma {:induction false} ExpandStable(d: Dictionary, d': Dictionary, table: seq<nat>)
    requires forall k :: k in d ==> k in d' && d'[k] == d[k]
    requires forall k1, k2 :: k1 in d' && k2 in d' && d'[k1] == d'[k2] ==> k1 == k2
    requires forall t :: 0 <= t < |table| ==> table[t] in d.Values
    ensures forall t :: 0 <= t < |table| ==> table[t] in d'.Values
    ensures Expand(d', table) == Expand(d, table)
  {
    if table != [] {
      var n := |table|;
      ExpandStable(d, d', table[..n - 1]);
      var k := KeyOf(d, table[n - 1]);
      KeyOfKey(d', k);
    }
  }

  /** What the coder emitted, followed by the current match, spells out exactly the
      bytes scanned so far. */
  ghost predicate Spells(c: Coder, bytes: seq<Byte>)
  {
    && (forall t :: 0 <= t < |c.lzwResult| ==> c.lzwResult[t] in c.dictionary.Values)
    && Expand(c.dictionary, c.lzwResult) + c.current == bytes
    && (bytes != [] ==> c.current != [])
  }

  lemma StepSpells(c: Coder, ch: Byte, bytes: seq<Byte>)
    requires Valid(c) && Spells(c, bytes)
    ensures Spells(Step(c, ch), bytes + [ch])
  {
    if c.current + [ch] in c.dictionary {
      ExtendSpells(c, ch, bytes);
    } else {
      EmitSpells(c, ch, bytes);
    }
  }

  /** A byte that extends the match joins it: the emitted indices are unchanged. */
  lemma ExtendSpells(c: Coder, ch: Byte, bytes: seq<Byte>)
    requires Valid(c) && Spells(c, bytes) && c.current + [ch] in c.dictionary
    ensures Spells(Step(c, ch), bytes + [ch])
  {
  }

  /** A byte that ends the match emits the match's index, which the grown dictionary
      still maps back to the match, and starts a new match. */
  lemma EmitSpells(c: Coder, ch: Byte, bytes: seq<Byte>)
    requires Valid(c) && Spells(c, bytes) && c.current + [ch] !in c.dictionary
    ensures Spells(Step(c, ch), bytes + [ch])
  {
    StepKeepsValid(c, ch);
    var r := Step(c, ch);
    assert c.current != [] by {
      assert [] + [ch] == [ch];
    }
    ExpandStable(c.dictionary, r.dictionary, c.lzwResult);
    KeyOfKey(r.dictionary, c.current);
    ExpandSnoc(r.dictionary, c.lzwResult, c.dictionary[c.current]);
    calc {
      Expand(r.dictionary, r.lzwResult) + r.current;
      Expand(r.dictionary, c.lzwResult) + KeyOf(r.dictionary, c.dictionary[c.current]) + [ch];
      Expand(c.dictionary, c.lzwResult) + c.current + [ch];
      bytes + [ch];
    }
  }

  /** The loop invariant of the coder is kept over any run of bytes. */
  lemma LastSplit<T>(s: seq<T>, t: seq<T>)
    requires t != []
    ensures s + t[..|t| - 1] + [t[|t| - 1]] == s + t
  {
  }

  lemma {:induction false} RunSpells(c: Coder, prefix: seq<Byte>, bytes: seq<Byte>)
    requires Valid(c) && Spells(c, prefix)
    ensures Spells(Run(c, bytes), prefix + bytes)
  {
    if bytes == [] {
      assert prefix + bytes == prefix;
    } else {
      var n := |bytes|;
      RunSpells(c, prefix, bytes[..n - 1]);
      RunKeepsValid(c, bytes[..n - 1]);
      StepSpells(Run(c, bytes[..n - 1]), bytes[n - 1], prefix + bytes[..n - 1]);
      LastSplit(prefix, bytes);
    }
  }

  /** The flush completes the spelling: with the leftover match emitted, the indices
      alone spell everything scanned. */
  lemma FlushSpells(c: Coder, bytes: seq<Byte>)
    requires Valid(c) && Spells(c, bytes) && bytes != []
    ensures forall t :: 0 <= t < |Flush(c).table| ==> Flush(c).table[t] in c.dictionary.Values
    ensures Expand(c.dictionary, Flush(c).table) == bytes
  {
    var table := Flush(c).table;
    assert table[..|table| - 1] == c.lzwResult;
    KeyOfKey(c.dictionary, c.current);
  }

  lemma FreshSpells(c: Coder)
    requires c.lzwResult == [] && c.current == []
    ensures Spells(c, [])
  {
  }

  lemma EmptyJoin<T>(s: seq<T>)
    ensures [] + s == s
  {
  }

  /** The lookup when a match ends (line 38) always finds the match: it never falls back
      to the default index, and the index it reads is one already assigned. */
  lemma LookupFinds(c: Coder, ch: Byte)
    requires Valid(c) && c.current + [ch] !in c.dictionary
    ensures c.current != [] && c.current in c.dictionary
    ensures Lookup(c.dictionary, c.current) == c.dictionary[c.current] < c.dictProgress
  {
    assert [] + [ch] == [ch];
  }

  /** For a nonempty input the match left for the final lookup (line 47) is nonempty, so
      with `FlushFacts` the default index 0 is read only for an empty input. */
  lemma FlushFinds(lines: seq<seq<Byte>>)
    requires lines != []
    ensures Run(Start(), Scanned(lines)).current != []
    ensures Run(Start(), Scanned(lines)).current in Run(Start(), Scanned(lines)).dictionary
  {
    FreshSpells(Start());
    RunSpells(Start(), [], Scanned(lines));
    RunKeepsValid(Start(), Scanned(lines));
    EmptyJoin(Scanned(lines));
  }

  /** Round trip: for a nonempty input, the strings of the emitted indices in the final
      dictionary, concatenated, are exactly the scanned bytes. */
  lemma RoundTrip(lines: seq<seq<Byte>>)
    requires lines != []
    ensures forall t :: 0 <= t < |Encode(lines).table| ==> Encode(lines).table[t] in FinalDictionary(lines).Values
    ensures Expand(FinalDictionary(lines), Encode(lines).table) == Scanned(lines)
  {
    var bytes := Scanned(lines);
    var start := Start();
    FreshSpells(start);
    RunSpells(start, [], bytes);
    EmptyJoin(bytes);
    RunKeepsValid(start, bytes);
    FlushSpells(Run(start, bytes), bytes);
  }

  lemma {:induction false} ExpandLength(d: Dictionary, table: seq<nat>)
    requires forall k :: k in d ==> k != []
    requires forall t :: 0 <= t < |table| ==> table[t] in d.Values
    ensures |table| <= |Expand(d, table)|
  {
    if table != [] {
      ExpandLength(d, table[..|table| - 1]);
    }
  }

  /** A nonempty input is never coded into more indices than it has bytes. */
  lemma TableNoLonger(lines: seq<seq<Byte>>)
    requires lines != []
    ensures |Encode(lines).table| <= |Scanned(lines)|
  {
    RoundTrip(lines);
    RunKeepsValid(Start(), Scanned(lines));
    ExpandLength(FinalDictionary(lines), Encode(lines).table);
  }

  lemma {:induction false} RunAppend(c: Coder, a: seq<Byte>, b: seq<Byte>)
    requires Ready(c)
    ensures Run(c, a + b) == Run(Run(c, a), b)
  {
    if b == [] {
      assert a + b == a;
    } else {
      RunAppend(c, a, b[..|b| - 1]);
      assert (a + b)[..|a + b| - 1] == a + b[..|b| - 1];
    }
  }

  /** A full dictionary stays as it is, whatever is scanned next. */
  lemma {:induction false} FullStaysFull(c: Coder, bytes: seq<Byte>)
    requires Ready(c) && c.dictProgress == DictSize
    ensures Run(c, bytes).dictionary == c.dictionary
    ensures Run(c, bytes).dictProgress == DictSize
  {
    if bytes != [] {
      FullStaysFull(c, bytes[..|bytes| - 1]);
    }
  }

  lemma SplitJoin<T>(s: seq<T>, n: nat)
    requires n <= |s|
    ensures s[..n] + s[n..] == s
  {
  }

  /** Once the coder has assigned index 1023, no further entry is learned: the
      dictionary after any longer input is the one it had then. */
  lemma DictionaryFreezes(c: Coder, bytes: seq<Byte>, n: nat)
    requires Ready(c) && n <= |bytes|
    requires Run(c, bytes[..n]).dictProgress == DictSize
    ensures Run(c, bytes).dictionary == Run(c, bytes[..n]).dictionary
  {
    RunAppend(c, bytes[..n], bytes[n..]);
    SplitJoin(bytes, n);
    FullStaysFull(Run(c, bytes[..n]), bytes[n..]);
  }

  lemma RunSnoc(c: Coder, bytes: seq<Byte>, ch: Byte)
    requires Ready(c)
    ensures Run(c, bytes + [ch]) == Step(Run(c, bytes), ch)
  {
    assert (bytes + [ch])[..|bytes|] == bytes;
  }

  lemma ScannedPrefix(lines: seq<seq<Byte>>, i: nat)
    requires i < |lines|
    ensures Scanned(lines[..i + 1]) == Scanned(lines[..i]) + (lines[i] + [Newline])
  {
    assert lines[..i + 1][..i] == lines[..i];
  }

  /** One scanned byte of the coder loop, on the coder's mutable state: the count
      array is updated in place. */
  method ScanByte(occurrence: array<nat>, dictionary: Dictionary, dictProgress: nat,
                  current: seq<Byte>, lzwResult: seq<nat>, ch: Byte)
    returns (dictionary': Dictionary, dictProgress': nat, current': seq<Byte>, lzwResult': seq<nat>)
    requires Ready(Coder(dictionary, dictProgress, current, lzwResult, occurrence[..]))
    modifies occurrence
    ensures Coder(dictionary', dictProgress', current', lzwResult', occurrence[..])
         == Step(Coder(dictionary, dictProgress, current, lzwResult, old(occurrence[..])), ch)
  {
    dictionary', dictProgress', current', lzwResult' := dictionary, dictProgress, current, lzwResult;
    if current + [ch] in dictionary {
      current' := current + [ch];
    } else {
      var index := Lookup(dictionary, current);
      lzwResult' := lzwResult + [index];
      occurrence[index] := occurrence[index] + 1;
      if dictProgress != DictSize {
        dictionary' := dictionary[current + [ch] := dictProgress];
        dictProgress' := dictProgress + 1;
      }
      current' := [ch];
    }
  }

  /** The coder loop over one line and its newline, on the coder's mutable state. */
  method ScanLine(occurrence: array<nat>, dictionary: Dictionary, dictProgress: nat,
                  current: seq<Byte>, lzwResult: seq<nat>, buffLine: seq<Byte>)
    returns (dictionary': Dictionary, dictProgress': nat, current': seq<Byte>, lzwResult': seq<nat>)
    requires Ready(Coder(dictionary, dictProgress, current, lzwResult, occurrence[..]))
    modifies occurrence
    ensures Coder(dictionary', dictProgress', current', lzwResult', occurrence[..])
         == Run(Coder(dictionary, dictProgress, current, lzwResult, old(occurrence[..])), buffLine)
  {
    ghost var start := Coder(dictionary, dictProgress, current, lzwResult, occurrence[..]);
    dictionary', dictProgress', current', lzwResult' := dictionary, dictProgress, current, lzwResult;
    for j := 0 to |buffLine|
      invariant Coder(dictionary', dictProgress', current', lzwResult', occurrence[..]) == Run(start, buffLine[..j])
    {
      RunSnoc(start, buffLine[..j], buffLine[j]);
      assert buffLine[..j + 1] == buffLine[..j] + [buffLine[j]];
      dictionary', dictProgress', current', lzwResult' :=
        ScanByte(occurrence, dictionary', dictProgress', current', lzwResult', buffLine[j]);
    }
    WholePrefix(buffLine);
  }

  /** The seeding loop: every byte value is entered as a one-byte string at its own index. */
  method SeedDictionary() returns (dictionary: Dictionary)
    ensures dictionary == Seed(AllBytes())
    ensures |dictionary| == AlphabetSize
  {
    dictionary := map[];
    for i := 0 to AlphabetSize
      invariant dictionary == Seed(AllBytes()[..i])
    {
      assert AllBytes()[..i + 1][..i] == AllBytes()[..i];
      dictionary := dictionary[[i as Byte] := i];
    }
    WholePrefix(AllBytes());
    SeedContents(AlphabetSize);
  }

  /** Dictionary coding as the source does it, with a mutable dictionary, match, cursor
      and count array. */
  method InputToLzw(lines: seq<seq<Byte>>) returns (product: LzwProduct)
    ensures product == Encode(lines)
  {
    var occurrence := new nat[DictSize](_ => 0);
    var dictionary := SeedDictionary();
    var lzwResult: seq<nat> := [];
    var current: seq<Byte> := [];
    var dictProgress: nat := |dictionary|;
    assert occurrence[..] == seq(DictSize, _ => 0);
    ghost var start := Start();
    assert Coder(dictionary, dictProgress, current, lzwResult, occurrence[..]) == start;
    for i := 0 to |lines|
      invariant Coder(dictionary, dictProgress, current, lzwResult, occurrence[..]) == Run(start, Scanned(lines[..i]))
    {
      var buffLine := lines[i] + [Newline];
      dictionary, dictProgress, current, lzwResult :=
        ScanLine(occurrence, dictionary, dictProgress, current, lzwResult, buffLine);
      RunAppend(start, Scanned(lines[..i]), buffLine);
      ScannedPrefix(lines, i);
    }
    WholePrefix(lines);
    var last := Lookup(dictionary, current);
    lzwResult := lzwResult + [last];
    product := LzwProduct(occurrence[..], lzwResult);
  }
}
