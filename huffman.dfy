/**
  The Huffman code builder. A `Node` stands for a subtree: its weight and the
  count-table indices it holds. `HuffmanCodes` is the source's loop: one leaf per
  counted index in a priority queue (a multiset here, from which `PopMin` takes
  any lightest node), repeated merges of the two lightest nodes that append one
  bit to every member of each, and a final reversal of every code. The
  invariant `Forest` says what the queue and the code table are between two
  merges; with it the method proves that the codes are prefix-free bit strings.
*/
module Huffman {
  import opened Config

  /** A subtree under construction: its weight and the indices at its leaves. */
  datatype Node = Node(freq: nat, idx: seq<nat>)
  {
    /** Node::combine: the weights add and the member lists concatenate. */
    function Combine(n: Node): (r: Node)
      ensures r.freq == freq + n.freq
      ensures multiset(r.idx) == multiset(idx) + multiset(n.idx)
    {
      Node(freq + n.freq, idx + n.idx)
    }

    /** Node::operator>, the order of the min-queue. */
    predicate Heavier(n: Node)
      ensures Heavier(n) <==> n.freq < freq
    {
      freq > n.freq
    }
  }

  /** What `std::greater<Node>` needs of `operator>` to order the queue: a strict weak
      order, that is irreflexive, transitive, and with incomparability transitive too. */
  lemma HeavierOrder(a: Node, b: Node, c: Node)
    ensures !a.Heavier(a)
    ensures a.Heavier(b) && b.Heavier(c) ==> a.Heavier(c)
    ensures !a.Heavier(b) && !b.Heavier(a) && !b.Heavier(c) && !c.Heavier(b) ==>
      !a.Heavier(c) && !c.Heavier(a)
  {
  }

  /** The total count of the indices in `idx`. */
  function Weight(occurrence: seq<nat>, idx: seq<nat>): nat
    requires forall k :: 0 <= k < |idx| ==> idx[k] < |occurrence|
  {
    if idx == [] then 0 else Weight(occurrence, idx[..|idx| - 1]) + occurrence[idx[|idx| - 1]]
  }

  lemma {:induction false} WeightConcat(occurrence: seq<nat>, a: seq<nat>, b: seq<nat>)
    requires forall k :: 0 <= k < |a| ==> a[k] < |occurrence|
    requires forall k :: 0 <= k < |b| ==> b[k] < |occurrence|
    ensures Weight(occurrence, a + b) == Weight(occurrence, a) + Weight(occurrence, b)
  {
    if b == [] {
      assert a + b == a;
    } else {
      var n := |b|;
      assert (a + b)[..|a + b| - 1] == a + b[..n - 1];
      WeightConcat(occurrence, a, b[..n - 1]);
    }
  }

  /** A combined node weighs what its members count together, as each part did. */
  lemma CombineWeight(occurrence: seq<nat>, n1: Node, n2: Node)
    requires forall k :: 0 <= k < |n1.idx| ==> n1.idx[k] < |occurrence|
    requires forall k :: 0 <= k < |n2.idx| ==> n2.idx[k] < |occurrence|
    requires n1.freq == Weight(occurrence, n1.idx) && n2.freq == Weight(occurrence, n2.idx)
    ensures n1.Combine(n2).freq == Weight(occurrence, n1.Combine(n2).idx)
  {
    WeightConcat(occurrence, n1.idx, n2.idx);
  }

  /** The indices below `n` with a nonzero count. */
  function Counted(occurrence: seq<nat>, n: nat): set<nat>
  {
    set i | 0 <= i < n && i < |occurrence| && occurrence[i] != 0
  }

  lemma CountedNext(occurrence: seq<nat>, n: nat)
    requires n < |occurrence|
    ensures Counted(occurrence, n + 1)
         == if occurrence[n] != 0 then Counted(occurrence, n) + {n} else Counted(occurrence, n)
    ensures n !in Counted(occurrence, n)
  {
  }

  predicate IsPrefix(a: string, b: string)
  {
    |a| <= |b| && b[..|a|] == a
  }

  predicate IsSuffix(a: string, b: string)
  {
    |a| <= |b| && b[|b| - |a|..] == a
  }

  predicate IsBits(s: string)
  {
    forall k :: 0 <= k < |s| ==> s[k] == '0' || s[k] == '1'
  }

  /** std::reverse of a code string. */
  function Reverse(s: string): (r: string)
    ensures |r| == |s|
    ensures forall k :: 0 <= k < |s| ==> r[k] == s[|s| - 1 - k]
  {
    if s == [] then [] else Reverse(s[1..]) + [s[0]]
  }

  /** Reversal turns suffixes into prefixes and back. */
  lemma ReversePrefix(a: string, b: string)
    ensures IsPrefix(Reverse(a), Reverse(b)) <==> IsSuffix(a, b)
  {
    if IsPrefix(Reverse(a), Reverse(b)) {
      PrefixToSuffix(a, b);
    }
    if IsSuffix(a, b) {
      SuffixToPrefix(a, b);
    }
  }

  lemma PrefixToSuffix(a: string, b: string)
    requires IsPrefix(Reverse(a), Reverse(b))
    ensures IsSuffix(a, b)
  {
    var ra, rb := Reverse(a), Reverse(b);
    forall k | 0 <= k < |a|
      ensures b[|b| - |a|..][k] == a[k]
    {
      var j := |a| - 1 - k;
      assert rb[..|ra|][j] == ra[j];
      assert rb[j] == b[|b| - 1 - j];
      assert ra[j] == a[k];
    }
  }

  lemma SuffixToPrefix(a: string, b: string)
    requires IsSuffix(a, b)
    ensures IsPrefix(Reverse(a), Reverse(b))
  {
    var ra, rb := Reverse(a), Reverse(b);
    forall k | 0 <= k < |a|
      ensures rb[..|ra|][k] == ra[k]
    {
      var j := |a| - 1 - k;
      assert b[|b| - |a|..][j] == a[j];
      assert rb[k] == b[|b| - 1 - k];
      assert ra[k] == a[j];
    }
  }

  /** No code of a counted index is a prefix of the code of another counted index. */
  predicate PrefixFree(codes: seq<string>, used: set<nat>)
  {
    forall i, j :: i in used && j in used && i != j && i < |codes| && j < |codes|
      ==> !IsPrefix(codes[i], codes[j])
  }

  /** A prefix-free code over at least two indices gives each of them a nonempty code. */
  lemma PrefixFreeNonEmpty(codes: seq<string>, used: set<nat>, i: nat)
    requires PrefixFree(codes, used) && |used| >= 2
    requires forall j :: j in used ==> j < |codes|
    requires i in used
    ensures codes[i] != []
  {
    assert |used - {i}| == |used| - 1;
    var j :| j in used - {i};
    assert IsPrefix([], codes[j]);
  }

  /** The code table after one more bit is appended to the code of every member of `idx`. */
  function Mark(acc: seq<string>, idx: seq<nat>, bit: char): seq<string>
  {
    seq(|acc|, i requires 0 <= i < |acc| => if i in idx then acc[i] + [bit] else acc[i])
  }

  predicate NoDup(s: seq<nat>)
  {
    forall a, b :: 0 <= a < b < |s| ==> s[a] != s[b]
  }

  /** Every queued node is a proper subtree: held once, with distinct counted members,
      weighing what its members count. */
  ghost predicate NodesFormed(occurrence: seq<nat>, pq: multiset<Node>)
  {
    forall n :: n in pq ==>
      && pq[n] == 1
      && n.idx != []
      && NoDup(n.idx)
      && (forall k :: 0 <= k < |n.idx| ==> n.idx[k] < |occurrence| && occurrence[n.idx[k]] != 0)
      && n.freq == Weight(occurrence, n.idx)
  }

  /** No index belongs to two queued nodes. */
  ghost predicate Disjoint(pq: multiset<Node>)
  {
    forall n, m, i :: n in pq && m in pq && i in n.idx && i in m.idx ==> n == m
  }

  /** Every counted index belongs to some queued node. */
  ghost predicate Covers(occurrence: seq<nat>, pq: multiset<Node>)
  {
    forall i :: 0 <= i < |occurrence| && occurrence[i] != 0 ==> exists n :: n in pq && i in n.idx
  }

  /** The partial codes are bit strings, and an index with no count has none. */
  ghost predicate Untouched(occurrence: seq<nat>, acc: seq<string>)
  {
    && |acc| == |occurrence|
    && (forall i :: 0 <= i < |acc| ==> IsBits(acc[i]))
    && (forall i :: 0 <= i < |acc| && occurrence[i] == 0 ==> acc[i] == [])
  }

  /** Inside each subtree, no member's partial code (bits in the order they were
      appended, root last) ends the partial code of another member. */
  ghost predicate Separated(pq: multiset<Node>, acc: seq<string>)
  {
    forall n, i, j :: n in pq && i in n.idx && j in n.idx && i != j && i < |acc| && j < |acc|
      ==> !IsSuffix(acc[i], acc[j])
  }

  /** The invariant of the merge loop. */
  ghost predicate Forest(occurrence: seq<nat>, pq: multiset<Node>, acc: seq<string>)
  {
    && NodesFormed(occurrence, pq)
    && Disjoint(pq)
    && Covers(occurrence, pq)
    && Untouched(occurrence, acc)
    && Separated(pq, acc)
  }

  /** Taking one copy of `x` out of a queue keeps every other node. */
  lemma RemoveOne(pq: multiset<Node>, x: Node)
    requires x in pq
    ensures forall n :: n in pq && n != x ==> n in pq - multiset{x}
    ensures |pq - multiset{x}| == 0 ==> forall n :: n in pq ==> n == x
  {
    if |pq - multiset{x}| == 0 {
      assert pq - multiset{x} == multiset{};
    }
  }

  /** Some lightest node of a nonempty queue. */
  ghost function Lightest(pq: multiset<Node>): (m: Node)
    requires |pq| > 0
    ensures m in pq && forall n :: n in pq ==> !m.Heavier(n)
    decreases |pq|
  {
    var x :| x in pq;
    RemoveOne(pq, x);
    var rest := pq - multiset{x};
    if |rest| == 0 then x
    else
      var m := Lightest(rest);
      if m.Heavier(x) then x else m
  }

  /** pq.top() followed by pq.pop(): some lightest node leaves the queue. Which one of
      several equally light nodes is left open. */
  method PopMin(pq: multiset<Node>) returns (top: Node, rest: multiset<Node>)
    requires |pq| > 0
    ensures top in pq
    ensures forall n :: n in pq ==> !top.Heavier(n)
    ensures rest == pq - multiset{top}
  {
    ghost var m := Lightest(pq);
    top :| top in pq && forall n :: n in pq ==> !top.Heavier(n);
    rest := pq - multiset{top};
  }

  /** The queue after the first `n` count entries: one leaf per counted index below `n`. */
  ghost predicate Leaves(occurrence: seq<nat>, pq: multiset<Node>, n: nat)
  {
    && n <= |occurrence|
    && (forall m :: m in pq ==>
          && pq[m] == 1 && |m.idx| == 1 && m.idx[0] < n
          && occurrence[m.idx[0]] != 0 && m.freq == occurrence[m.idx[0]])
    && (forall j :: 0 <= j < n && occurrence[j] != 0 ==> Node(occurrence[j], [j]) in pq)
    && |pq| == |Counted(occurrence, n)|
  }

  lemma LeavesNext(occurrence: seq<nat>, pq: multiset<Node>, n: nat)
    requires Leaves(occurrence, pq, n) && n < |occurrence|
    ensures Leaves(occurrence, if occurrence[n] != 0 then pq + multiset{Node(occurrence[n], [n])} else pq, n + 1)
  {
    CountedNext(occurrence, n);
    if occurrence[n] != 0 {
      var leaf := Node(occurrence[n], [n]);
      assert leaf !in pq;
      assert |Counted(occurrence, n) + {n}| == |Counted(occurrence, n)| + 1;
    }
  }

  /** The leaves form a forest of one-member trees, with no bits yet. */
  lemma LeavesForest(occurrence: seq<nat>, pq: multiset<Node>, acc: seq<string>)
    requires Leaves(occurrence, pq, |occurrence|)
    requires |acc| == |occurrence| && forall k :: 0 <= k < |acc| ==> acc[k] == []
    ensures Forest(occurrence, pq, acc)
  {
    LeavesFormed(occurrence, pq);
    LeavesCover(occurrence, pq);
    LeavesSeparated(occurrence, pq, acc);
  }

  lemma LeavesSeparated(occurrence: seq<nat>, pq: multiset<Node>, acc: seq<string>)
    requires Leaves(occurrence, pq, |occurrence|)
    ensures Separated(pq, acc)
  {
    forall n, i, j | n in pq && i in n.idx && j in n.idx
      ensures i == j
    {
      assert n.idx == [n.idx[0]];
    }
  }

  lemma LeavesFormed(occurrence: seq<nat>, pq: multiset<Node>)
    requires Leaves(occurrence, pq, |occurrence|)
    ensures NodesFormed(occurrence, pq) && Disjoint(pq)
  {
    forall n | n in pq
      ensures n.freq == Weight(occurrence, n.idx)
    {
      LeafWeight(occurrence, n.idx);
    }
    forall n, m, i | n in pq && m in pq && i in n.idx && i in m.idx
      ensures n == m
    {
      assert n.idx == [n.idx[0]] && m.idx == [m.idx[0]];
    }
  }

  lemma LeafWeight(occurrence: seq<nat>, idx: seq<nat>)
    requires |idx| == 1 && idx[0] < |occurrence|
    ensures Weight(occurrence, idx) == occurrence[idx[0]]
  {
    assert idx[..0] == [];
  }

  lemma LeavesCover(occurrence: seq<nat>, pq: multiset<Node>)
    requires Leaves(occurrence, pq, |occurrence|)
    ensures Covers(occurrence, pq)
  {
    forall i | 0 <= i < |occurrence| && occurrence[i] != 0
      ensures exists n :: n in pq && i in n.idx
    {
      assert Node(occurrence[i], [i]) in pq;
    }
  }

  /** What a merge of `n1` and then `n2` can rely on: they are different nodes with no
      common member, and every other node is untouched. */
  lemma MergeParts(occurrence: seq<nat>, pq: multiset<Node>, n1: Node, n2: Node)
    requires NodesFormed(occurrence, pq) && Disjoint(pq)
    requires n1 in pq && n2 in pq - multiset{n1}
    ensures n1 != n2 && n2 in pq
    ensures forall i :: i in n1.idx ==> i !in n2.idx
    ensures forall n :: n in pq - multiset{n1} - multiset{n2} ==> n in pq && n != n1 && n != n2
    ensures n1.Combine(n2) !in pq - multiset{n1} - multiset{n2}
    ensures NoDup(n1.Combine(n2).idx)
  {
    var m := n1.Combine(n2);
    var rest := pq - multiset{n1} - multiset{n2};
    assert n1.idx[0] in m.idx;
    forall n | n in rest
      ensures n1.idx[0] !in n.idx
    {
      assert n in pq && n != n1;
    }
    forall a, b | 0 <= a < b < |m.idx|
      ensures m.idx[a] != m.idx[b]
    {
      if a < |n1.idx| && b >= |n1.idx| {
        assert m.idx[a] in n1.idx && m.idx[b] in n2.idx;
      } else if a >= |n1.idx| {
        assert m.idx[a] == n2.idx[a - |n1.idx|] && m.idx[b] == n2.idx[b - |n1.idx|];
      }
    }
  }

  /** A merge keeps every queued node well formed and the nodes disjoint, and shrinks
      the queue by one. */
  lemma MergeFormed(occurrence: seq<nat>, pq: multiset<Node>, n1: Node, n2: Node)
    requires NodesFormed(occurrence, pq) && Disjoint(pq)
    requires n1 in pq && n2 in pq - multiset{n1}
    ensures NodesFormed(occurrence, pq - multiset{n1} - multiset{n2} + multiset{n1.Combine(n2)})
    ensures Disjoint(pq - multiset{n1} - multiset{n2} + multiset{n1.Combine(n2)})
    ensures |pq - multiset{n1} - multiset{n2} + multiset{n1.Combine(n2)}| == |pq| - 1
  {
    MergeParts(occurrence, pq, n1, n2);
    var m := n1.Combine(n2);
    var rest := pq - multiset{n1} - multiset{n2};
    var pq' := rest + multiset{m};
    CombineWeight(occurrence, n1, n2);
    forall n | n in pq'
      ensures pq'[n] == 1
    {
      if n != m {
        assert n in rest;
      }
    }
    forall n, i | n in rest && i in n.idx
      ensures i !in m.idx
    {
      assert n in pq && n != n1 && n != n2;
    }
  }

  /** A merge keeps every counted index in some queued node. */
  lemma MergeCovers(occurrence: seq<nat>, pq: multiset<Node>, n1: Node, n2: Node)
    requires Covers(occurrence, pq)
    requires n1 in pq && n2 in pq - multiset{n1}
    ensures Covers(occurrence, pq - multiset{n1} - multiset{n2} + multiset{n1.Combine(n2)})
  {
    var m := n1.Combine(n2);
    var pq' := pq - multiset{n1} - multiset{n2} + multiset{m};
    forall i | 0 <= i < |occurrence| && occurrence[i] != 0
      ensures exists n :: n in pq' && i in n.idx
    {
      var n :| n in pq && i in n.idx;
      if n == n1 || n == n2 {
        assert i in m.idx && m in pq';
      } else {
        assert n in pq';
      }
    }
  }

  /** The code table after a merge: a '0' for the members of `n1`, a '1' for those of `n2`. */
  lemma MergeMarks(acc: seq<string>, n1: Node, n2: Node, i: nat)
    requires i < |acc|
    requires forall j :: j in n1.idx ==> j !in n2.idx
    ensures Mark(Mark(acc, n1.idx, '0'), n2.idx, '1')[i]
         == if i in n1.idx then acc[i] + ['0'] else if i in n2.idx then acc[i] + ['1'] else acc[i]
  {
  }

  /** A merge keeps the partial codes bit strings and leaves uncounted indices alone. */
  lemma MergeUntouched(occurrence: seq<nat>, pq: multiset<Node>, acc: seq<string>, n1: Node, n2: Node)
    requires NodesFormed(occurrence, pq) && Disjoint(pq) && Untouched(occurrence, acc)
    requires n1 in pq && n2 in pq - multiset{n1}
    ensures Untouched(occurrence, Mark(Mark(acc, n1.idx, '0'), n2.idx, '1'))
  {
    MergeParts(occurrence, pq, n1, n2);
    var acc' := Mark(Mark(acc, n1.idx, '0'), n2.idx, '1');
    forall i | 0 <= i < |acc|
      ensures IsBits(acc'[i]) && (occurrence[i] == 0 ==> acc'[i] == [])
    {
      MergeMarks(acc, n1, n2, i);
    }
  }

  lemma SuffixSnoc(a: string, b: string, c: char)
    ensures IsSuffix(a + [c], b + [c]) <==> IsSuffix(a, b)
  {
    if |a| <= |b| {
      var tail := b[|b| - |a|..];
      assert (b + [c])[|b + [c]| - |a + [c]|..] == tail + [c];
      if tail + [c] == a + [c] {
        assert tail == (tail + [c])[..|a|] == (a + [c])[..|a|] == a;
      }
    }
  }

  lemma SuffixLast(a: string, b: string, c: char, d: char)
    requires c != d
    ensures !IsSuffix(a + [c], b + [d])
  {
    var x, y := a + [c], b + [d];
    if |x| <= |y| {
      assert y[|y| - |x|..][|x| - 1] != x[|x| - 1];
    }
  }

  /** A merge keeps the members of every subtree apart: inside the merged node, the
      last bit tells the two halves apart, and each half was apart already. */
  lemma MergeSeparated(occurrence: seq<nat>, pq: multiset<Node>, acc: seq<string>, n1: Node, n2: Node)
    requires NodesFormed(occurrence, pq) && Disjoint(pq) && Separated(pq, acc)
    requires n1 in pq && n2 in pq - multiset{n1}
    ensures Separated(pq - multiset{n1} - multiset{n2} + multiset{n1.Combine(n2)},
                      Mark(Mark(acc, n1.idx, '0'), n2.idx, '1'))
  {
    MergeParts(occurrence, pq, n1, n2);
    var m := n1.Combine(n2);
    var rest := pq - multiset{n1} - multiset{n2};
    var pq' := rest + multiset{m};
    var acc' := Mark(Mark(acc, n1.idx, '0'), n2.idx, '1');
    forall n, i, j | n in pq' && i in n.idx && j in n.idx && i != j && i < |acc'| && j < |acc'|
      ensures !IsSuffix(acc'[i], acc'[j])
    {
      MergeMarks(acc, n1, n2, i);
      MergeMarks(acc, n1, n2, j);
      if n == m {
        if i in n1.idx && j in n1.idx {
          SuffixSnoc(acc[i], acc[j], '0');
        } else if i in n2.idx && j in n2.idx {
          SuffixSnoc(acc[i], acc[j], '1');
        } else if i in n1.idx {
          SuffixLast(acc[i], acc[j], '0', '1');
        } else {
          SuffixLast(acc[i], acc[j], '1', '0');
        }
      } else {
        assert n in rest;
        assert i !in n1.idx && i !in n2.idx && j !in n1.idx && j !in n2.idx;
      }
    }
  }

  /** The merge step keeps the forest invariant. */
  lemma MergeKeepsForest(occurrence: seq<nat>, pq: multiset<Node>, acc: seq<string>, n1: Node, n2: Node)
    requires Forest(occurrence, pq, acc)
    requires n1 in pq && n2 in pq - multiset{n1}
    ensures Forest(occurrence, pq - multiset{n1} - multiset{n2} + multiset{n1.Combine(n2)},
                   Mark(Mark(acc, n1.idx, '0'), n2.idx, '1'))
    ensures |pq - multiset{n1} - multiset{n2} + multiset{n1.Combine(n2)}| == |pq| - 1
  {
    MergeFormed(occurrence, pq, n1, n2);
    MergeCovers(occurrence, pq, n1, n2);
    MergeUntouched(occurrence, pq, acc, n1, n2);
    MergeSeparated(occurrence, pq, acc, n1, n2);
  }

  /** All nodes of a queue with at most one node are the same node. */
  lemma AtMostOne(pq: multiset<Node>)
    requires |pq| <= 1
    ensures forall x, y :: x in pq && y in pq ==> x == y
  {
    forall x, y | x in pq && y in pq
      ensures x == y
    {
      assert pq == (pq - multiset{x}) + multiset{x};
      assert |pq - multiset{x}| == 0;
    }
  }

  /** No partial code of a counted index ends the partial code of another. */
  ghost predicate SuffixFree(acc: seq<string>, used: set<nat>)
  {
    forall i, j :: i in used && j in used && i != j && i < |acc| && j < |acc|
      ==> !IsSuffix(acc[i], acc[j])
  }

  /** When the merging is over, all counted indices are in one tree, so their partial
      codes are apart. */
  lemma RootSuffixFree(occurrence: seq<nat>, pq: multiset<Node>, acc: seq<string>)
    requires Forest(occurrence, pq, acc) && |pq| <= 1
    ensures SuffixFree(acc, Counted(occurrence, |occurrence|))
  {
    AtMostOne(pq);
    var used := Counted(occurrence, |occurrence|);
    forall i, j | i in used && j in used && i != j && i < |acc| && j < |acc|
      ensures !IsSuffix(acc[i], acc[j])
    {
      var ni :| ni in pq && i in ni.idx;
      var nj :| nj in pq && j in nj.idx;
      assert ni == nj;
    }
  }

  /** Reversing every partial code turns a suffix-free table into a prefix-free code
      table of bit strings, where an uncounted index keeps the empty code. */
  lemma ReversedCodes(occurrence: seq<nat>, acc: seq<string>, codes: seq<string>)
    requires Untouched(occurrence, acc) && SuffixFree(acc, Counted(occurrence, |occurrence|))
    requires |codes| == |acc|
    requires forall k :: 0 <= k < |acc| ==> codes[k] == Reverse(acc[k])
    ensures forall i :: 0 <= i < |codes| ==> IsBits(codes[i])
    ensures forall i :: 0 <= i < |codes| && occurrence[i] == 0 ==> codes[i] == []
    ensures PrefixFree(codes, Counted(occurrence, |occurrence|))
  {
    forall i | 0 <= i < |codes|
      ensures IsBits(codes[i])
    {
      assert IsBits(acc[i]);
    }
    var used := Counted(occurrence, |occurrence|);
    forall i, j | i in used && j in used && i != j && i < |codes| && j < |codes|
      ensures !IsPrefix(codes[i], codes[j])
    {
      ReversePrefix(acc[i], acc[j]);
    }
  }

  lemma MarkNext(acc: seq<string>, idx: seq<nat>, k: nat, bit: char)
    requires k < |idx| && idx[k] < |acc| && NoDup(idx)
    ensures Mark(acc, idx[..k], bit)[idx[k]] == acc[idx[k]]
    ensures Mark(acc, idx[..k + 1], bit) == Mark(acc, idx[..k], bit)[idx[k] := acc[idx[k]] + [bit]]
  {
    assert idx[..k + 1] == idx[..k] + [idx[k]];
  }

  /** The first loop of huffman: one leaf per counted index. The leaves form a forest
      over a table `acc` of empty codes. */
  method MakeLeaves(occurrence: seq<nat>, ghost acc: seq<string>) returns (pq: multiset<Node>)
    requires |occurrence| == DictSize == |acc|
    requires forall k :: 0 <= k < |acc| ==> acc[k] == []
    ensures Forest(occurrence, pq, acc)
    ensures |pq| == |Counted(occurrence, DictSize)|
  {
    pq := multiset{};
    for i := 0 to DictSize
      invariant Leaves(occurrence, pq, i)
    {
      LeavesNext(occurrence, pq, i);
      if occurrence[i] != 0 {
        pq := pq + multiset{Node(occurrence[i], [i])};
      }
    }
    LeavesForest(occurrence, pq, acc);
  }

  /** `for (el : n.idx) huffmanMap[el] += bit`: one more bit for every member of a node. */
  method AppendBit(huffmanMap: array<string>, idx: seq<nat>, bit: char)
    requires NoDup(idx) && forall k :: 0 <= k < |idx| ==> idx[k] < huffmanMap.Length
    modifies huffmanMap
    ensures huffmanMap[..] == Mark(old(huffmanMap[..]), idx, bit)
  {
    ghost var acc := huffmanMap[..];
    for k := 0 to |idx|
      invariant huffmanMap[..] == Mark(acc, idx[..k], bit)
    {
      MarkNext(acc, idx, k, bit);
      huffmanMap[idx[k]] := huffmanMap[idx[k]] + [bit];
    }
    WholePrefix(idx);
  }

  /** One round of the merge loop: pop the two lightest nodes, mark their members with
      '0' and '1', and push their combination. `n1` and `n2` are the two nodes popped. */
  method MergeLightest(ghost occurrence: seq<nat>, huffmanMap: array<string>, pq: multiset<Node>)
    returns (pq': multiset<Node>, ghost n1: Node, ghost n2: Node)
    requires Forest(occurrence, pq, huffmanMap[..]) && |pq| > 1
    modifies huffmanMap
    ensures n1 in pq && forall n :: n in pq ==> !n1.Heavier(n)
    ensures n2 in pq - multiset{n1} && forall n :: n in pq - multiset{n1} ==> !n2.Heavier(n)
    ensures pq' == pq - multiset{n1} - multiset{n2} + multiset{n1.Combine(n2)}
    ensures huffmanMap[..] == Mark(Mark(old(huffmanMap[..]), n1.idx, '0'), n2.idx, '1')
    ensures Forest(occurrence, pq', huffmanMap[..])
    ensures |pq'| == |pq| - 1
  {
    var first, rest1 := PopMin(pq);
    var second, rest2 := PopMin(rest1);
    ghost var acc := huffmanMap[..];
    MergeParts(occurrence, pq, first, second);
    AppendBit(huffmanMap, first.idx, '0');
    AppendBit(huffmanMap, second.idx, '1');
    MergeKeepsForest(occurrence, pq, acc, first, second);
    n1, n2 := first, second;
    pq' := rest2 + multiset{first.Combine(second)};
  }

  /** The last loop of huffman: std::reverse on every code string. */
  method ReverseEach(huffmanMap: array<string>)
    modifies huffmanMap
    ensures forall k :: 0 <= k < huffmanMap.Length ==> huffmanMap[k] == Reverse(old(huffmanMap[k]))
  {
    ghost var acc := huffmanMap[..];
    for i := 0 to huffmanMap.Length
      invariant forall k :: 0 <= k < i ==> huffmanMap[k] == Reverse(acc[k])
      invariant forall k :: i <= k < huffmanMap.Length ==> huffmanMap[k] == acc[k]
    {
      huffmanMap[i] := Reverse(huffmanMap[i]);
    }
  }

  /** The merge loop runs once fewer than there are counted indices, and not at all
      when there is at most one. */
  lemma MergeCount(pq: multiset<Node>, used: nat, merges: nat)
    requires |pq| <= 1
    requires merges + |pq| == used
    requires used >= 1 ==> |pq| >= 1
    ensures merges == if used == 0 then 0 else used - 1
    ensures used <= 1 ==> merges == 0
  {
  }

  /** With the merging over and at least two counted indices, each of them has a code. */
  lemma CountedNonEmpty(occurrence: seq<nat>, codes: seq<string>)
    requires |codes| == |occurrence|
    requires PrefixFree(codes, Counted(occurrence, |occurrence|))
    requires |Counted(occurrence, |occurrence|)| >= 2
    ensures forall i :: 0 <= i < |occurrence| && occurrence[i] != 0 ==> codes[i] != []
  {
    forall i | 0 <= i < |occurrence| && occurrence[i] != 0
      ensures codes[i] != []
    {
      PrefixFreeNonEmpty(codes, Counted(occurrence, |occurrence|), i);
    }
  }

  /** The merge loop of huffman: merge the two lightest nodes while more than one is
      queued. `merges` counts the rounds. */
  method MergeAll(ghost occurrence: seq<nat>, huffmanMap: array<string>, pq: multiset<Node>)
    returns (pq': multiset<Node>, ghost merges: nat)
    requires Forest(occurrence, pq, huffmanMap[..])
    modifies huffmanMap
    ensures Forest(occurrence, pq', huffmanMap[..])
    ensures Untouched(occurrence, huffmanMap[..])
    ensures SuffixFree(huffmanMap[..], Counted(occurrence, |occurrence|))
    ensures |pq'| <= 1 && merges + |pq'| == |pq|
    ensures |pq| >= 1 ==> |pq'| == 1
    ensures merges == 0 ==> forall k :: 0 <= k < huffmanMap.Length ==> huffmanMap[k] == old(huffmanMap[k])
  {
    pq' := pq;
    merges := 0;
    while |pq'| > 1
      invariant Forest(occurrence, pq', huffmanMap[..])
      invariant merges + |pq'| == |pq|
      invariant |pq| >= 1 ==> |pq'| >= 1
      invariant merges == 0 ==> forall k :: 0 <= k < huffmanMap.Length ==> huffmanMap[k] == old(huffmanMap[k])
      decreases |pq'|
    {
      ghost var n1, n2;
      pq', n1, n2 := MergeLightest(occurrence, huffmanMap, pq');
      merges := merges + 1;
    }
    RootSuffixFree(occurrence, pq', huffmanMap[..]);
  }

  /** The first two loops of huffman on a table of empty codes: leaves, then merging.
      What is left in the table are the codes read from the leaves up. */
  method BuildTree(occurrence: seq<nat>, huffmanMap: array<string>) returns (ghost merges: nat)
    requires |occurrence| == DictSize == huffmanMap.Length
    requires forall k :: 0 <= k < huffmanMap.Length ==> huffmanMap[k] == []
    modifies huffmanMap
    ensures Untouched(occurrence, huffmanMap[..])
    ensures SuffixFree(huffmanMap[..], Counted(occurrence, DictSize))
    ensures merges == if |Counted(occurrence, DictSize)| == 0 then 0 else |Counted(occurrence, DictSize)| - 1
    ensures |Counted(occurrence, DictSize)| <= 1 ==> forall k :: 0 <= k < DictSize ==> huffmanMap[k] == []
  {
    var pq := MakeLeaves(occurrence, huffmanMap[..]);
    pq, merges := MergeAll(occurrence, huffmanMap, pq);
    ghost var used := Counted(occurrence, DictSize);
    MergeCount(pq, |used|, merges);
    if |used| <= 1 {
      forall k | 0 <= k < DictSize
        ensures huffmanMap[k] == []
      {
        assert huffmanMap[k] == old(huffmanMap[k]);
      }
    }
  }

  /** huffman: the code table built by repeatedly merging the two lightest subtrees. */
  method HuffmanCodes(occurrence: seq<nat>) returns (codes: seq<string>, ghost merges: nat)
    requires |occurrence| == DictSize
    ensures |codes| == DictSize
    ensures forall i :: 0 <= i < DictSize ==> IsBits(codes[i])
    ensures forall i :: 0 <= i < DictSize && occurrence[i] == 0 ==> codes[i] == []
    ensures |Counted(occurrence, DictSize)| <= 1 ==> forall i :: 0 <= i < DictSize ==> codes[i] == []
    ensures PrefixFree(codes, Counted(occurrence, DictSize))
    ensures |Counted(occurrence, DictSize)| >= 2 ==>
      forall i :: 0 <= i < DictSize && occurrence[i] != 0 ==> codes[i] != []
    ensures merges == if |Counted(occurrence, DictSize)| == 0 then 0 else |Counted(occurrence, DictSize)| - 1
  {
    var huffmanMap := new string[DictSize](_ => []);
    merges := BuildTree(occurrence, huffmanMap);
    ghost var acc := huffmanMap[..];
    ReverseEach(huffmanMap);
    codes := huffmanMap[..];
    ReversedCodes(occurrence, acc, codes);
    if |Counted(occurrence, DictSize)| >= 2 {
      CountedNonEmpty(occurrence, codes);
    }
  }
}
