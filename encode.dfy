/** The merge loop of compress/node.go (`encode`): builds the Huffman tree
    from the sorted frequency list and derives the code table from it. */
module HuffmanTree {
  import opened Common
  import opened Nodes
  import opened Frequencies

  /** The node that replaces the two front entries: symbol 0, the sum of
      their counts, the second entry on the left and the first on the right,
      unless the counts tie and the second entry's symbol is 0, in which case
      the two are swapped first. */
  function Merge(n0: Node, n1: Node): (r: Node)
    ensures r.b == 0 && r.freq == n0.freq + n1.freq
  {
    if n0.freq == n1.freq && n1.b == 0 then Node(0, n1.freq + n0.freq, Some(n0), Some(n1))
    else Node(0, n0.freq + n1.freq, Some(n1), Some(n0))
  }

  /** The merged node holds the two entries as its children and their total
      count. When it merges the front of a sorted list, the entry with the
      larger count goes left, and on a tie with symbol 0 second, the first
      entry goes left. */
  lemma MergeFacts(n0: Node, n1: Node)
    ensures var m := Merge(n0, n1);
      m.b == 0 && m.freq == n0.freq + n1.freq && m.left.Some? && m.right.Some? &&
      multiset{m.left.value, m.right.value} == multiset{n0, n1}
    ensures n0.freq <= n1.freq ==> Merge(n0, n1).left.value.freq >= Merge(n0, n1).right.value.freq
    ensures n0.freq == n1.freq && n1.b == 0 ==> Merge(n0, n1).left == Some(n0)
    ensures !(n0.freq == n1.freq && n1.b == 0) ==> Merge(n0, n1).left == Some(n1)
  {
  }

  /** One iteration of the merge loop. */
  function Step(t: seq<Node>): (r: seq<Node>)
    requires |t| >= 2
    ensures |r| == |t| - 1
  {
    InsertionSorted(t[2..] + [Merge(t[0], t[1])])
  }

  /** The work list when the merge loop stops. */
  function Forest(t: seq<Node>): (r: seq<Node>)
    ensures |r| == if t == [] then 0 else 1
    decreases |t|
  {
    if |t| <= 1 then t else Forest(Step(t))
  }

  /** The root the merge loop leaves behind. */
  function Root(freqs: seq<Node>): Node
    requires freqs != []
  {
    Forest(freqs)[0]
  }

  /** encode: merges the front two entries of a copy of `freqs` until one
      is left, then builds the table from that root. With no entries at all
      the Go code indexes an empty slice and panics; that is None here. */
  method Encode(freqs: seq<Node>) returns (r: Option<Code>)
    ensures r.None? <==> freqs == []
    ensures r.Some? ==> r.value == CodesOf(freqs, Root(freqs))
  {
    if |freqs| == 0 {
      return None;
    }
    var tree := new Node[|freqs|](i requires 0 <= i < |freqs| => freqs[i]);
    assert tree[..] == freqs;
    while tree.Length > 1
      invariant tree.Length >= 1
      invariant Forest(tree[..]) == Forest(freqs)
      decreases tree.Length
    {
      tree := MergeFront(tree);
    }
    assert tree[..] == [tree[0]];
    assert tree[0] == Root(freqs);
    var c := GetCodes(freqs, tree[0]);
    return Some(c);
  }

  /** The body of the merge loop: the two front entries are replaced by
      their merge at the back of a fresh list, which is then sorted. */
  method MergeFront(tree: array<Node>) returns (next: array<Node>)
    requires tree.Length >= 2
    ensures fresh(next)
    ensures next[..] == Step(tree[..])
  {
    var node0, node1 := tree[0], tree[1];
    if node0.freq == node1.freq && node1.b == 0 {
      node0, node1 := node1, node0;
    }
    var newNode := Node(0, node0.freq + node1.freq, Some(node1), Some(node0));
    assert newNode == Merge(tree[0], tree[1]);
    next := new Node[tree.Length - 1];
    forall k | 0 <= k < tree.Length - 2 {
      next[k] := tree[k + 2];
    }
    next[tree.Length - 2] := newNode;
    assert next[..] == tree[2..] + [newNode];
    Sort(next);
  }

  /** Sums of a quantity over the entries of a work list. */
  function SumOf(t: seq<Node>, f: Node -> int): int
  {
    if t == [] then 0 else f(t[0]) + SumOf(t[1..], f)
  }

  function FreqOf(n: Node): int
  {
    n.freq
  }

  function OccOf(k: Byte): Node -> int
  {
    n => Occ(n, k)
  }

  function OccWithOf(k: Byte, f: int): Node -> int
  {
    n => OccWith(n, k, f)
  }

  lemma {:induction false} SumOfAppend(a: seq<Node>, b: seq<Node>, f: Node -> int)
    ensures SumOf(a + b, f) == SumOf(a, f) + SumOf(b, f)
  {
    if a == [] {
      assert a + b == b;
    } else {
      assert (a + b)[1..] == a[1..] + b;
      SumOfAppend(a[1..], b, f);
    }
  }

  lemma RemoveAt(t: seq<Node>, j: nat)
    requires j < |t|
    ensures multiset(t[..j] + t[j + 1..]) == multiset(t) - multiset{t[j]}
  {
    assert t == t[..j] + [t[j]] + t[j + 1..];
  }

  /** Taking one entry out of a list takes its term out of the sum. */
  lemma SumOfRemove(t: seq<Node>, j: nat, f: Node -> int)
    requires j < |t|
    ensures SumOf(t, f) == f(t[j]) + SumOf(t[..j] + t[j + 1..], f)
  {
    assert t == t[..j] + [t[j]] + t[j + 1..];
    SumOfAppend(t[..j] + [t[j]], t[j + 1..], f);
    SumOfAppend(t[..j], [t[j]], f);
    SumOfAppend(t[..j], t[j + 1..], f);
    assert SumOf([t[j]], f) == f(t[j]) + SumOf([], f);
  }

  /** A sum over a list does not depend on the order of its entries. */
  lemma {:induction false} SumOfPermutation(s: seq<Node>, t: seq<Node>, f: Node -> int)
    requires multiset(s) == multiset(t)
    ensures SumOf(s, f) == SumOf(t, f)
  {
    if s == [] {
      assert |t| == |multiset(t)| == 0;
    } else {
      var x := s[0];
      assert x in multiset(t);
      var j :| 0 <= j < |t| && t[j] == x;
      assert s == [x] + s[1..];
      assert multiset(s[1..]) == multiset(s) - multiset{x};
      RemoveAt(t, j);
      SumOfPermutation(s[1..], t[..j] + t[j + 1..], f);
      SumOfRemove(t, j, f);
    }
  }

  ghost predicate AllWellFormed(t: seq<Node>)
  {
    forall i :: 0 <= i < |t| ==> WellFormed(t[i])
  }

  /** What one iteration of the merge loop keeps: the total count, the shape
      of every tree in the list, and how often each nonzero symbol occurs. */
  lemma StepKeeps(t: seq<Node>)
    requires |t| >= 2
    ensures SumOf(Step(t), FreqOf) == SumOf(t, FreqOf)
    ensures forall k: Byte :: k != 0 ==> SumOf(Step(t), OccOf(k)) == SumOf(t, OccOf(k))
    ensures forall k: Byte, f :: k != 0 ==> SumOf(Step(t), OccWithOf(k, f)) == SumOf(t, OccWithOf(k, f))
    ensures AllWellFormed(t) ==> AllWellFormed(Step(t))
  {
    var m := Merge(t[0], t[1]);
    StepSum(t, FreqOf);
    forall k: Byte | k != 0 ensures SumOf(Step(t), OccOf(k)) == SumOf(t, OccOf(k)) {
      assert OccOf(k)(m) == OccOf(k)(t[0]) + OccOf(k)(t[1]);
      StepSum(t, OccOf(k));
    }
    forall k: Byte, f | k != 0 ensures SumOf(Step(t), OccWithOf(k, f)) == SumOf(t, OccWithOf(k, f)) {
      assert OccWithOf(k, f)(m) == OccWithOf(k, f)(t[0]) + OccWithOf(k, f)(t[1]);
      StepSum(t, OccWithOf(k, f));
    }
    if AllWellFormed(t) {
      StepWellFormed(t);
    }
  }

  /** A sum to which the merged node adds what its two children added is
      kept by an iteration. */
  lemma StepSum(t: seq<Node>, f: Node -> int)
    requires |t| >= 2 && f(Merge(t[0], t[1])) == f(t[0]) + f(t[1])
    ensures SumOf(Step(t), f) == SumOf(t, f)
  {
    var m := Merge(t[0], t[1]);
    var u := t[2..] + [m];
    SortedSum(u, f);
    SumOfSnoc(t[2..], m, f);
    SumOfFront(t, f);
  }

  lemma SortedSum(u: seq<Node>, f: Node -> int)
    ensures SumOf(InsertionSorted(u), f) == SumOf(u, f)
  {
    InsertionSortedPermutes(u);
    SumOfPermutation(InsertionSorted(u), u, f);
  }

  lemma SumOfSnoc(t: seq<Node>, x: Node, f: Node -> int)
    ensures SumOf(t + [x], f) == SumOf(t, f) + f(x)
  {
    SumOfAppend(t, [x], f);
    assert SumOf([x], f) == f(x) + SumOf([], f);
  }

  // Bookkeeping step that keeps the solver's work small; it says nothing
  // about the model on its own.
  lemma SumOfFront(t: seq<Node>, f: Node -> int)
    requires |t| >= 2
    ensures SumOf(t, f) == f(t[0]) + f(t[1]) + SumOf(t[2..], f)
  {
    assert t[1..][1..] == t[2..];
  }

  lemma StepWellFormed(t: seq<Node>)
    requires |t| >= 2 && AllWellFormed(t)
    ensures AllWellFormed(Step(t))
  {
    var m := Merge(t[0], t[1]);
    var u := t[2..] + [m];
    InsertionSortedPermutes(u);
    forall i | 0 <= i < |Step(t)| ensures WellFormed(Step(t)[i]) {
      var y := Step(t)[i];
      assert y in multiset(u);
      if y != m {
        assert y in t[2..];
      }
    }
  }

  /** The root's count is the sum of all input counts. */
  lemma {:induction false} RootFreq(t: seq<Node>)
    requires t != []
    ensures Root(t).freq == SumOf(t, FreqOf)
    decreases |t|
  {
    if |t| >= 2 {
      StepKeeps(t);
      RootFreq(Step(t));
    }
  }

  /** The root is well-formed, and each nonzero symbol occurs in it as many
      times as in the input list. */
  lemma {:induction false} RootShape(t: seq<Node>)
    requires t != [] && AllWellFormed(t)
    ensures WellFormed(Root(t))
    ensures forall k: Byte :: k != 0 ==> Occ(Root(t), k) == SumOf(t, OccOf(k))
    ensures forall k: Byte, f :: k != 0 ==> OccWith(Root(t), k, f) == SumOf(t, OccWithOf(k, f))
    decreases |t|
  {
    if |t| >= 2 {
      StepKeeps(t);
      RootShape(Step(t));
    } else {
      forall k: Byte | k != 0 ensures Occ(Root(t), k) == SumOf(t, OccOf(k)) {
        assert SumOf(t, OccOf(k)) == OccOf(k)(t[0]) + SumOf(t[1..], OccOf(k));
      }
      forall k: Byte, f | k != 0 ensures OccWith(Root(t), k, f) == SumOf(t, OccWithOf(k, f)) {
        assert SumOf(t, OccWithOf(k, f)) == OccWithOf(k, f)(t[0]) + SumOf(t[1..], OccWithOf(k, f));
      }
    }
  }

  /** With two or more entries the root is a merged node, symbol 0. */
  lemma {:induction false} RootMerged(t: seq<Node>)
    requires |t| >= 2
    ensures Root(t).b == 0 && Root(t).left.Some? && Root(t).right.Some?
    decreases |t|
  {
    var m := Merge(t[0], t[1]);
    var u := t[2..] + [m];
    if |t| == 2 {
      assert u == [m];
      assert u[..0] == [];
      assert InsertionSorted(u) == Insert(InsertionSorted([]), m) == [m];
      assert Forest(t) == Forest([m]) == [m];
    } else {
      RootMerged(Step(t));
    }
  }
}
