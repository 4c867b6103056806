/** The Huffman tree node, the code table type and the operations of
    compress/node.go that work on a finished tree or table. */
module Nodes {
  import opened Common

  /** A tree node. Leaves have no children; a merged node has both. The child
      pointers become optional subtrees: a node is never changed once it is
      placed in the tree, so the tree is a value. */
  datatype Node = Node(b: Byte, freq: int, left: Option<Node>, right: Option<Node>)

  /** Code: the table from a symbol to its code, a string of '0' and '1'. */
  type Code = map<Byte, string>

  function Leaf(b: Byte, freq: int): Node
  {
    Node(b, freq, None, None)
  }

  /** find: the code of `search` below `n`, and whether it was found. A node
      matches when its symbol equals the one searched for, whatever kind of
      node it is; a child is visited only while `n.freq - search.freq > 0`. */
  function Find(n: Node, search: Node): (r: (string, bool))
    ensures r.1 ==> IsBits(r.0)
    ensures !r.1 ==> r.0 == ""
  {
    if n.b == search.b then ("", true)
    else
      var l := if n.left.Some? && n.freq - search.freq > 0 then Find(n.left.value, search) else ("", false);
      if l.1 then ("0" + l.0, true)
      else
        var r := if n.right.Some? && n.freq - search.freq > 0 then Find(n.right.value, search) else ("", false);
        if r.1 then ("1" + r.0, true) else ("", false)
  }

  predicate IsBits(s: string)
  {
    forall i :: 0 <= i < |s| ==> s[i] == '0' || s[i] == '1'
  }

  /** The node reached from `n` by following `p`, '0' to the left and '1' to
      the right, if there is one. */
  function At(n: Node, p: string): Option<Node>
  {
    if p == [] then Some(n)
    else if p[0] == '0' && n.left.Some? then At(n.left.value, p[1..])
    else if p[0] == '1' && n.right.Some? then At(n.right.value, p[1..])
    else None
  }

  /** A path that `find` may take to a match: every node above the end has a
      different symbol and a frequency above the searched one, and the node
      at the end has the searched symbol. */
  predicate Hit(n: Node, s: Node, p: string)
  {
    if p == [] then n.b == s.b
    else
      n.b != s.b && n.freq > s.freq &&
      ((p[0] == '0' && n.left.Some? && Hit(n.left.value, s, p[1..])) ||
       (p[0] == '1' && n.right.Some? && Hit(n.right.value, s, p[1..])))
  }

  /** Pre-order on paths: `p` is visited before `q` when, at their first
      difference, `p` goes left and `q` goes right. */
  predicate Before(p: string, q: string)
  {
    |p| > 0 && |q| > 0 &&
    ((p[0] == '0' && q[0] == '1') || (p[0] == q[0] && Before(p[1..], q[1..])))
  }

  lemma {:induction false} HitReaches(n: Node, s: Node, p: string)
    requires Hit(n, s, p)
    ensures IsBits(p) && At(n, p).Some? && At(n, p).value.b == s.b
  {
    if p != [] {
      if p[0] == '0' && n.left.Some? && Hit(n.left.value, s, p[1..]) {
        HitReaches(n.left.value, s, p[1..]);
      } else {
        HitReaches(n.right.value, s, p[1..]);
      }
    }
  }

  /** A successful find returns a path of '0'/'1' steps to a node holding
      the searched symbol, through nodes whose frequency exceeds the searched
      one; a failed find returns "". */
  lemma {:induction false} FindSound(n: Node, s: Node)
    ensures Find(n, s).1 ==> Hit(n, s, Find(n, s).0)
    ensures Find(n, s).1 ==> IsBits(Find(n, s).0) && At(n, Find(n, s).0).Some?
    ensures Find(n, s).1 ==> At(n, Find(n, s).0).value.b == s.b
    ensures !Find(n, s).1 ==> Find(n, s).0 == ""
  {
    if n.b != s.b {
      if n.left.Some? && n.freq - s.freq > 0 {
        FindSound(n.left.value, s);
      }
      if n.right.Some? && n.freq - s.freq > 0 {
        FindSound(n.right.value, s);
      }
      var (p, found) := Find(n, s);
      if found {
        assert p[1..] == (if p[0] == '0' then Find(n.left.value, s).0 else Find(n.right.value, s).0);
      }
    }
    if Find(n, s).1 {
      HitReaches(n, s, Find(n, s).0);
    }
  }

  /** find is complete and returns the first match in pre-order: whenever a
      path `q` could reach the searched symbol, find succeeds, and its path
      is `q` or comes before `q`. */
  lemma {:induction false} FindFirst(n: Node, s: Node, q: string)
    requires Hit(n, s, q)
    ensures Find(n, s).1
    ensures Find(n, s).0 == q || Before(Find(n, s).0, q)
  {
    if q != [] {
      var q' := q[1..];
      if q[0] == '0' && n.left.Some? && Hit(n.left.value, s, q') {
        FindFirst(n.left.value, s, q');
        var p' := Find(n.left.value, s).0;
        assert Find(n, s).0 == "0" + p';
        assert ("0" + p')[1..] == p';
      } else {
        FindFirst(n.right.value, s, q');
        if n.left.Some? && n.freq - s.freq > 0 && Find(n.left.value, s).1 {
          assert Find(n, s).0 == "0" + Find(n.left.value, s).0;
        } else {
          var p' := Find(n.right.value, s).0;
          assert Find(n, s).0 == "1" + p';
          assert ("1" + p')[1..] == p';
        }
      }
    }
  }

  /** The shape of every tree the merge loop builds: a leaf with a positive
      count, or a node with symbol 0, two children, and the sum of their
      counts. */
  predicate WellFormed(n: Node)
  {
    if n.left.None? && n.right.None? then n.freq >= 1
    else
      n.left.Some? && n.right.Some? && n.b == 0 &&
      n.freq == n.left.value.freq + n.right.value.freq &&
      WellFormed(n.left.value) && WellFormed(n.right.value)
  }

  /** The number of nodes of the tree whose symbol is `k`. */
  function Occ(n: Node, k: Byte): nat
  {
    (if n.b == k then 1 else 0) +
    (if n.left.Some? then Occ(n.left.value, k) else 0) +
    (if n.right.Some? then Occ(n.right.value, k) else 0)
  }

  /** The number of nodes of the tree whose symbol is `k` and count `f`. */
  function OccWith(n: Node, k: Byte, f: int): nat
  {
    (if n.b == k && n.freq == f then 1 else 0) +
    (if n.left.Some? then OccWith(n.left.value, k, f) else 0) +
    (if n.right.Some? then OccWith(n.right.value, k, f) else 0)
  }

  /** A node that occurs in the tree is reached by some path. */
  lemma {:induction false} OccWithPath(n: Node, k: Byte, f: int) returns (p: string)
    requires OccWith(n, k, f) >= 1
    ensures At(n, p).Some? && At(n, p).value.b == k && At(n, p).value.freq == f
  {
    if n.b == k && n.freq == f {
      p := "";
    } else if n.left.Some? && OccWith(n.left.value, k, f) >= 1 {
      var q := OccWithPath(n.left.value, k, f);
      p := "0" + q;
      assert p[1..] == q;
    } else {
      var q := OccWithPath(n.right.value, k, f);
      p := "1" + q;
      assert p[1..] == q;
    }
  }

  lemma {:induction false} WellFormedFreq(n: Node)
    requires WellFormed(n)
    ensures n.freq >= 1
  {
    if n.left.Some? {
      WellFormedFreq(n.left.value);
      WellFormedFreq(n.right.value);
    }
  }

  lemma {:induction false} AtAppend(n: Node, p: string, q: string)
    ensures At(n, p + q) == if At(n, p).Some? then At(At(n, p).value, q) else None
  {
    if p != [] {
      assert (p + q)[0] == p[0] && (p + q)[1..] == p[1..] + q;
      if p[0] == '0' && n.left.Some? {
        AtAppend(n.left.value, p[1..], q);
      } else if p[0] == '1' && n.right.Some? {
        AtAppend(n.right.value, p[1..], q);
      }
    } else {
      assert p + q == q;
    }
  }

  /** A node strictly below the root of a well-formed tree has a smaller
      count, and is itself well-formed. */
  lemma {:induction false} AtBelow(n: Node, p: string)
    requires WellFormed(n) && At(n, p).Some?
    ensures WellFormed(At(n, p).value)
    ensures p != [] ==> At(n, p).value.freq < n.freq
  {
    if p != [] {
      WellFormedFreq(n.left.value);
      WellFormedFreq(n.right.value);
      if p[0] == '0' {
        AtBelow(n.left.value, p[1..]);
      } else {
        AtBelow(n.right.value, p[1..]);
      }
    }
  }

  lemma {:induction false} AtOcc(n: Node, p: string, k: Byte)
    requires At(n, p).Some? && At(n, p).value.b == k
    ensures Occ(n, k) >= 1
  {
    if p != [] {
      if p[0] == '0' {
        AtOcc(n.left.value, p[1..], k);
      } else {
        AtOcc(n.right.value, p[1..], k);
      }
    }
  }

  /** A symbol that occurs once in the tree sits at exactly one path. */
  lemma {:induction false} UniquePosition(n: Node, k: Byte, p: string, q: string)
    requires Occ(n, k) == 1
    requires At(n, p).Some? && At(n, p).value.b == k
    requires At(n, q).Some? && At(n, q).value.b == k
    ensures p == q
  {
    if n.b == k {
      if p != [] {
        AtOcc(if p[0] == '0' then n.left.value else n.right.value, p[1..], k);
      }
      if q != [] {
        AtOcc(if q[0] == '0' then n.left.value else n.right.value, q[1..], k);
      }
    } else if p != [] && q != [] {
      if p[0] == q[0] {
        AtOcc(if p[0] == '0' then n.left.value else n.right.value, p[1..], k);
        AtOcc(if q[0] == '0' then n.left.value else n.right.value, q[1..], k);
        UniquePosition(if p[0] == '0' then n.left.value else n.right.value, k, p[1..], q[1..]);
        assert p == [p[0]] + p[1..] && q == [q[0]] + q[1..];
      } else {
        AtOcc(if p[0] == '0' then n.left.value else n.right.value, p[1..], k);
        AtOcc(if q[0] == '0' then n.left.value else n.right.value, q[1..], k);
      }
    }
  }

  /** In a well-formed tree every path to a nonzero symbol is one `find`
      may take when it searches for that node. */
  lemma {:induction false} PathIsHit(n: Node, s: Node, p: string)
    requires WellFormed(n) && s.b != 0
    requires At(n, p).Some? && At(n, p).value.b == s.b && At(n, p).value.freq == s.freq
    ensures Hit(n, s, p)
  {
    if p != [] {
      AtBelow(n, p);
      if p[0] == '0' {
        PathIsHit(n.left.value, s, p[1..]);
      } else {
        PathIsHit(n.right.value, s, p[1..]);
      }
    }
  }

  /** In a well-formed tree where a nonzero symbol occurs once, `find` on
      that node's symbol and count returns exactly the path to it. */
  lemma FindUnique(n: Node, s: Node, p: string)
    requires WellFormed(n) && s.b != 0 && Occ(n, s.b) == 1
    requires At(n, p).Some? && At(n, p).value.b == s.b && At(n, p).value.freq == s.freq
    ensures Find(n, s) == (p, true)
  {
    PathIsHit(n, s, p);
    FindFirst(n, s, p);
    FindSound(n, s);
    UniquePosition(n, s.b, p, Find(n, s).0);
  }

  /** No path to a nonzero symbol is a prefix of a different path to a node
      of a well-formed tree: a nonzero symbol sits at a leaf. */
  lemma LeafPathMaximal(n: Node, p: string, q: string)
    requires WellFormed(n)
    requires At(n, p).Some? && At(n, p).value.b != 0
    requires p < q
    ensures At(n, q).None?
  {
    AtBelow(n, p);
    var m := At(n, p).value;
    assert q == p + q[|p|..];
    AtAppend(n, p, q[|p|..]);
  }

  /** Reverse: the table from a code back to a symbol (compress/node.go:67-73). */
  ghost predicate IsReverse(rev: map<string, Byte>, c: Code)
  {
    rev.Keys == c.Values &&
    forall w :: w in rev ==> rev[w] in c && c[rev[w]] == w
  }

  ghost predicate Injective(c: Code)
  {
    forall k1, k2 :: k1 in c && k2 in c && k1 != k2 ==> c[k1] != c[k2]
  }

  lemma ReverseOfInjective(rev: map<string, Byte>, c: Code, k: Byte)
    requires IsReverse(rev, c) && Injective(c) && k in c
    ensures c[k] in rev && rev[c[k]] == k
  {
    assert c[k] in c.Values;
  }

  /** Reverse visits the keys in an unspecified order; when two keys share a
      code the one visited last wins, so the result is any reverse table. */
  method Reverse(c: Code) returns (rev: map<string, Byte>)
    ensures IsReverse(rev, c)
    ensures |rev| <= |c|
    ensures Injective(c) ==> forall k :: k in c ==> c[k] in rev && rev[c[k]] == k
  {
    rev := map[];
    var rest := c.Keys;
    while rest != {}
      invariant rest <= c.Keys
      invariant forall w :: w in rev ==> rev[w] in c.Keys - rest && c[rev[w]] == w
      invariant forall k :: k in c.Keys - rest ==> c[k] in rev
      invariant |rev| <= |c.Keys| - |rest|
      decreases rest
    {
      var k :| k in rest;
      rev := rev[c[k] := k];
      rest := rest - {k};
    }
    forall w | w in c.Values ensures w in rev {
      var k :| k in c && c[k] == w;
    }
    forall k | Injective(c) && k in c ensures rev[c[k]] == k {
      ReverseOfInjective(rev, c, k);
    }
  }

  /** Keys: every key of the table exactly once, in an unspecified order. */
  method Keys(c: Code) returns (keys: seq<Byte>)
    ensures |keys| == |c|
    ensures forall i, j :: 0 <= i < j < |keys| ==> keys[i] != keys[j]
    ensures forall k :: k in c <==> k in keys
  {
    var a := new Byte[|c|];
    var i := 0;
    var rest := c.Keys;
    ghost var order: seq<Byte> := [];
    while rest != {}
      invariant rest <= c.Keys && i + |rest| == |c| == a.Length
      invariant a[..i] == order
      invariant forall j :: 0 <= j < i ==> order[j] in c.Keys - rest
      invariant forall k :: k in c.Keys - rest ==> k in order
      invariant forall j, l :: 0 <= j < l < i ==> order[j] != order[l]
      decreases rest
    {
      var k :| k in rest;
      a[i] := k;
      order := order + [k];
      i := i + 1;
      rest := rest - {k};
    }
    keys := a[..];
    assert keys == order;
  }

  /** Values lists the codes of the keys in one listing of the keys. */
  ghost predicate ListsValues(vals: seq<string>, order: seq<Byte>, c: Code)
  {
    |order| == |vals| == |c| &&
    (forall i, j :: 0 <= i < j < |order| ==> order[i] != order[j]) &&
    (forall k :: k in c <==> k in order) &&
    forall i :: 0 <= i < |order| ==> vals[i] == c[order[i]]
  }

  /** Values: the code of every key once, in an unspecified order of keys. */
  method Values(c: Code) returns (vals: seq<string>)
    ensures exists order :: ListsValues(vals, order, c)
  {
    var a := new string[|c|];
    var i := 0;
    var rest := c.Keys;
    ghost var order: seq<Byte> := [];
    while rest != {}
      invariant rest <= c.Keys && i + |rest| == |c| == a.Length && |order| == i
      invariant forall j :: 0 <= j < i ==> order[j] in c.Keys - rest && a[j] == c[order[j]]
      invariant forall k :: k in c.Keys - rest ==> k in order
      invariant forall j, l :: 0 <= j < l < i ==> order[j] != order[l]
      decreases rest
    {
      var k :| k in rest;
      a[i] := c[k];
      order := order + [k];
      i := i + 1;
      rest := rest - {k};
    }
    vals := a[..];
    assert ListsValues(vals, order, c);
  }
}
