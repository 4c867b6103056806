/** compress/frequencies.go: the frequency list and its operations. */
module Frequencies {
  import opened Common
  import opened Nodes

  predicate Sorted(s: seq<Node>)
  {
    forall i, j :: 0 <= i < j < |s| ==> s[i].freq <= s[j].freq
  }

  /** One step of insertion: `x` goes before the first entry whose count is
      not smaller than its own. */
  function Insert(s: seq<Node>, x: Node): (r: seq<Node>)
    ensures |r| == |s| + 1
  {
    if s == [] || s[0].freq >= x.freq then [x] + s
    else [s[0]] + Insert(s[1..], x)
  }

  /** What the insertion sort computes: each entry in turn inserted into the
      sorted prefix before it. */
  function InsertionSorted(s: seq<Node>): (r: seq<Node>)
    ensures |r| == |s|
  {
    if s == [] then []
    else Insert(InsertionSorted(s[..|s| - 1]), s[|s| - 1])
  }

  lemma {:induction false} InsertPermutes(s: seq<Node>, x: Node)
    ensures multiset(Insert(s, x)) == multiset(s) + multiset{x}
  {
    if s != [] && s[0].freq < x.freq {
      InsertPermutes(s[1..], x);
      assert s == [s[0]] + s[1..];
    }
  }

  /** The sort is a permutation: the same entries, as many times each. */
  lemma {:induction false} InsertionSortedPermutes(s: seq<Node>)
    ensures multiset(InsertionSorted(s)) == multiset(s)
  {
    if s != [] {
      InsertionSortedPermutes(s[..|s| - 1]);
      InsertPermutes(InsertionSorted(s[..|s| - 1]), s[|s| - 1]);
      assert s == s[..|s| - 1] + [s[|s| - 1]];
    }
  }

  lemma {:induction false} InsertKeepsSorted(s: seq<Node>, x: Node)
    requires Sorted(s)
    ensures Sorted(Insert(s, x))
  {
    if s != [] && s[0].freq < x.freq {
      InsertKeepsSorted(s[1..], x);
      var r := Insert(s[1..], x);
      InsertAbove(s[1..], x, s[0].freq);
      assert Insert(s, x) == [s[0]] + r;
    }
  }

  /** Inserting keeps a lower bound on the counts that holds for `s` and `x`. */
  lemma {:induction false} InsertAbove(s: seq<Node>, x: Node, m: int)
    requires m <= x.freq && forall k :: 0 <= k < |s| ==> m <= s[k].freq
    ensures forall k :: 0 <= k < |Insert(s, x)| ==> m <= Insert(s, x)[k].freq
  {
    if s != [] && s[0].freq < x.freq {
      InsertAbove(s[1..], x, m);
      assert Insert(s, x) == [s[0]] + Insert(s[1..], x);
    }
  }

  /** The sort leaves the list non-decreasing by count. */
  lemma {:induction false} InsertionSortedIsSorted(s: seq<Node>)
    ensures Sorted(InsertionSorted(s))
  {
    if s != [] {
      InsertionSortedIsSorted(s[..|s| - 1]);
      InsertKeepsSorted(InsertionSorted(s[..|s| - 1]), s[|s| - 1]);
    }
  }

  /** The entries with count `f`, in list order. */
  function WithFreq(s: seq<Node>, f: int): seq<Node>
  {
    if s == [] then []
    else (if s[0].freq == f then [s[0]] else []) + WithFreq(s[1..], f)
  }

  function Reversed(s: seq<Node>): seq<Node>
  {
    if s == [] then [] else Reversed(s[1..]) + [s[0]]
  }

  lemma {:induction false} WithFreqAppend(a: seq<Node>, b: seq<Node>, f: int)
    ensures WithFreq(a + b, f) == WithFreq(a, f) + WithFreq(b, f)
  {
    if a == [] {
      assert a + b == b;
    } else {
      var h := if a[0].freq == f then [a[0]] else [];
      var ab := a + b;
      assert ab[0] == a[0] && ab[1..] == a[1..] + b;
      assert WithFreq(ab, f) == h + WithFreq(a[1..] + b, f);
      WithFreqAppend(a[1..], b, f);
      assert WithFreq(a, f) == h + WithFreq(a[1..], f);
    }
  }

  lemma {:induction false} ReversedAppend(a: seq<Node>, x: Node)
    ensures Reversed(a + [x]) == [x] + Reversed(a)
  {
    if a != [] {
      assert (a + [x])[1..] == a[1..] + [x];
      ReversedAppend(a[1..], x);
    }
  }

  lemma {:induction false} InsertTies(s: seq<Node>, x: Node, f: int)
    requires Sorted(s)
    ensures WithFreq(Insert(s, x), f) == (if x.freq == f then [x] else []) + WithFreq(s, f)
  {
    var tie := if x.freq == f then [x] else [];
    if s != [] && s[0].freq < x.freq {
      var r := Insert(s[1..], x);
      var h := if s[0].freq == f then [s[0]] else [];
      assert Sorted(s[1..]);
      InsertTies(s[1..], x, f);
      assert WithFreq(r, f) == tie + WithFreq(s[1..], f);
      assert ([s[0]] + r)[1..] == r;
      assert WithFreq(Insert(s, x), f) == h + WithFreq(r, f);
      assert WithFreq(s, f) == h + WithFreq(s[1..], f);
      assert h == [] || tie == [];
    } else {
      assert ([x] + s)[1..] == s;
    }
  }

  /** Entries with equal counts come out in the reverse of their input
      order, because an entry is shifted past every entry whose count is
      greater than or equal to its own. */
  lemma {:induction false} TiesReversed(s: seq<Node>, f: int)
    ensures WithFreq(InsertionSorted(s), f) == Reversed(WithFreq(s, f))
  {
    if s != [] {
      var init, last := s[..|s| - 1], s[|s| - 1];
      var tie := if last.freq == f then [last] else [];
      calc {
        WithFreq(InsertionSorted(s), f);
        WithFreq(Insert(InsertionSorted(init), last), f);
        { InsertionSortedIsSorted(init); InsertTies(InsertionSorted(init), last, f); }
        tie + WithFreq(InsertionSorted(init), f);
        { TiesReversed(init, f); }
        tie + Reversed(WithFreq(init, f));
        { if last.freq == f { ReversedAppend(WithFreq(init, f), last); } else { assert WithFreq(init, f) + tie == WithFreq(init, f); } }
        Reversed(WithFreq(init, f) + tie);
        { assert WithFreq([last], f) == tie; WithFreqAppend(init, [last], f); assert s == init + [last]; }
        Reversed(WithFreq(s, f));
      }
    }
  }

  /** Insertion puts `x` after the entries with a smaller count and before
      the rest; in a sorted list that is where the leftward shifting of the
      sort stops. */
  lemma {:induction false} InsertAt(s: seq<Node>, x: Node, pos: nat)
    requires pos <= |s|
    requires forall k :: 0 <= k < pos ==> s[k].freq < x.freq
    requires forall k :: pos <= k < |s| ==> s[k].freq >= x.freq
    ensures Insert(s, x) == s[..pos] + [x] + s[pos..]
  {
    if pos > 0 {
      var t := s[1..];
      assert s[0].freq < x.freq;
      assert forall k :: 0 <= k < pos - 1 ==> t[k].freq < x.freq;
      assert forall k :: pos - 1 <= k < |t| ==> t[k].freq >= x.freq;
      InsertAt(t, x, pos - 1);
      assert s[..pos] == [s[0]] + t[..pos - 1];
      assert s[pos..] == t[pos - 1..];
    } else {
      assert s == [] || s[0].freq >= x.freq;
      assert s[..0] + [x] + s[0..] == [x] + s;
    }
  }

  /** One pass of the outer loop of sort extends the sorted prefix by the
      next input entry. */
  lemma SortStep(input: seq<Node>, i: nat, pos: nat, sorted: seq<Node>, after: seq<Node>)
    requires i < |input| && pos <= i && sorted == InsertionSorted(input[..i])
    requires pos == 0 || sorted[pos - 1].freq < input[i].freq
    requires forall k :: pos <= k < i ==> sorted[k].freq >= input[i].freq
    requires after == sorted[..pos] + [input[i]] + sorted[pos..]
    ensures after == InsertionSorted(input[..i + 1])
  {
    var prefix := input[..i + 1];
    assert prefix[..i] == input[..i] && prefix[i] == input[i];
    calc {
      InsertionSorted(prefix);
      Insert(InsertionSorted(input[..i]), input[i]);
      { InsertionSortedIsSorted(input[..i]);
        assert forall k :: 0 <= k < pos ==> sorted[k].freq <= sorted[pos - 1].freq;
        InsertAt(sorted, input[i], pos); }
      after;
    }
  }

  /** The inner loop of sort: shifts the entries before index `i` whose
      count is greater than or equal to that of `a[i]` one place right and
      drops `a[i]` into the gap. */
  method ShiftIn(a: array<Node>, i: nat) returns (pos: nat)
    requires i < a.Length
    modifies a
    ensures pos <= i
    ensures a[..i + 1] == old(a[..i])[..pos] + [old(a[i])] + old(a[..i])[pos..]
    ensures pos == 0 || old(a[..i])[pos - 1].freq < old(a[i]).freq
    ensures forall k :: pos <= k < i ==> old(a[..i])[k].freq >= old(a[i]).freq
    ensures a[i + 1..] == old(a[i + 1..])
  {
    ghost var before := a[..];
    var cursor := a[i];
    pos := OpenGap(a, i);
    a[pos] := cursor;
    Shifted(before, a[..], i, pos);
  }

  /** The shifting loop inside the inner loop of sort: moves each entry before index
      `i` whose count is at least that of `a[i]` one place right, leaving a
      gap at `pos`. */
  method OpenGap(a: array<Node>, i: nat) returns (pos: nat)
    requires i < a.Length
    modifies a
    ensures pos <= i
    ensures forall k :: 0 <= k < pos ==> a[k] == old(a[k])
    ensures forall k :: pos < k <= i ==> a[k] == old(a[k - 1])
    ensures forall k :: i < k < a.Length ==> a[k] == old(a[k])
    ensures pos == 0 || old(a[pos - 1]).freq < old(a[i]).freq
    ensures forall k :: pos <= k < i ==> old(a[k]).freq >= old(a[i]).freq
  {
    var cursor := a[i];
    pos := i;
    while pos > 0 && a[pos - 1].freq >= cursor.freq
      invariant 0 <= pos <= i
      invariant forall k :: 0 <= k < pos ==> a[k] == old(a[k])
      invariant forall k :: pos < k <= i ==> a[k] == old(a[k - 1])
      invariant forall k :: pos <= k < i ==> old(a[k]).freq >= cursor.freq
      invariant forall k :: i < k < a.Length ==> a[k] == old(a[k])
    {
      a[pos] := a[pos - 1];
      pos := pos - 1;
    }
  }

  /** The layout the inner loop of sort leaves behind, on the contents of
      the array before and after it. */
  lemma Shifted(before: seq<Node>, after: seq<Node>, i: nat, pos: nat)
    requires pos <= i < |before| == |after|
    requires forall k :: 0 <= k < pos ==> after[k] == before[k]
    requires after[pos] == before[i]
    requires forall k :: pos < k <= i ==> after[k] == before[k - 1]
    requires forall k :: i < k < |after| ==> after[k] == before[k]
    requires pos == 0 || before[pos - 1].freq < before[i].freq
    requires forall k :: pos <= k < i ==> before[k].freq >= before[i].freq
    ensures after[..i + 1] == before[..i][..pos] + [before[i]] + before[..i][pos..]
    ensures after[i + 1..] == before[i + 1..]
    ensures pos == 0 || before[..i][pos - 1].freq < before[i].freq
    ensures forall k :: pos <= k < i ==> before[..i][k].freq >= before[i].freq
  {
    var sorted := before[..i];
    var target := sorted[..pos] + [before[i]] + sorted[pos..];
    forall k | 0 <= k <= i ensures after[k] == target[k] {
      if k < pos {
        assert target[k] == sorted[k];
      } else if k > pos {
        assert target[k] == sorted[k - 1];
      }
    }
  }

  /** sort: insertion sort of the list in place. */
  method Sort(a: array<Node>)
    modifies a
    ensures a[..] == InsertionSorted(old(a[..]))
    ensures Sorted(a[..]) && multiset(a[..]) == multiset(old(a[..]))
  {
    ghost var input := a[..];
    for i := 0 to a.Length
      invariant a[..i] == InsertionSorted(input[..i])
      invariant a[i..] == input[i..]
    {
      ghost var sorted := a[..i];
      assert a[i] == input[i];
      var pos := ShiftIn(a, i);
      SortStep(input, i, pos, sorted, a[..i + 1]);
      assert a[i + 1..] == input[i + 1..];
    }
    assert a[..] == InsertionSorted(input) by {
      assert a[..] == a[..a.Length];
      assert input[..a.Length] == input;
    }
    InsertionSortedIsSorted(input);
    InsertionSortedPermutes(input);
  }

  /** The first index of the list holding symbol `b`, or -1. */
  function IndexOf(t: seq<Node>, b: Byte): (r: int)
    ensures -1 <= r < |t|
    ensures r >= 0 ==> t[r].b == b && forall j :: 0 <= j < r ==> t[j].b != b
    ensures r == -1 ==> forall j :: 0 <= j < |t| ==> t[j].b != b
  {
    if t == [] then -1
    else if t[0].b == b then 0
    else
      var i := IndexOf(t[1..], b);
      if i == -1 then -1 else i + 1
  }

  /** contains: the first index holding symbol `b`, or (false, -1). */
  method Contains(freqs: seq<Node>, b: Byte) returns (found: bool, idx: int)
    ensures found ==> 0 <= idx < |freqs| && freqs[idx].b == b
    ensures found ==> forall j :: 0 <= j < idx ==> freqs[j].b != b
    ensures !found ==> idx == -1 && forall j :: 0 <= j < |freqs| ==> freqs[j].b != b
    ensures idx == IndexOf(freqs, b)
  {
    for i := 0 to |freqs|
      invariant forall j :: 0 <= j < i ==> freqs[j].b != b
    {
      if freqs[i].b == b {
        return true, i;
      }
    }
    return false, -1;
  }

  /** The symbols of a list. */
  function Symbols(freqs: seq<Node>): set<Byte>
  {
    set i | 0 <= i < |freqs| :: freqs[i].b
  }

  /** The table getCodes builds: entries are written in list order, each
      holding the string `find` returns for that entry (its success flag is
      dropped, so a symbol `find` misses still gets ""), and a later entry
      with the same symbol overwrites an earlier one. */
  function CodesOf(freqs: seq<Node>, root: Node): (r: Code)
    ensures r.Keys == Symbols(freqs)
  {
    if freqs == [] then map[]
    else
      var last := freqs[|freqs| - 1];
      SymbolsSnoc(freqs);
      CodesOf(freqs[..|freqs| - 1], root)[last.b := Find(root, last).0]
  }

  /** getCodes' table has one key per symbol of the list, and a symbol's
      code is the one `find` returns for its last entry. */
  lemma {:induction false} CodesOfFacts(freqs: seq<Node>, root: Node)
    ensures CodesOf(freqs, root).Keys == Symbols(freqs)
    ensures forall i :: 0 <= i < |freqs| && (forall j :: i < j < |freqs| ==> freqs[j].b != freqs[i].b) ==>
      CodesOf(freqs, root)[freqs[i].b] == Find(root, freqs[i]).0
  {
    forall i | 0 <= i < |freqs| && (forall j :: i < j < |freqs| ==> freqs[j].b != freqs[i].b)
      ensures CodesOf(freqs, root)[freqs[i].b] == Find(root, freqs[i]).0
    {
      CodesOfLast(freqs, root, i);
    }
  }

  lemma {:induction false} CodesOfLast(freqs: seq<Node>, root: Node, i: nat)
    requires i < |freqs| && forall j :: i < j < |freqs| ==> freqs[j].b != freqs[i].b
    ensures freqs[i].b in CodesOf(freqs, root) && CodesOf(freqs, root)[freqs[i].b] == Find(root, freqs[i]).0
  {
    var n := |freqs| - 1;
    if i < n {
      var init := freqs[..n];
      assert init[i] == freqs[i];
      assert forall j :: i < j < |init| ==> init[j].b != init[i].b;
      CodesOfLast(init, root, i);
    }
  }

  lemma SymbolsSnoc(freqs: seq<Node>)
    requires freqs != []
    ensures Symbols(freqs) == Symbols(freqs[..|freqs| - 1]) + {freqs[|freqs| - 1].b}
  {
    var init := freqs[..|freqs| - 1];
    forall k | k in Symbols(freqs) ensures k in Symbols(init) + {freqs[|freqs| - 1].b} {
      var i :| 0 <= i < |freqs| && freqs[i].b == k;
      if i < |freqs| - 1 {
        assert init[i].b == k;
      }
    }
  }

  /** getCodes (compress/frequencies.go). */
  method GetCodes(freqs: seq<Node>, root: Node) returns (c: Code)
    ensures c == CodesOf(freqs, root)
  {
    c := map[];
    for i := 0 to |freqs|
      invariant c == CodesOf(freqs[..i], root)
    {
      assert freqs[..i + 1][..i] == freqs[..i];
      c := c[freqs[i].b := Find(root, freqs[i]).0];
    }
    assert freqs[..|freqs|] == freqs;
  }
}
