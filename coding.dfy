/** compress/huffmanCoding.go: counting the symbols of the input, and the
    two exported entry points HuffmanEncode and HuffmanDecode. */
module Coding {
  import opened Common
  import opened Nodes
  import opened Frequencies
  import opened HuffmanTree

  /** How often `k` occurs in `data`. */
  function Count(data: seq<Byte>, k: Byte): nat
  {
    if data == [] then 0
    else Count(data[..|data| - 1], k) + (if data[|data| - 1] == k then 1 else 0)
  }

  lemma {:induction false} CountOccurs(data: seq<Byte>, k: Byte)
    ensures Count(data, k) == 0 <==> k !in data
  {
    if data != [] {
      var init := data[..|data| - 1];
      assert data == init + [data[|data| - 1]];
      CountOccurs(init, k);
    }
  }

  /** One iteration of symbolsFrequency's loop: the count at the first entry
      for `b` goes up by one, or a leaf for `b` with count 1 is appended. */
  function Bump(t: seq<Node>, b: Byte): (r: seq<Node>)
    ensures |t| <= |r| <= |t| + 1
  {
    var i := IndexOf(t, b);
    if i >= 0 then t[i := t[i].(freq := t[i].freq + 1)] else t + [Leaf(b, 1)]
  }

  /** The list symbolsFrequency builds before sorting it. */
  function Tally(data: seq<Byte>): (r: seq<Node>)
    ensures |r| <= |data|
  {
    if data == [] then [] else Bump(Tally(data[..|data| - 1]), data[|data| - 1])
  }

  /** The list symbolsFrequency returns. */
  function SymbolCounts(data: seq<Byte>): seq<Node>
  {
    InsertionSorted(Tally(data))
  }

  /** Counts the entries of a list whose symbol is `k`. */
  function HasSym(k: Byte): Node -> int
  {
    (n: Node) => if n.b == k then 1 else 0
  }

  /** What symbolsFrequency promises about a list for `data`: every entry is
      a leaf holding the count of its symbol, every byte of `data` has
      exactly one entry, and no other byte has one. */
  ghost predicate Tallies(t: seq<Node>, data: seq<Byte>)
  {
    (forall i :: 0 <= i < |t| ==> t[i] == Leaf(t[i].b, Count(data, t[i].b))) &&
    (forall k: Byte :: SumOf(t, HasSym(k)) == if k in data then 1 else 0)
  }

  lemma {:induction false} SumOfUpdate(t: seq<Node>, i: nat, y: Node, f: Node -> int)
    requires i < |t|
    ensures SumOf(t[i := y], f) == SumOf(t, f) - f(t[i]) + f(y)
  {
    assert t == t[..i] + [t[i]] + t[i + 1..];
    assert t[i := y] == t[..i] + [y] + t[i + 1..];
    SumOfAppend(t[..i] + [t[i]], t[i + 1..], f);
    SumOfAppend(t[..i], [t[i]], f);
    SumOfAppend(t[..i] + [y], t[i + 1..], f);
    SumOfAppend(t[..i], [y], f);
  }

  lemma {:induction false} SumOfSame(t: seq<Node>, f: Node -> int, g: Node -> int)
    requires forall i :: 0 <= i < |t| ==> f(t[i]) == g(t[i])
    ensures SumOf(t, f) == SumOf(t, g)
  {
    if t != [] {
      SumOfSame(t[1..], f, g);
    }
  }

  /** The number of entries for `k` is positive exactly when `k` is one of
      the list's symbols. */
  lemma {:induction false} SymCount(t: seq<Node>, k: Byte)
    ensures SumOf(t, HasSym(k)) >= 0
    ensures k in Symbols(t) <==> SumOf(t, HasSym(k)) >= 1
  {
    if t != [] {
      SymCount(t[1..], k);
      assert Symbols(t) == {t[0].b} + Symbols(t[1..]) by {
        forall x | x in Symbols(t) ensures x in {t[0].b} + Symbols(t[1..]) {
          var i :| 0 <= i < |t| && t[i].b == x;
          if i > 0 {
            assert t[1..][i - 1].b == x;
          }
        }
      }
    }
  }

  /** A list with at most one entry per symbol has pairwise distinct symbols. */
  lemma {:induction false} OnceMeansDistinct(t: seq<Node>)
    requires forall k: Byte :: SumOf(t, HasSym(k)) <= 1
    ensures forall i, j :: 0 <= i < j < |t| ==> t[i].b != t[j].b
  {
    if t != [] {
      forall k: Byte ensures SumOf(t[1..], HasSym(k)) <= 1 {
        SymCount(t[1..], k);
      }
      OnceMeansDistinct(t[1..]);
      forall j | 0 < j < |t| ensures t[0].b != t[j].b {
        if t[0].b == t[j].b {
          assert t[1..][j - 1].b == t[0].b;
          SymCount(t[1..], t[0].b);
        }
      }
      forall i, j | 0 < i < j < |t| ensures t[i].b != t[j].b {
        assert t[i] == t[1..][i - 1] && t[j] == t[1..][j - 1];
      }
    }
  }

  /** The loop of symbolsFrequency keeps its promise, and the counts add up
      to the length of the input. */
  lemma {:induction false} TallyFacts(data: seq<Byte>)
    ensures Tallies(Tally(data), data)
    ensures SumOf(Tally(data), FreqOf) == |data|
  {
    if data != [] {
      var init, b := data[..|data| - 1], data[|data| - 1];
      assert data == init + [b];
      var t' := Tally(init);
      TallyFacts(init);
      var t := Tally(data);
      assert t == Bump(t', b);
      var i := IndexOf(t', b);
      SymCount(t', b);
      OnceMeansDistinct(t');
      if i >= 0 {
        assert b in Symbols(t');
        assert b in init;
        var y := t'[i].(freq := t'[i].freq + 1);
        assert y == Leaf(b, Count(data, b));
        assert t == t'[i := y];
        SumOfUpdate(t', i, y, FreqOf);
        forall k: Byte ensures SumOf(t, HasSym(k)) == if k in data then 1 else 0 {
          SumOfUpdate(t', i, y, HasSym(k));
        }
        forall j | 0 <= j < |t| ensures t[j] == Leaf(t[j].b, Count(data, t[j].b)) {
          if j != i {
            assert t[j] == t'[j] && t'[j].b != b;
          }
        }
      } else {
        assert b !in Symbols(t');
        assert b !in init;
        CountOccurs(init, b);
        assert t == t' + [Leaf(b, 1)];
        SumOfAppend(t', [Leaf(b, 1)], FreqOf);
        forall k: Byte ensures SumOf(t, HasSym(k)) == if k in data then 1 else 0 {
          SumOfAppend(t', [Leaf(b, 1)], HasSym(k));
        }
        forall j | 0 <= j < |t| ensures t[j] == Leaf(t[j].b, Count(data, t[j].b)) {
          if j < |t'| {
            assert t[j] == t'[j];
            assert t'[j].b in Symbols(t');
          }
        }
      }
    }
  }

  /** symbolsFrequency's result: sorted by count, one leaf per distinct byte
      of the input holding that byte's count (at least 1), the counts
      adding up to the input's length, and empty only for empty input. */
  lemma SymbolCountsFacts(data: seq<Byte>)
    ensures Sorted(SymbolCounts(data))
    ensures Tallies(SymbolCounts(data), data)
    ensures forall i, j :: 0 <= i < j < |SymbolCounts(data)| ==> SymbolCounts(data)[i].b != SymbolCounts(data)[j].b
    ensures forall k :: k in Symbols(SymbolCounts(data)) <==> k in data
    ensures forall i :: 0 <= i < |SymbolCounts(data)| ==> SymbolCounts(data)[i].freq >= 1
    ensures SumOf(SymbolCounts(data), FreqOf) == |data|
    ensures SymbolCounts(data) == [] <==> data == []
  {
    var f := SymbolCounts(data);
    SymbolCountsTally(data);
    OnceMeansDistinct(f);
    forall k: Byte ensures k in Symbols(f) <==> k in data {
      SymCount(f, k);
    }
    forall i | 0 <= i < |f| ensures f[i].freq >= 1 {
      assert f[i].b in Symbols(f);
      CountOccurs(data, f[i].b);
    }
    if data != [] {
      assert data[0] in Symbols(f);
    }
  }

  /** The sorted list keeps the promise of the counting loop. */
  lemma SymbolCountsTally(data: seq<Byte>)
    ensures Sorted(SymbolCounts(data)) && Tallies(SymbolCounts(data), data)
    ensures SumOf(SymbolCounts(data), FreqOf) == |data|
  {
    var t, f := Tally(data), SymbolCounts(data);
    TallyFacts(data);
    InsertionSortedIsSorted(t);
    InsertionSortedPermutes(t);
    SumOfPermutation(f, t, FreqOf);
    forall k: Byte ensures SumOf(f, HasSym(k)) == if k in data then 1 else 0 {
      SumOfPermutation(f, t, HasSym(k));
    }
    forall i | 0 <= i < |f| ensures f[i] == Leaf(f[i].b, Count(data, f[i].b)) {
      assert f[i] in multiset(t);
    }
  }

  lemma SymbolCountsEmpty(data: seq<Byte>)
    ensures SymbolCounts(data) == [] <==> data == []
  {
    SymbolCountsFacts(data);
  }

  /** symbolsFrequency: counts the bytes of `data` in a list kept in order
      of first appearance, then sorts it. */
  method SymbolsFrequency(data: seq<Byte>) returns (freqs: seq<Node>)
    ensures freqs == SymbolCounts(data)
    ensures Sorted(freqs) && Tallies(freqs, data)
    ensures SumOf(freqs, FreqOf) == |data|
  {
    var t: seq<Node> := [];
    for i := 0 to |data|
      invariant t == Tally(data[..i])
    {
      var ok, indx := Contains(t, data[i]);
      if ok {
        t := t[indx := t[indx].(freq := t[indx].freq + 1)];
      } else {
        t := t + [Leaf(data[i], 1)];
      }
      assert data[..i + 1][..i] == data[..i];
    }
    assert data[..|data|] == data;
    var a := new Node[|t|](k requires 0 <= k < |t| => t[k]);
    assert a[..] == t;
    Sort(a);
    freqs := a[..];
    SymbolCountsFacts(data);
  }

  /** The code table HuffmanEncode returns for `data`: each byte
      of `data` maps to the path `find` takes to its leaf. */
  function CodeTable(data: seq<Byte>): (r: Code)
    ensures forall k :: k in r <==> k in data
  {
    var f := SymbolCounts(data);
    SymbolCountsEmpty(data);
    if f == [] then map[]
    else map k: Byte | k in data :: Find(Root(f), Leaf(k, Count(data, k))).0
  }

  /** The table `encode` returns on symbolsFrequency's list is CodeTable. */
  lemma EncodeBuildsCodeTable(data: seq<Byte>, c: Code)
    requires data != []
    requires c == CodesOf(SymbolCounts(data), Root(SymbolCounts(data)))
    ensures c == CodeTable(data)
  {
    var f := SymbolCounts(data);
    SymbolCountsEmpty(data);
    SymbolCountsSymbols(data);
    var t := CodeTable(data);
    assert c.Keys == t.Keys;
    forall k | k in t ensures c[k] == t[k] {
      CodeOfByte(data, k);
    }
  }

  /** One entry of the table `encode` returns: the code of a byte of the
      source is the path `find` gives for its leaf. */
  lemma CodeOfByte(data: seq<Byte>, k: Byte)
    requires k in data
    ensures k in CodesOf(SymbolCounts(data), Root(SymbolCounts(data)))
    ensures CodesOf(SymbolCounts(data), Root(SymbolCounts(data)))[k] == CodeTable(data)[k]
  {
    var f := SymbolCounts(data);
    var i := EntryOf(data, k);
    CodesOfLast(f, Root(f), i);
  }

  lemma SymbolCountsSymbols(data: seq<Byte>)
    ensures forall k :: k in Symbols(SymbolCounts(data)) <==> k in data
  {
    SymbolCountsFacts(data);
  }

  /** The one entry of symbolsFrequency's list for a byte of the input. */
  lemma EntryOf(data: seq<Byte>, k: Byte) returns (i: nat)
    requires k in data
    ensures i < |SymbolCounts(data)| && SymbolCounts(data)[i] == Leaf(k, Count(data, k))
    ensures forall j :: i < j < |SymbolCounts(data)| ==> SymbolCounts(data)[j].b != k
  {
    var f := SymbolCounts(data);
    SymbolCountsFacts(data);
    assert k in Symbols(f);
    i :| 0 <= i < |f| && f[i].b == k;
  }

  /** The encoded output for `data` under table `c`: the bytes of each
      symbol's code, in input order. */
  function EncodeWith(data: seq<Byte>, c: Code): (r: seq<Byte>)
    ensures AllCoded(data, c) ==> |r| >= |data|
  {
    if data == [] then [] else StringBytes(Lookup(c, data[0])) + EncodeWith(data[1..], c)
  }

  /** Every byte of `data` has a non-empty code in `c`. */
  predicate AllCoded(data: seq<Byte>, c: Code)
  {
    data == [] || (Lookup(c, data[0]) != "" && AllCoded(data[1..], c))
  }

  /** EncodeWithFrom with the code and the rest named; bookkeeping that
      keeps the solver's work small on the worked example. */
  lemma EncodeStep(data: seq<Byte>, i: nat, c: Code, code: seq<Byte>, rest: seq<Byte>, out: seq<Byte>)
    requires i < |data| && StringBytes(Lookup(c, data[i])) == code
    requires EncodeWith(data[i + 1..], c) == rest && out == code + rest
    ensures EncodeWith(data[i..], c) == out
  {
    EncodeWithFrom(data, i, c);
  }

  lemma EncodeWithFrom(data: seq<Byte>, i: nat, c: Code)
    requires i < |data|
    ensures EncodeWith(data[i..], c) == StringBytes(Lookup(c, data[i])) + EncodeWith(data[i + 1..], c)
  {
    assert data[i..][1..] == data[i + 1..];
  }

  /** HuffmanEncode. The Go code panics on empty input (None): `encode`
      then takes the first entry of an empty list. */
  method HuffmanEncode(data: seq<Byte>) returns (r: Option<(seq<Byte>, Code)>)
    ensures r.None? <==> data == []
    ensures r.Some? ==> forall k :: k in r.value.1 <==> k in data
    ensures r.Some? ==> r.value.1 == CodeTable(data)
    ensures r.Some? ==> r.value.0 == EncodeWith(data, r.value.1)
  {
    var freqs := SymbolsFrequency(data);
    SymbolCountsEmpty(data);
    var table := Encode(freqs);
    if table.None? {
      return None;
    }
    var codeTable := table.value;
    var encoded := AppendCodes(data, codeTable);
    EncodeBuildsCodeTable(data, codeTable);
    return Some((encoded, codeTable));
  }

  /** The output loop of HuffmanEncode: appends the code of each byte of
      `data` in turn. */
  method AppendCodes(data: seq<Byte>, codeTable: Code) returns (encoded: seq<Byte>)
    ensures encoded == EncodeWith(data, codeTable)
  {
    encoded := [];
    assert data[0..] == data;
    for i := 0 to |data|
      invariant encoded + EncodeWith(data[i..], codeTable) == EncodeWith(data, codeTable)
    {
      EncodeWithFrom(data, i, codeTable);
      var code := StringBytes(Lookup(codeTable, data[i]));
      Appended(encoded, code, EncodeWith(data[i + 1..], codeTable), EncodeWith(data, codeTable));
      encoded := encoded + code;
    }
    assert data[|data|..] == [];
  }

  /** Bookkeeping step that keeps the solver's work small; it says nothing
      about the model on its own. */
  lemma Appended(done: seq<Byte>, code: seq<Byte>, rest: seq<Byte>, whole: seq<Byte>)
    requires done + (code + rest) == whole
    ensures (done + code) + rest == whole
  {
  }

  /** The path of every nonzero byte's code leads, in the tree `encode`
      builds, to the only node with that symbol: a leaf with its count. */
  lemma CodeReachesLeaf(data: seq<Byte>, k: Byte)
    requires k in data && k != 0
    ensures WellFormed(Root(SymbolCounts(data)))
    ensures Occ(Root(SymbolCounts(data)), k) == 1
    ensures IsBits(CodeTable(data)[k])
    ensures At(Root(SymbolCounts(data)), CodeTable(data)[k]).Some?
    ensures At(Root(SymbolCounts(data)), CodeTable(data)[k]).value.b == k
  {
    var f := SymbolCounts(data);
    SymbolCountsFacts(data);
    var c := Count(data, k);
    assert AllWellFormed(f);
    RootShape(f);
    var root := Root(f);
    SumOfSame(f, OccOf(k), HasSym(k));
    SumOfSame(f, OccWithOf(k, c), HasSym(k));
    var p := OccWithPath(root, k, c);
    FindUnique(root, Leaf(k, c), p);
    FindSound(root, Leaf(k, c));
  }

  /** No code of a nonzero byte is a prefix of the code of another nonzero
      byte. */
  lemma CodesPrefixFree(data: seq<Byte>, k1: Byte, k2: Byte)
    requires k1 in data && k2 in data && k1 != k2 && k1 != 0 && k2 != 0
    ensures !(CodeTable(data)[k1] <= CodeTable(data)[k2])
  {
    var root := Root(SymbolCounts(data));
    var p1, p2 := CodeTable(data)[k1], CodeTable(data)[k2];
    CodeReachesLeaf(data, k1);
    CodeReachesLeaf(data, k2);
    if p1 <= p2 && p1 != p2 {
      LeafPathMaximal(root, p1, p2);
    }
  }

  /** With two or more distinct bytes in the input, every nonzero byte's code
      has at least one bit. */
  lemma CodesNonEmpty(data: seq<Byte>, x: Byte, y: Byte, k: Byte)
    requires x in data && y in data && x != y
    requires k in data && k != 0
    ensures |CodeTable(data)[k]| >= 1
  {
    var f := SymbolCounts(data);
    SymbolCountsFacts(data);
    assert x in Symbols(f) && y in Symbols(f);
    assert |f| >= 2;
    RootMerged(f);
    CodeReachesLeaf(data, k);
  }

  /** The byte 0 always gets the empty code: the root, and every node the
      merge loop creates, carries symbol 0, so `find` stops at once. */
  lemma ZeroGetsEmptyCode(data: seq<Byte>)
    requires 0 in data
    ensures CodeTable(data)[0] == ""
  {
    var f := SymbolCounts(data);
    SymbolCountsFacts(data);
    if |f| >= 2 {
      RootMerged(f);
    } else {
      assert 0 in Symbols(f);
      assert Root(f) == f[0];
    }
  }

  /** An input made of one distinct byte gets the empty code for it: the
      root is that byte's leaf. */
  lemma SingleSymbolEmptyCode(data: seq<Byte>)
    requires data != [] && forall i :: 0 <= i < |data| ==> data[i] == data[0]
    ensures CodeTable(data) == map[data[0] := ""]
  {
    var f := SymbolCounts(data);
    OneEntry(data);
    assert Root(f) == f[0];
    var c := CodeTable(data);
    forall k | k in data ensures k == data[0] {
      var i :| 0 <= i < |data| && data[i] == k;
    }
    assert c.Keys == {data[0]};
    assert c[data[0]] == "";
  }

  /** symbolsFrequency lists a single entry for an input of one distinct
      byte. */
  lemma OneEntry(data: seq<Byte>)
    requires data != [] && forall i :: 0 <= i < |data| ==> data[i] == data[0]
    ensures |SymbolCounts(data)| == 1 && SymbolCounts(data)[0].b == data[0]
  {
    var f := SymbolCounts(data);
    SymbolCountsFacts(data);
    assert data[0] in Symbols(f);
    forall i | 0 <= i < |f| ensures f[i].b == data[0] {
      assert f[i].b in Symbols(f);
    }
    if |f| >= 2 {
      assert false;
    }
  }

  /** HuffmanDecode's loop against a reversed table: each byte is appended to
      the word as a character, an exact match emits its symbol and empties
      the word, and a word left unmatched at the end is dropped. */
  function Greedy(data: seq<Byte>, rev: map<string, Byte>, word: string): (r: seq<Byte>)
    ensures |r| <= |data|
    ensures forall i :: 0 <= i < |r| ==> r[i] in rev.Values
  {
    if data == [] then []
    else
      var w := word + [data[0] as char];
      if w in rev then [rev[w]] + Greedy(data[1..], rev, "")
      else Greedy(data[1..], rev, w)
  }

  /** HuffmanDecode. The reversed table comes from Reverse, whose choice
      among keys sharing a code is not fixed. */
  method HuffmanDecode(data: seq<Byte>, codeTable: Code) returns (decoded: seq<Byte>)
    ensures exists rev :: IsReverse(rev, codeTable) && decoded == Greedy(data, rev, "")
    ensures |decoded| <= |data|
    ensures forall i :: 0 <= i < |decoded| ==> decoded[i] in codeTable
  {
    var reversedTable := Reverse(codeTable);
    decoded := [];
    var word: string := "";
    assert data[0..] == data;
    for i := 0 to |data|
      invariant decoded + Greedy(data[i..], reversedTable, word) == Greedy(data, reversedTable, "")
    {
      assert data[i..][1..] == data[i + 1..];
      word := word + [data[i] as char];
      if word in reversedTable {
        decoded := decoded + [reversedTable[word]];
        word := "";
      }
    }
    assert data[|data|..] == [];
    assert decoded == Greedy(data, reversedTable, "");
    forall i | 0 <= i < |decoded| ensures decoded[i] in codeTable {
      assert decoded[i] in reversedTable.Values;
      var w :| w in reversedTable && reversedTable[w] == decoded[i];
    }
  }

  /** The characters HuffmanDecode appends for a sequence of bytes. */
  function Chars(data: seq<Byte>): string
  {
    if data == [] then [] else [data[0] as char] + Chars(data[1..])
  }

  /** A trailing part of the input that never completes a word in the
      table produces no output. */
  lemma {:induction false} TrailingWordDropped(data: seq<Byte>, rev: map<string, Byte>, word: string)
    requires forall j :: 1 <= j <= |data| ==> word + Chars(data[..j]) !in rev
    ensures Greedy(data, rev, word) == []
  {
    if data != [] {
      var w := word + [data[0] as char];
      assert data[..1] == [data[0]];
      assert w == word + Chars(data[..1]);
      forall j | 1 <= j <= |data[1..]| ensures w + Chars(data[1..][..j]) !in rev {
        assert data[..j + 1] == [data[0]] + data[1..][..j];
        assert Chars(data[..j + 1]) == [data[0] as char] + Chars(data[1..][..j]);
        assert w + Chars(data[1..][..j]) == word + Chars(data[..j + 1]);
      }
      TrailingWordDropped(data[1..], rev, w);
    }
  }

  /** No code is a prefix of (or equal to) another key's code. */
  ghost predicate PrefixFree(c: Code)
  {
    forall k1, k2 :: k1 in c && k2 in c && k1 != k2 ==> !(c[k1] <= c[k2])
  }

  /** The encoded bytes of one code are consumed by the loop as one word. */
  lemma {:induction false} GreedyCode(u: string, rest: seq<Byte>, rev: map<string, Byte>, word: string)
    requires IsBits(u) && |u| >= 1 && word + u in rev
    requires forall j :: 1 <= j < |u| ==> word + u[..j] !in rev
    ensures Greedy(StringBytes(u) + rest, rev, word) == [rev[word + u]] + Greedy(rest, rev, "")
  {
    var d := StringBytes(u) + rest;
    assert StringBytes(u) == [u[0] as int] + StringBytes(u[1..]);
    assert d[0] as char == u[0];
    assert d[1..] == StringBytes(u[1..]) + rest;
    if |u| == 1 {
      assert word + [u[0]] == word + u;
      assert u[1..] == [];
      assert StringBytes(u[1..]) + rest == rest;
    } else {
      var w := word + [u[0]];
      assert w == word + u[..1];
      assert w + u[1..] == word + u;
      forall j | 1 <= j < |u[1..]| ensures w + u[1..][..j] !in rev {
        assert w + u[1..][..j] == word + u[..j + 1];
      }
      GreedyCode(u[1..], rest, rev, w);
    }
  }

  /** Decoding what a prefix-free table with non-empty codes encoded gives
      back the input. */
  lemma {:induction false} DecodeEncoded(data: seq<Byte>, c: Code, rev: map<string, Byte>)
    requires IsReverse(rev, c) && PrefixFree(c)
    requires forall i :: 0 <= i < |data| ==> data[i] in c && IsBits(c[data[i]]) && |c[data[i]]| >= 1
    ensures Greedy(EncodeWith(data, c), rev, "") == data
  {
    if data != [] {
      var rest := EncodeWith(data[1..], c);
      assert EncodeWith(data, c) == StringBytes(c[data[0]]) + rest;
      DecodeCode(c, rev, data[0], rest);
      assert forall i :: 0 <= i < |data[1..]| ==> data[1..][i] == data[i + 1];
      DecodeEncoded(data[1..], c, rev);
      assert data == [data[0]] + data[1..];
    }
  }

  /** The bytes of one code, followed by anything, decode to its key first. */
  lemma DecodeCode(c: Code, rev: map<string, Byte>, x: Byte, rest: seq<Byte>)
    requires IsReverse(rev, c) && PrefixFree(c)
    requires x in c && IsBits(c[x]) && |c[x]| >= 1
    ensures Greedy(StringBytes(c[x]) + rest, rev, "") == [x] + Greedy(rest, rev, "")
  {
    var u := c[x];
    WordOfCode(c, rev, x);
    forall j | 1 <= j < |u| ensures "" + u[..j] !in rev {
      assert "" + u[..j] == u[..j];
      ProperPrefixNotWord(c, rev, x, j);
    }
    assert "" + u == u;
    GreedyCode(u, rest, rev, "");
  }

  /** In a prefix-free table every code is a word of the reversed table,
      naming its own key. */
  lemma WordOfCode(c: Code, rev: map<string, Byte>, x: Byte)
    requires IsReverse(rev, c) && PrefixFree(c) && x in c
    ensures c[x] in rev && rev[c[x]] == x
  {
    assert c[x] in c.Values;
    var k := rev[c[x]];
    assert c[k] <= c[x];
  }

  /** In a prefix-free table, no proper prefix of a code is a word. */
  lemma ProperPrefixNotWord(c: Code, rev: map<string, Byte>, x: Byte, j: nat)
    requires IsReverse(rev, c) && PrefixFree(c) && x in c && j < |c[x]|
    ensures c[x][..j] !in rev
  {
    forall w | w in rev ensures w != c[x][..j] {
      var k := rev[w];
      if k == x {
        assert |w| == |c[x]| > j;
      } else {
        assert !(c[k] <= c[x]);
      }
    }
  }

  /** The round trip: with two or more distinct bytes and no zero byte in the
      input, HuffmanDecode with the table gives back what HuffmanEncode took,
      whichever reversed table Reverse builds. */
  lemma RoundTrip(data: seq<Byte>, rev: map<string, Byte>, x: Byte, y: Byte)
    requires x in data && y in data && x != y
    requires 0 !in data
    requires IsReverse(rev, CodeTable(data))
    ensures Greedy(EncodeWith(data, CodeTable(data)), rev, "") == data
  {
    var c := CodeTable(data);
    forall k1, k2 | k1 in c && k2 in c && k1 != k2 ensures !(c[k1] <= c[k2]) {
      CodesPrefixFree(data, k1, k2);
    }
    forall i | 0 <= i < |data| ensures IsBits(c[data[i]]) && |c[data[i]]| >= 1 {
      CodeReachesLeaf(data, data[i]);
      CodesNonEmpty(data, x, y, data[i]);
    }
    DecodeEncoded(data, c, rev);
  }

  /** The round trip through the two methods. */
  method EncodeThenDecode(data: seq<Byte>, x: Byte, y: Byte) returns (out: seq<Byte>)
    requires x in data && y in data && x != y
    requires 0 !in data
    ensures out == data
  {
    var r := HuffmanEncode(data);
    out := HuffmanDecode(r.value.0, r.value.1);
    ghost var rev :| IsReverse(rev, r.value.1) && out == Greedy(r.value.0, rev, "");
    RoundTrip(data, rev, x, y);
  }

  /** The code table of [0, 1]: 0x00 sits at the root and gets the empty
      code. */
  lemma ZeroOneTable()
    ensures CodeTable([0, 1]) == map[0 := "", 1 := "0"]
  {
    var data: seq<Byte> := [0, 1];
    assert data[..1] == [0] && data[..1][..0] == [];
    assert Tally(data) == [Leaf(0, 1), Leaf(1, 1)];
    assert SymbolCounts(data) == [Leaf(1, 1), Leaf(0, 1)];
    var root := Node(0, 2, Some(Leaf(1, 1)), Some(Leaf(0, 1)));
    assert Step(SymbolCounts(data)) == [root];
    assert Root(SymbolCounts(data)) == root;
    assert Count(data, 0) == 1 && Count(data, 1) == 1;
    assert forall k :: k in data <==> k == 0 || k == 1;
    assert Find(root, Leaf(0, 1)) == ("", true);
    assert Find(Leaf(1, 1), Leaf(1, 1)) == ("", true);
    assert "0" + "" == "0";
    assert Find(root, Leaf(1, 1)) == ("0", true);
    var c := CodeTable(data);
    assert c.Keys == {0, 1};
    assert c[0] == "" && c[1] == "0";
    assert c == map[0 := "", 1 := "0"];
  }

  /** The byte 0 is lost: [0, 1] is encoded as the single character '0',
      which decodes to [1]. */
  lemma ZeroIsLost(rev: map<string, Byte>)
    requires IsReverse(rev, CodeTable([0, 1]))
    ensures CodeTable([0, 1]) == map[0 := "", 1 := "0"]
    ensures EncodeWith([0, 1], CodeTable([0, 1])) == [48]
    ensures Greedy(EncodeWith([0, 1], CodeTable([0, 1])), rev, "") == [1]
  {
    ZeroOneTable();
    ZeroOneRoundTrip(CodeTable([0, 1]), rev);
  }

  /** Encoding and decoding [0, 1] with the table of `ZeroOneTable`; kept
      apart so that the solver does not unfold the table here. */
  lemma ZeroOneRoundTrip(c: Code, rev: map<string, Byte>)
    requires c == map[0 := "", 1 := "0"] && IsReverse(rev, c)
    ensures EncodeWith([0, 1], c) == [48]
    ensures Greedy([48], rev, "") == [1]
  {
    var data: seq<Byte> := [0, 1];
    assert Lookup(c, 0) == "" && Lookup(c, 1) == "0";
    assert StringBytes("") == [] && StringBytes("0") == [48];
    assert data[1..] == [1] && data[1..][1..] == [];
    assert EncodeWith([1], c) == [48];
    assert EncodeWith(data, c) == [48];
    assert "0" in c.Values;
    assert rev["0"] == 1;
    assert "" + [(48 as Byte) as char] == "0";
    assert Greedy([48], rev, "") == [rev["0"]] + Greedy([], rev, "");
  }

  /** The bytes of `data` other than 0x00, in order. */
  function NonZero(data: seq<Byte>): (r: seq<Byte>)
    ensures |r| <= |data|
    ensures 0 in data ==> |r| < |data|
    ensures forall i :: 0 <= i < |r| ==> r[i] != 0 && r[i] in data
  {
    if data == [] then []
    else
      assert 0 in data ==> data[0] == 0 || 0 in data[1..];
      if data[0] == 0 then NonZero(data[1..]) else [data[0]] + NonZero(data[1..])
  }

  /** A byte whose code is empty adds nothing to the encoding. */
  lemma {:induction false} EncodeSkipsZero(data: seq<Byte>, c: Code, d: Code)
    requires Lookup(c, 0) == ""
    requires forall k :: k != 0 ==> Lookup(c, k) == Lookup(d, k)
    ensures EncodeWith(data, c) == EncodeWith(NonZero(data), d)
  {
    if data != [] {
      EncodeSkipsZero(data[1..], c, d);
      if data[0] != 0 {
        var n := NonZero(data);
        assert n[0] == data[0] && n[1..] == NonZero(data[1..]);
      }
    }
  }

  /** The decoding loop appends a byte before every lookup, so it never
      looks up the empty word. */
  lemma {:induction false} GreedyNeverEmpty(data: seq<Byte>, rev: map<string, Byte>, word: string)
    ensures Greedy(data, rev, word) == Greedy(data, rev - {""}, word)
  {
    if data != [] {
      var w := word + [data[0] as char];
      assert |w| >= 1;
      GreedyNeverEmpty(data[1..], rev, "");
      GreedyNeverEmpty(data[1..], rev, w);
    }
  }

  /** The reversed table without the empty word is the reversed table of
      the codes without 0x00, the one symbol whose code is empty. */
  lemma ReverseWithoutZero(data: seq<Byte>, rev: map<string, Byte>)
    requires 0 in data && IsReverse(rev, CodeTable(data))
    ensures IsReverse(rev - {""}, CodeTable(data) - {0})
  {
    var c := CodeTable(data);
    var d, rd := c - {0}, rev - {""};
    ZeroGetsEmptyCode(data);
    forall k | k in d ensures |d[k]| >= 1 {
      CodesNonEmpty(data, 0, k, k);
    }
    forall w | w in rd ensures rd[w] in d && d[rd[w]] == w {
      assert rev[w] != 0;
    }
    forall w | w in d.Values ensures w in rd {
      var k :| k in d && d[k] == w;
      assert w in c.Values;
    }
  }

  /** With 0x00 in the input, decoding the encoding gives back the input
      with every 0x00 removed, whichever reversed table Reverse builds: the
      round trip fails for every such input. */
  lemma ZeroBytesDropped(data: seq<Byte>, rev: map<string, Byte>)
    requires 0 in data
    requires IsReverse(rev, CodeTable(data))
    ensures Greedy(EncodeWith(data, CodeTable(data)), rev, "") == NonZero(data)
    ensures Greedy(EncodeWith(data, CodeTable(data)), rev, "") != data
  {
    var c := CodeTable(data);
    ZeroGetsEmptyCode(data);
    NonZeroCodes(data);
    ReverseWithoutZero(data, rev);
    DecodeWithoutZero(data, c, rev);
  }

  /** Decoding the encoding under a table whose only empty code is that of
      0x00, and whose other codes are prefix-free bit strings, gives back the
      bytes other than 0x00. */
  lemma DecodeWithoutZero(data: seq<Byte>, c: Code, rev: map<string, Byte>)
    requires Lookup(c, 0) == ""
    requires IsReverse(rev - {""}, c - {0}) && PrefixFree(c - {0})
    requires forall k :: k in c - {0} ==> IsBits((c - {0})[k]) && |(c - {0})[k]| >= 1
    requires forall i :: 0 <= i < |data| ==> data[i] in c
    ensures Greedy(EncodeWith(data, c), rev, "") == NonZero(data)
  {
    var d := c - {0};
    EncodeSkipsZero(data, c, d);
    DecodeEncoded(NonZero(data), d, rev - {""});
    GreedyNeverEmpty(EncodeWith(data, c), rev, "");
  }

  /** The codes of the bytes other than 0x00 are non-empty, prefix-free
      strings of '0' and '1' when 0x00 is in the input. */
  lemma NonZeroCodes(data: seq<Byte>)
    requires 0 in data
    ensures PrefixFree(CodeTable(data) - {0})
    ensures forall k :: k in CodeTable(data) - {0} ==>
      IsBits((CodeTable(data) - {0})[k]) && |(CodeTable(data) - {0})[k]| >= 1
  {
    var d := CodeTable(data) - {0};
    forall k | k in d ensures IsBits(d[k]) && |d[k]| >= 1 {
      CodeReachesLeaf(data, k);
      CodesNonEmpty(data, 0, k, k);
    }
    forall k1, k2 | k1 in d && k2 in d && k1 != k2 ensures !(d[k1] <= d[k2]) {
      CodesPrefixFree(data, k1, k2);
    }
  }

  /** The byte 0x00 gets a shorter code than every other byte of an input,
      whatever the counts. */
  lemma ZeroCodeShortest(data: seq<Byte>, k: Byte)
    requires 0 in data && k in data && k != 0
    ensures |CodeTable(data)[0]| < |CodeTable(data)[k]|
  {
    ZeroGetsEmptyCode(data);
    CodesNonEmpty(data, 0, k, k);
  }

  /** On [1, 1, 0], 0x00 occurs less often than 0x01 and still gets the
      shorter code: a lower count does not always mean a code at least as
      long. */
  lemma ZeroBreaksCodeLengthOrder()
    ensures Count([1, 1, 0], 0) < Count([1, 1, 0], 1)
    ensures |CodeTable([1, 1, 0])[0]| < |CodeTable([1, 1, 0])[1]|
  {
    var data: seq<Byte> := [1, 1, 0];
    var a := data[..2];
    var b := a[..1];
    assert a == [1, 1] && b == [1] && b[..0] == [];
    assert Count(b, 0) == 0 && Count(b, 1) == 1;
    assert Count(a, 0) == 0 && Count(a, 1) == 2;
    assert Count(data, 0) == 1 && Count(data, 1) == 2;
    assert data[2] == 0 && data[0] == 1;
    ZeroCodeShortest(data, 1);
  }

  /** An input of one distinct byte encodes to nothing, so decoding gives
      back nothing. */
  lemma SingleSymbolIsLost(data: seq<Byte>, rev: map<string, Byte>)
    requires data != [] && forall i :: 0 <= i < |data| ==> data[i] == data[0]
    ensures EncodeWith(data, CodeTable(data)) == []
    ensures Greedy(EncodeWith(data, CodeTable(data)), rev, "") == []
  {
    SingleSymbolEmptyCode(data);
    EncodesToNothing(data, CodeTable(data));
  }

  lemma {:induction false} EncodesToNothing(data: seq<Byte>, c: Code)
    requires forall i :: 0 <= i < |data| ==> Lookup(c, data[i]) == ""
    ensures EncodeWith(data, c) == []
  {
    if data != [] {
      EncodesToNothing(data[1..], c);
    }
  }

  /** The input of HuffmanEncode's documented example, "AAAABBBCCD". */
  const Example: seq<Byte> := [65, 65, 65, 65, 66, 66, 66, 67, 67, 68]

  /** symbolsFrequency on the example: D 1, C 2, B 3, A 4. */
  lemma ExampleCounts()
    ensures Tally(Example) == [Leaf(65, 4), Leaf(66, 3), Leaf(67, 2), Leaf(68, 1)]
    ensures Count(Example, 65) == 4 && Count(Example, 66) == 3 && Count(Example, 67) == 2 && Count(Example, 68) == 1
  {
    var data := Example;
    var a, b, c, d := Leaf(65, 4), Leaf(66, 3), Leaf(67, 2), Leaf(68, 1);
    ExampleTallyAB();
    assert data[..8][..7] == data[..7] && data[..9][..8] == data[..8];
    assert data[..9] == data[..|data| - 1];
    assert Tally(data[..8]) == [a, b, Leaf(67, 1)];
    assert [a, b, Leaf(67, 1)][1..] == [b, Leaf(67, 1)] && [b, Leaf(67, 1)][1..] == [Leaf(67, 1)];
    assert IndexOf([Leaf(67, 1)], 67) == 0;
    assert IndexOf([b, Leaf(67, 1)], 67) == 1;
    assert IndexOf([a, b, Leaf(67, 1)], 67) == 2;
    assert Tally(data[..9]) == [a, b, c];
    assert Tally(data) == [a, b, c, d];
    TallyFacts(data);
    assert Tally(data)[0] == a && Tally(data)[1] == b && Tally(data)[2] == c && Tally(data)[3] == d;
  }

  /** The example's list after its A and B bytes. */
  lemma ExampleTallyAB()
    ensures Tally(Example[..7]) == [Leaf(65, 4), Leaf(66, 3)]
  {
    var data := Example;
    var a := Leaf(65, 4);
    ExampleTallyA();
    assert data[..5][..4] == data[..4] && data[..6][..5] == data[..5] && data[..7][..6] == data[..6];
    assert Tally(data[..5]) == [a, Leaf(66, 1)];
    assert [a, Leaf(66, 1)][1..] == [Leaf(66, 1)] && [a, Leaf(66, 2)][1..] == [Leaf(66, 2)];
    assert IndexOf([a, Leaf(66, 1)], 66) == 1;
    assert Tally(data[..6]) == [a, Leaf(66, 2)];
    assert IndexOf([a, Leaf(66, 2)], 66) == 1;
  }

  /** The example's list after its A bytes. */
  lemma ExampleTallyA()
    ensures Tally(Example[..4]) == [Leaf(65, 4)]
  {
    var data := Example;
    assert data[..1] == [65] && data[..1][..0] == [];
    assert data[..2][..1] == data[..1] && data[..3][..2] == data[..2];
    assert data[..4][..3] == data[..3];
    assert Tally(data[..1]) == [Leaf(65, 1)];
    assert Tally(data[..2]) == [Leaf(65, 2)];
    assert Tally(data[..3]) == [Leaf(65, 3)];
  }

  /** The sorted list for the example. */
  lemma ExampleSorted()
    ensures SymbolCounts(Example) == [Leaf(68, 1), Leaf(67, 2), Leaf(66, 3), Leaf(65, 4)]
  {
    var a, b, c, d := Leaf(65, 4), Leaf(66, 3), Leaf(67, 2), Leaf(68, 1);
    ExampleCounts();
    assert [a, b, c, d][..3] == [a, b, c] && [a, b, c][..2] == [a, b] && [a, b][..1] == [a] && [a][..0] == [];
    assert InsertionSorted([a]) == [a];
    assert InsertionSorted([a, b]) == [b, a];
    assert InsertionSorted([a, b, c]) == [c, b, a];
  }

  /** The tree `encode` builds for the example. */
  lemma ExampleTree()
    ensures Root(SymbolCounts(Example)) ==
      Node(0, 10, Some(Node(0, 6, Some(Leaf(66, 3)), Some(Node(0, 3, Some(Leaf(67, 2)), Some(Leaf(68, 1)))))), Some(Leaf(65, 4)))
  {
    var a, b, c, d := Leaf(65, 4), Leaf(66, 3), Leaf(67, 2), Leaf(68, 1);
    var n3 := Node(0, 3, Some(c), Some(d));
    var n6 := Node(0, 6, Some(b), Some(n3));
    var root := Node(0, 10, Some(n6), Some(a));
    ExampleSorted();
    ExampleFirstMerge();
    ExampleSecondMerge();
    ExampleLastMerge();
    assert Forest([d, c, b, a]) == Forest([n3, b, a]) == Forest([a, n6]) == Forest([root]);
  }

  /** The example's first merge: D and C become a node of count 3. */
  lemma ExampleFirstMerge()
    ensures Step([Leaf(68, 1), Leaf(67, 2), Leaf(66, 3), Leaf(65, 4)])
      == [Node(0, 3, Some(Leaf(67, 2)), Some(Leaf(68, 1))), Leaf(66, 3), Leaf(65, 4)]
  {
    var a, b, c, d := Leaf(65, 4), Leaf(66, 3), Leaf(67, 2), Leaf(68, 1);
    var n3 := Node(0, 3, Some(c), Some(d));
    assert Merge(d, c) == n3;
    assert [d, c, b, a][2..] + [n3] == [b, a, n3];
    assert [b, a, n3][..2] == [b, a] && [b, a][..1] == [b] && [b][..0] == [];
    assert InsertionSorted([b]) == [b];
    assert Insert([b], a) == [b, a];
    assert InsertionSorted([b, a]) == [b, a];
    assert Insert([b, a], n3) == [n3, b, a];
  }

  /** The second merge: the count-3 node and B become a node of count 6. */
  lemma ExampleSecondMerge()
    ensures Step([Node(0, 3, Some(Leaf(67, 2)), Some(Leaf(68, 1))), Leaf(66, 3), Leaf(65, 4)])
      == [Leaf(65, 4), Node(0, 6, Some(Leaf(66, 3)), Some(Node(0, 3, Some(Leaf(67, 2)), Some(Leaf(68, 1)))))]
  {
    var a, b := Leaf(65, 4), Leaf(66, 3);
    var n3 := Node(0, 3, Some(Leaf(67, 2)), Some(Leaf(68, 1)));
    var n6 := Node(0, 6, Some(b), Some(n3));
    assert Merge(n3, b) == n6;
    assert [n3, b, a][2..] + [n6] == [a, n6];
    assert [a, n6][..1] == [a] && [a][..0] == [];
    assert InsertionSorted([a]) == [a];
    assert Insert([a], n6) == [a, n6];
  }

  /** The last merge: A and the count-6 node become the root. */
  lemma ExampleLastMerge()
    ensures Step([Leaf(65, 4), Node(0, 6, Some(Leaf(66, 3)), Some(Node(0, 3, Some(Leaf(67, 2)), Some(Leaf(68, 1)))))])
      == [Node(0, 10, Some(Node(0, 6, Some(Leaf(66, 3)), Some(Node(0, 3, Some(Leaf(67, 2)), Some(Leaf(68, 1)))))), Some(Leaf(65, 4)))]
  {
    var a := Leaf(65, 4);
    var n6 := Node(0, 6, Some(Leaf(66, 3)), Some(Node(0, 3, Some(Leaf(67, 2)), Some(Leaf(68, 1)))));
    var root := Node(0, 10, Some(n6), Some(a));
    assert Merge(a, n6) == root;
    assert [a, n6][2..] + [root] == [root];
    assert [root][..0] == [];
  }

  /** What `find` returns on the example's tree. */
  lemma ExampleFinds(root: Node)
    requires root ==
      Node(0, 10, Some(Node(0, 6, Some(Leaf(66, 3)), Some(Node(0, 3, Some(Leaf(67, 2)), Some(Leaf(68, 1)))))), Some(Leaf(65, 4)))
    ensures Find(root, Leaf(65, 4)) == ("1", true)
    ensures Find(root, Leaf(66, 3)) == ("00", true)
    ensures Find(root, Leaf(67, 2)) == ("010", true)
    ensures Find(root, Leaf(68, 1)) == ("011", true)
  {
    var a, b, c, d := Leaf(65, 4), Leaf(66, 3), Leaf(67, 2), Leaf(68, 1);
    var n6 := root.left.value;
    var n3 := n6.right.value;
    assert "1" + "" == "1" && "0" + "" == "0" && "0" + "0" == "00";
    assert "1" + "0" == "10" && "0" + "10" == "010" && "1" + "1" == "11" && "0" + "11" == "011";
    assert Find(n3, a) == ("", false) && Find(b, a) == ("", false);
    assert Find(n6, a) == ("", false);
    assert Find(n6, b) == ("0", true);
    assert Find(b, c) == ("", false);
    assert Find(n3, c) == ("0", true);
    assert Find(n6, c) == ("10", true);
    assert Find(b, d) == ("", false) && Find(c, d) == ("", false);
    assert Find(n3, d) == ("1", true);
    assert Find(n6, d) == ("11", true);
  }

  /** The code table of HuffmanEncode's documented example. */
  lemma ExampleTable()
    ensures CodeTable(Example) == map[65 := "1", 66 := "00", 67 := "010", 68 := "011"]
  {
    ExampleCounts();
    ExampleTree();
    ExampleSorted();
    ExampleFinds(Root(SymbolCounts(Example)));
    assert forall k :: k in Example <==> k in {65, 66, 67, 68};
  }

  /** The example of HuffmanEncode's documentation: "AAAABBBCCD" gets the
      codes A "1", B "00", C "010", D "011" and is encoded as
      1111000000010010011. */
  lemma DocumentedExample()
    ensures CodeTable(Example) == map[65 := "1", 66 := "00", 67 := "010", 68 := "011"]
    ensures EncodeWith(Example, CodeTable(Example))
      == [49, 49, 49, 49, 48, 48, 48, 48, 48, 48, 48, 49, 48, 48, 49, 48, 48, 49, 49]
  {
    ExampleTable();
    ExampleEncoded(CodeTable(Example));
  }

  /** The example's bytes under its code table. */
  lemma ExampleEncoded(table: Code)
    requires table == map[65 := "1", 66 := "00", 67 := "010", 68 := "011"]
    ensures EncodeWith(Example, table)
      == [49, 49, 49, 49, 48, 48, 48, 48, 48, 48, 48, 49, 48, 48, 49, 48, 48, 49, 49]
  {
    ExampleCodeBytes();
    assert Lookup(table, 65) == "1" && Lookup(table, 66) == "00";
    assert Lookup(table, 67) == "010" && Lookup(table, 68) == "011";
    ExampleBits(table);
    ExampleBitsJoined();
  }

  lemma ExampleCodeBytes()
    ensures StringBytes("1") == [49] && StringBytes("00") == [48, 48]
    ensures StringBytes("010") == [48, 49, 48] && StringBytes("011") == [48, 49, 49]
  {
    assert "00"[1..] == "0" && "010"[1..] == "10" && "011"[1..] == "11";
    assert "10"[1..] == "0" && "11"[1..] == "1" && "1"[1..] == "" && "0"[1..] == "";
  }

  /** The encoded bits of the example's "CCD". */
  lemma ExampleBitsTail(table: Code)
    requires StringBytes(Lookup(table, 67)) == [48, 49, 48] && StringBytes(Lookup(table, 68)) == [48, 49, 49]
    ensures EncodeWith(Example[7..], table) == [48, 49, 48, 48, 49, 48, 48, 49, 49]
  {
    var e := Example;
    var c, d: seq<Byte> := [48, 49, 48], [48, 49, 49];
    assert e[10..] == [];
    EncodeStep(e, 9, table, d, [], d);
    EncodeStep(e, 8, table, c, d, c + d);
    EncodeStep(e, 7, table, c, c + d, c + (c + d));
  }

  /** The encoded bits of the example's "BBBCCD". */
  lemma ExampleBitsMiddle(table: Code)
    requires StringBytes(Lookup(table, 66)) == [48, 48]
    ensures EncodeWith(Example[4..], table) == [48, 48, 48, 48, 48, 48] + EncodeWith(Example[7..], table)
  {
    var e := Example;
    var b: seq<Byte> := [48, 48];
    var rest := EncodeWith(e[7..], table);
    assert e[4] == 66 && e[5] == 66 && e[6] == 66;
    EncodeStep(e, 6, table, b, rest, b + rest);
    EncodeStep(e, 5, table, b, b + rest, b + (b + rest));
    EncodeStep(e, 4, table, b, b + (b + rest), b + (b + (b + rest)));
    assert b + (b + (b + rest)) == [48, 48, 48, 48, 48, 48] + rest;
  }

  /** The encoded bits of the whole example, in three parts. */
  lemma ExampleBits(table: Code)
    requires StringBytes(Lookup(table, 65)) == [49] && StringBytes(Lookup(table, 66)) == [48, 48]
    requires StringBytes(Lookup(table, 67)) == [48, 49, 48] && StringBytes(Lookup(table, 68)) == [48, 49, 49]
    ensures EncodeWith(Example, table) == [49, 49, 49, 49] + ([48, 48, 48, 48, 48, 48] + [48, 49, 48, 48, 49, 48, 48, 49, 49])
  {
    ExampleBitsHead(table);
    ExampleBitsMiddle(table);
    ExampleBitsTail(table);
  }

  /** The encoded bits of the example's "AAAA". */
  lemma ExampleBitsHead(table: Code)
    requires StringBytes(Lookup(table, 65)) == [49]
    ensures EncodeWith(Example, table) == [49, 49, 49, 49] + EncodeWith(Example[4..], table)
  {
    var e := Example;
    var a: seq<Byte> := [49];
    var rest := EncodeWith(e[4..], table);
    EncodeStep(e, 3, table, a, rest, a + rest);
    EncodeStep(e, 2, table, a, a + rest, a + (a + rest));
    Appended(a, a, rest, a + (a + rest));
    EncodeStep(e, 1, table, a, (a + a) + rest, a + ((a + a) + rest));
    Appended(a, a + a, rest, a + ((a + a) + rest));
    EncodeStep(e, 0, table, a, (a + (a + a)) + rest, a + ((a + (a + a)) + rest));
    Appended(a, a + (a + a), rest, a + ((a + (a + a)) + rest));
    assert a + (a + (a + a)) == [49, 49, 49, 49];
    assert e[0..] == e;
  }

  // Bookkeeping step that keeps the solver's work small; it says nothing
  // about the model on its own.
  lemma ExampleBitsJoined()
    ensures [49, 49, 49, 49] + ([48, 48, 48, 48, 48, 48] + [48, 49, 48, 48, 49, 48, 48, 49, 49])
      == [49, 49, 49, 49, 48, 48, 48, 48, 48, 48, 48, 49, 48, 48, 49, 48, 48, 49, 49]
  {
  }
}
