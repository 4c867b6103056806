/** file/files.go: the .hff file format. A file holds one (symbol, code
    length) byte pair per symbol of the code table, the pair (0, 0), the
    bits of every code in the same symbol order ('1' as a one bit, anything
    else as a zero bit), then one bit per byte of the encoded payload. */
module Files {
  import opened Common
  import opened Nodes
  import opened Coding
  import opened BitIO

  /** The pair that ends the header. */
  const Sentinel: seq<Byte> := [0, 0]

  /** Go's conversion `byte(n)`: the low eight bits. */
  function ByteOf(n: nat): Byte
  {
    n % 256
  }

  /** The byte written for the code of `k`: its length in bytes, cut to one
      byte. */
  function SizeByte(table: Code, k: Byte): Byte
  {
    ByteOf(|StringBytes(Lookup(table, k))|)
  }

  /** The header bytes writeCodes emits for the symbols in `order`,
      sentinel pair included. */
  function HeaderBytes(order: seq<Byte>, table: Code): (r: seq<Byte>)
    ensures |r| == 2 * |order| + 2
  {
    if order == [] then Sentinel
    else [order[0], SizeByte(table, order[0])] + HeaderBytes(order[1..], table)
  }

  /** The bits one code string is written as. */
  function StringBits(s: string): seq<bool>
  {
    seq(|s|, i requires 0 <= i < |s| => s[i] == '1')
  }

  /** The code bits writeCodes emits for the symbols in `order`. */
  function CodeBits(order: seq<Byte>, table: Code): seq<bool>
  {
    if order == [] then []
    else CodeBits(order[..|order| - 1], table) + StringBits(Lookup(table, order[|order| - 1]))
  }

  /** The payload bits: one per encoded byte, set when the byte is '1'. */
  function PayloadBits(encoded: seq<Byte>): seq<bool>
  {
    seq(|encoded|, i requires 0 <= i < |encoded| => encoded[i] == '1' as int)
  }

  lemma {:induction false} BytesBitsAppend(a: seq<Byte>, b: seq<Byte>)
    ensures BytesBits(a + b) == BytesBits(a) + BytesBits(b)
  {
    if a == [] {
      assert a + b == b;
    } else {
      assert (a + b)[0] == a[0];
      assert (a + b)[1..] == a[1..] + b;
      BytesBitsAppend(a[1..], b);
    }
  }

  /** The bits of the pairs alone, sentinel left out. */
  function PairBits(keys: seq<Byte>, table: Code): seq<bool>
  {
    if keys == [] then [] else BytesBits([keys[0], SizeByte(table, keys[0])]) + PairBits(keys[1..], table)
  }

  lemma {:induction false} PairBitsSnoc(keys: seq<Byte>, k: Byte, table: Code)
    ensures PairBits(keys + [k], table) == PairBits(keys, table) + BytesBits([k, SizeByte(table, k)])
  {
    if keys == [] {
      assert keys + [k] == [k];
      assert PairBits([k], table) == BytesBits([k, SizeByte(table, k)]) + PairBits([], table);
    } else {
      assert (keys + [k])[1..] == keys[1..] + [k];
      PairBitsSnoc(keys[1..], k, table);
    }
  }

  /** One more pair written extends the pairs written so far. */
  lemma PairStep(keys: seq<Byte>, i: nat, table: Code, start: seq<bool>, before: seq<bool>, after: seq<bool>)
    requires i < |keys|
    requires before == start + PairBits(keys[..i], table)
    requires after == before + BytesBits([keys[i], SizeByte(table, keys[i])])
    ensures after == start + PairBits(keys[..i + 1], table)
  {
    assert keys[..i + 1] == keys[..i] + [keys[i]];
    PairBitsSnoc(keys[..i], keys[i], table);
    Regroup(start, PairBits(keys[..i], table), BytesBits([keys[i], SizeByte(table, keys[i])]), PairBits(keys[..i + 1], table));
  }

  /** The header is the pairs followed by the sentinel. */
  lemma {:induction false} HeaderPairBits(keys: seq<Byte>, table: Code)
    ensures BytesBits(HeaderBytes(keys, table)) == PairBits(keys, table) + BytesBits(Sentinel)
  {
    if keys != [] {
      var pair := [keys[0], SizeByte(table, keys[0])];
      assert HeaderBytes(keys, table) == pair + HeaderBytes(keys[1..], table);
      BytesBitsAppend(pair, HeaderBytes(keys[1..], table));
      HeaderPairBits(keys[1..], table);
    }
  }

  lemma HeaderPairs(keys: seq<Byte>, table: Code, start: seq<bool>, pairs: seq<bool>, done: seq<bool>)
    requires pairs == start + PairBits(keys, table)
    requires done == pairs + BytesBits(Sentinel)
    ensures done == start + BytesBits(HeaderBytes(keys, table))
  {
    HeaderPairBits(keys, table);
    Regroup(start, PairBits(keys, table), BytesBits(Sentinel), BytesBits(HeaderBytes(keys, table)));
  }

  // Bookkeeping step that keeps the solver's work small; it says nothing
  // about the model on its own.
  lemma Regroup(a: seq<bool>, b: seq<bool>, c: seq<bool>, d: seq<bool>)
    requires d == b + c
    ensures (a + b) + c == a + d
  {
  }

  /** writeCodes: the pairs in the order Keys lists the symbols, the
      sentinel, then the code bits in the same order. Returns TryError. */
  method WriteCodes(w: Writer, table: Code) returns (err: bool, ghost order: seq<Byte>)
    requires w.Valid()
    modifies w
    ensures w.Valid()
    ensures |order| == |table|
    ensures forall i, j :: 0 <= i < j < |order| ==> order[i] != order[j]
    ensures forall k :: k in table <==> k in order
    ensures w.requested == old(w.requested) + BytesBits(HeaderBytes(order, table)) + CodeBits(order, table)
    ensures err == w.failed
  {
    var keys := Keys(table);
    order := keys;
    WritePairs(w, table, keys);
    WriteCodeBits(w, table, keys);
    err := w.failed;
  }

  /** The second loop of writeCodes: the codes of `keys`, one after the
      other. */
  method WriteCodeBits(w: Writer, table: Code, keys: seq<Byte>)
    requires w.Valid()
    requires forall k :: k in keys ==> k in table
    modifies w
    ensures w.Valid()
    ensures w.requested == old(w.requested) + CodeBits(keys, table)
  {
    ghost var start := w.requested;
    for i := 0 to |keys|
      invariant w.Valid()
      invariant w.requested == start + CodeBits(keys[..i], table)
    {
      WriteCode(w, table[keys[i]]);
      assert keys[..i + 1][..i] == keys[..i];
    }
    assert keys[..|keys|] == keys;
  }

  /** The first two statements of writeCodes: one pair per symbol of
      `keys`, then the sentinel. */
  method WritePairs(w: Writer, table: Code, keys: seq<Byte>)
    requires w.Valid()
    requires forall k :: k in keys ==> k in table
    modifies w
    ensures w.Valid()
    ensures w.requested == old(w.requested) + BytesBits(HeaderBytes(keys, table))
  {
    ghost var start := w.requested;
    for i := 0 to |keys|
      invariant w.Valid()
      invariant w.requested == start + PairBits(keys[..i], table)
    {
      var size := |StringBytes(table[keys[i]])|;
      assert ByteOf(size) == SizeByte(table, keys[i]);
      ghost var before := w.requested;
      w.TryWrite([keys[i], ByteOf(size)]);
      PairStep(keys, i, table, start, before, w.requested);
    }
    assert keys[..|keys|] == keys;
    ghost var pairs := w.requested;
    w.TryWrite(Sentinel);
    HeaderPairs(keys, table, start, pairs, w.requested);
  }

  /** The inner loop of writeCodes: one bit per character of a code. */
  method WriteCode(w: Writer, code: string)
    requires w.Valid()
    modifies w
    ensures w.Valid()
    ensures w.requested == old(w.requested) + StringBits(code)
  {
    for j := 0 to |code|
      invariant w.Valid()
      invariant w.requested == old(w.requested) + StringBits(code[..j])
    {
      w.TryWriteBool(code[j] == '1');
      assert StringBits(code[..j + 1]) == StringBits(code[..j]) + [code[j] == '1'];
    }
    assert code[..|code|] == code;
  }

  /** The payload loop of Encode: one bit per encoded byte, stopping at the
      first write error. `n` is how many bits were asked for. */
  method WritePayload(w: Writer, encoded: seq<Byte>) returns (ghost n: nat)
    requires w.Valid()
    modifies w
    ensures w.Valid()
    ensures n <= |encoded| && w.requested == old(w.requested) + PayloadBits(encoded[..n])
    ensures n == |encoded| || w.failed
    ensures n > 0 ==> |old(w.requested)| + n - 1 <= w.limit
    ensures var s := old(w.requested) + PayloadBits(encoded);
      w.bits == s[..Min(|s|, w.limit)] && w.failed == (|s| > w.limit)
  {
    var i := 0;
    while i < |encoded| && !w.failed
      invariant w.Valid() && i <= |encoded|
      invariant w.requested == old(w.requested) + PayloadBits(encoded[..i])
      invariant i > 0 ==> |old(w.requested)| + i - 1 <= w.limit
    {
      w.TryWriteBool(encoded[i] == '1' as int);
      assert PayloadBits(encoded[..i + 1]) == PayloadBits(encoded[..i]) + [encoded[i] == '1' as int];
      i := i + 1;
    }
    n := i;
    ghost var s := old(w.requested) + PayloadBits(encoded);
    if n < |encoded| {
      assert s[..|w.requested|] == w.requested;
    } else {
      assert encoded[..n] == encoded;
    }
  }

  /** Encode: Huffman-encodes `source`, writes the code table and the
      payload, and returns TryError. None is the panic of HuffmanEncode on
      an empty source; `createErr` is the error of creating the destination,
      which is returned before anything is written. */
  method EncodeFile(source: seq<Byte>, createErr: bool, w: Writer) returns (r: Option<bool>, ghost order: seq<Byte>)
    requires w.Valid()
    modifies w
    ensures w.Valid()
    ensures r.None? <==> source == []
    ensures r.Some? && createErr ==> r.value && w.requested == old(w.requested)
    ensures r.Some? && !createErr ==>
      var table := CodeTable(source);
      (forall k :: k in table <==> k in order) &&
      (forall i, j :: 0 <= i < j < |order| ==> order[i] != order[j]) &&
      var s := old(w.requested) + FileBits(order, table, EncodeWith(source, table));
      w.bits == s[..Min(|s|, w.limit)] && r.value == w.failed == (|s| > w.limit)
  {
    order := [];
    var encoded := HuffmanEncode(source);
    if encoded.None? {
      return None, order;
    }
    if createErr {
      return Some(true), order;
    }
    var err;
    err, order := WriteFile(w, encoded.value.1, encoded.value.0);
    r := Some(err);
  }

  /** The part of Encode after the destination is open: writeCodes, then
      the payload loop, then TryError. */
  method WriteFile(w: Writer, table: Code, encoded: seq<Byte>) returns (err: bool, ghost order: seq<Byte>)
    requires w.Valid()
    modifies w
    ensures w.Valid()
    ensures forall k :: k in table <==> k in order
    ensures forall i, j :: 0 <= i < j < |order| ==> order[i] != order[j]
    ensures var s := old(w.requested) + FileBits(order, table, encoded);
      w.bits == s[..Min(|s|, w.limit)] && err == w.failed == (|s| > w.limit)
  {
    var _, written := WriteCodes(w, table);
    order := written;
    ghost var header := w.requested;
    FileBitsSplit(old(w.requested), header, order, table, encoded);
    ghost var n := WritePayload(w, encoded);
    err := w.failed;
  }

  /** The whole stream Encode asks for: header, codes, payload. */
  function FileBits(order: seq<Byte>, table: Code, encoded: seq<Byte>): seq<bool>
  {
    BytesBits(HeaderBytes(order, table)) + CodeBits(order, table) + PayloadBits(encoded)
  }

  // Bookkeeping step that keeps the solver's work small; it says nothing
  // about the model on its own.
  lemma FileBitsSplit(before: seq<bool>, header: seq<bool>, order: seq<Byte>, table: Code, encoded: seq<Byte>)
    requires header == before + BytesBits(HeaderBytes(order, table)) + CodeBits(order, table)
    ensures header + PayloadBits(encoded) == before + FileBits(order, table, encoded)
  {
  }

  /** What reading (symbol, size) pairs from bit `pos` yields: the pairs
      before the first pair whose symbol is 0, where reading stops, and
      whether it ran out of input first. */
  datatype Pairs = Pairs(keys: seq<Byte>, sizes: seq<int>, next: nat, failed: bool)

  function ReadPairs(bits: seq<bool>, pos: nat): (h: Pairs)
    requires pos <= |bits|
    ensures |h.keys| == |h.sizes| && pos <= h.next <= |bits|
    ensures h.failed ==> h.next == |bits|
    ensures forall i :: 0 <= i < |h.keys| ==> h.keys[i] != 0
    decreases |bits| - pos
  {
    if pos + 16 > |bits| then Pairs([], [], |bits|, true)
    else if ByteAt(bits, pos) == 0 then Pairs([], [], pos + 16, false)
    else
      var h := ReadPairs(bits, pos + 16);
      Pairs([ByteAt(bits, pos)] + h.keys, [ByteAt(bits, pos + 8) as int] + h.sizes, h.next, h.failed)
  }

  /** The pairs collected from `start` up to `last`, followed by what
      reading from `last` yields, make up what reading from `start` yields. */
  ghost predicate Collected(bits: seq<bool>, start: nat, last: nat, gotKeys: seq<Byte>, gotSizes: seq<int>)
    requires start <= |bits| && last <= |bits|
  {
    var h := ReadPairs(bits, last);
    ReadPairs(bits, start) == Pairs(gotKeys + h.keys, gotSizes + h.sizes, h.next, h.failed)
  }

  /** The reader state after the pair read at bit `last`. */
  ghost predicate PairRead(bits: seq<bool>, last: nat, pos: nat, failed: bool, k: Byte, size: Byte)
  {
    if last + 16 <= |bits| then pos == last + 16 && !failed && k == ByteAt(bits, last) && size == ByteAt(bits, last + 8)
    else pos == |bits| && failed
  }

  /** One more pair collected by the loop of readSymSizes. */
  lemma CollectStep(bits: seq<bool>, start: nat, last: nat, gotKeys: seq<Byte>, gotSizes: seq<int>)
    requires start <= |bits| && last + 16 <= |bits| && ByteAt(bits, last) != 0
    requires Collected(bits, start, last, gotKeys, gotSizes)
    ensures Collected(bits, start, last + 16, gotKeys + [ByteAt(bits, last)], gotSizes + [ByteAt(bits, last + 8) as int])
  {
    var h := ReadPairs(bits, last + 16);
    assert gotKeys + ([ByteAt(bits, last)] + h.keys) == gotKeys + [ByteAt(bits, last)] + h.keys;
    assert gotSizes + ([ByteAt(bits, last + 8) as int] + h.sizes) == gotSizes + [ByteAt(bits, last + 8) as int] + h.sizes;
  }

  /** The loop of readSymSizes stops exactly where reading the pairs does. */
  lemma CollectDone(bits: seq<bool>, start: nat, last: nat, gotKeys: seq<Byte>, gotSizes: seq<int>, pos: nat, failed: bool, k: Byte, size: Byte)
    requires start <= |bits| && last <= |bits| && Collected(bits, start, last, gotKeys, gotSizes)
    requires PairRead(bits, last, pos, failed, k, size) && (failed || k == 0)
    ensures pos == ReadPairs(bits, start).next && failed == ReadPairs(bits, start).failed
  {
  }

  /** readSymSizes: reads pairs until a pair whose symbol is 0 or an error.
      The pairs it collects are dropped: it always returns empty keys and
      sizes, with TryError. */
  method ReadSymSizes(r: Reader) returns (keys: seq<Byte>, sizes: seq<int>, err: bool)
    requires r.Valid()
    modifies r
    ensures r.Valid()
    ensures keys == [] && sizes == []
    ensures r.pos == ReadPairs(r.bits, old(r.pos)).next
    ensures err == r.failed == ReadPairs(r.bits, old(r.pos)).failed
  {
    var ks := new Byte[2];
    ks[0], ks[1] := '0' as int, '0' as int;
    ghost var start := r.pos;
    ghost var last := r.pos;
    ReadPair(r, ks);
    var gotKeys: seq<Byte>, gotSizes: seq<int> := [], [];
    while !r.failed && ks[0] != 0
      invariant r.Valid() && start <= last <= |r.bits|
      invariant PairRead(r.bits, last, r.pos, r.failed, ks[0], ks[1])
      invariant Collected(r.bits, start, last, gotKeys, gotSizes)
      decreases |r.bits| - last
    {
      CollectStep(r.bits, start, last, gotKeys, gotSizes);
      gotKeys := gotKeys + [ks[0]];
      gotSizes := gotSizes + [ks[1] as int];
      last := r.pos;
      ReadPair(r, ks);
    }
    CollectDone(r.bits, start, last, gotKeys, gotSizes, r.pos, r.failed, ks[0], ks[1]);
    keys, sizes, err := [], [], r.failed;
  }

  /** One call of TryRead on the two-byte buffer of readSymSizes. */
  method ReadPair(r: Reader, ks: array<Byte>)
    requires r.Valid() && ks.Length == 2
    modifies r, ks
    ensures r.Valid()
    ensures PairRead(r.bits, old(r.pos), r.pos, r.failed, ks[0], ks[1])
  {
    r.TryRead(ks);
  }

  /** How many bits reading codes of the given sizes consumes: a negative
      size reads nothing. */
  function Width(sizes: seq<int>): nat
  {
    if sizes == [] then 0
    else Width(sizes[..|sizes| - 1]) + (if sizes[|sizes| - 1] < 0 then 0 else sizes[|sizes| - 1])
  }

  /** The character readCode appends for the bit at position `p`: a bit
      past the end reads as false. */
  function BitChar(bits: seq<bool>, p: nat): char
  {
    if p < |bits| && bits[p] then '1' else '0'
  }

  /** The code string readCode builds from `n` bits starting at `p`. */
  function BitChars(bits: seq<bool>, p: nat, n: int): (s: string)
    ensures IsBits(s) && |s| == if n < 0 then 0 else n
  {
    var s := seq(if n < 0 then 0 else n, i requires 0 <= i => BitChar(bits, p + i));
    assert forall i :: 0 <= i < |s| ==> s[i] == BitChar(bits, p + i);
    s
  }

  /** Past the end of the input every bit reads as false. */
  lemma BitCharsPastEnd(bits: seq<bool>, p: nat, q: nat, n: int)
    requires |bits| <= p && |bits| <= q
    ensures BitChars(bits, p, n) == BitChars(bits, q, n)
  {
    var a, b := BitChars(bits, p, n), BitChars(bits, q, n);
    forall i | 0 <= i < |a|
      ensures a[i] == b[i]
    {
      assert a[i] == BitChar(bits, p + i) == '0';
      assert b[i] == BitChar(bits, q + i) == '0';
    }
  }

  /** The table readCode builds when reading from bit `p`: each symbol of
      `keys`, in order, maps to the string of its size's bits; a repeated
      symbol keeps its last string. */
  function ReadTable(keys: seq<Byte>, sizes: seq<int>, bits: seq<bool>, p: nat): (r: Code)
    requires |keys| <= |sizes|
    ensures forall k :: k in r ==> IsBits(r[k])
  {
    if keys == [] then map[]
    else
      var n := |keys| - 1;
      ReadTable(keys[..n], sizes, bits, p)[keys[n] := BitChars(bits, p + Width(sizes[..n]), sizes[n])]
  }

  /** What readCode's table holds: exactly the symbols of `keys`, each
      mapped to a string of '0' and '1' whose length is the size given with
      its last occurrence (nothing for a negative size). */
  lemma {:induction false} ReadTableFacts(keys: seq<Byte>, sizes: seq<int>, bits: seq<bool>, p: nat)
    requires |keys| <= |sizes|
    ensures var t := ReadTable(keys, sizes, bits, p);
      (forall k :: k in t <==> k in keys) && (forall k :: k in t ==> IsBits(t[k])) &&
      forall idx :: 0 <= idx < |keys| && (forall j :: idx < j < |keys| ==> keys[j] != keys[idx]) ==>
        |t[keys[idx]]| == if sizes[idx] < 0 then 0 else sizes[idx]
  {
    if keys != [] {
      var n := |keys| - 1;
      var init := keys[..n];
      ReadTableFacts(init, sizes, bits, p);
      ReadTableLast(keys, sizes, bits, p);
      assert keys == init + [keys[n]];
      forall k
        ensures k in keys <==> k in init || k == keys[n]
      {
        if k in keys {
          var i :| 0 <= i < |keys| && keys[i] == k;
          if i < n {
            assert init[i] == k;
          }
        }
      }
      forall idx | 0 <= idx < n && (forall j :: idx < j < |keys| ==> keys[j] != keys[idx])
        ensures forall j :: idx < j < |init| ==> init[j] != init[idx]
      {
      }
    }
  }

  lemma ReadTableLast(keys: seq<Byte>, sizes: seq<int>, bits: seq<bool>, p: nat)
    requires 0 < |keys| <= |sizes|
    ensures var n := |keys| - 1;
      ReadTable(keys, sizes, bits, p) == ReadTable(keys[..n], sizes, bits, p)[keys[n] := BitChars(bits, p + Width(sizes[..n]), sizes[n])]
  {
  }

  /** ReadTableLast with the last symbol and its string named. */
  lemma ReadTableSnoc(keys: seq<Byte>, sizes: seq<int>, bits: seq<bool>, p: nat, init: seq<Byte>, k: Byte, code: string)
    requires |keys| <= |sizes| && keys == init + [k]
    requires code == BitChars(bits, p + Width(sizes[..|init|]), sizes[|init|])
    ensures ReadTable(keys, sizes, bits, p) == ReadTable(init, sizes, bits, p)[k := code]
  {
    assert keys[..|init|] == init;
    ReadTableLast(keys, sizes, bits, p);
  }

  /** readCode: for each symbol reads as many bits as its size says and
      maps the symbol to them as a string of '0' and '1'. Returns TryError. */
  method ReadCode(keys: seq<Byte>, sizes: seq<int>, r: Reader) returns (table: Code, err: bool)
    requires r.Valid() && |keys| <= |sizes|
    modifies r
    ensures r.Valid()
    ensures table == ReadTable(keys, sizes, r.bits, old(r.pos))
    ensures r.pos == Min(old(r.pos) + Width(sizes[..|keys|]), |r.bits|)
    ensures err == r.failed == (old(r.failed) || old(r.pos) + Width(sizes[..|keys|]) > |r.bits|)
  {
    table := map[];
    ghost var start := r.pos;
    for idx := 0 to |keys|
      invariant r.Valid()
      invariant table == ReadTable(keys[..idx], sizes, r.bits, start)
      invariant r.pos == Min(start + Width(sizes[..idx]), |r.bits|)
      invariant r.failed == (old(r.failed) || start + Width(sizes[..idx]) > |r.bits|)
    {
      ghost var from, at := start + Width(sizes[..idx]), r.pos;
      var val := ReadBits(r, sizes[idx]);
      if from > at {
        BitCharsPastEnd(r.bits, from, at, sizes[idx]);
      }
      table := table[keys[idx] := val];
      assert keys[..idx + 1][..idx] == keys[..idx];
      assert sizes[..idx + 1][..idx] == sizes[..idx];
    }
    assert keys[..|keys|] == keys;
    err := r.failed;
  }

  /** The inner loop of readCode: `n` bits as a string of '0' and '1'. */
  method ReadBits(r: Reader, n: int) returns (val: string)
    requires r.Valid()
    modifies r
    ensures r.Valid()
    ensures val == BitChars(r.bits, old(r.pos), n)
    ensures r.pos == Min(old(r.pos) + |val|, |r.bits|)
    ensures r.failed == (old(r.failed) || old(r.pos) + |val| > |r.bits|)
  {
    val := "";
    var i := 0;
    while i < n
      invariant 0 <= i && (n >= 0 ==> i <= n) && (n < 0 ==> i == 0)
      invariant r.Valid()
      invariant val == BitChars(r.bits, old(r.pos), i)
      invariant r.pos == Min(old(r.pos) + i, |r.bits|)
      invariant r.failed == (old(r.failed) || old(r.pos) + i > |r.bits|)
    {
      var b := r.TryReadBool();
      if b {
        val := val + "1";
      } else {
        val := val + "0";
      }
      assert BitChars(r.bits, old(r.pos), i + 1) == BitChars(r.bits, old(r.pos), i) + [BitChar(r.bits, old(r.pos) + i)];
      i := i + 1;
    }
  }

  /** The bytes readData produces for a run of bits: '1' or '0' each. */
  function BitBytes(bits: seq<bool>): (r: seq<Byte>)
  {
    seq(|bits|, i requires 0 <= i < |bits| => if bits[i] then '1' as int else '0' as int)
  }

  /** readData: reads bits until TryError is set. The read that fails still
      appends a '0', and the result always carries the error. */
  method ReadData(r: Reader) returns (data: seq<Byte>, err: bool)
    requires r.Valid()
    modifies r
    ensures r.Valid() && r.pos == |r.bits| && r.failed
    ensures err
    ensures data == if old(r.failed) then [] else BitBytes(r.bits[old(r.pos)..]) + ['0' as int]
  {
    data := [];
    ghost var start := r.pos;
    while !r.failed
      invariant r.Valid() && start <= r.pos
      invariant !r.failed ==> data == BitBytes(r.bits[start..r.pos])
      invariant r.failed ==> data == if old(r.failed) then [] else BitBytes(r.bits[start..]) + ['0' as int]
      decreases |r.bits| - r.pos + (if r.failed then 0 else 1)
    {
      ghost var before := r.pos;
      var b := r.TryReadBool();
      if b {
        data := data + ['1' as int];
      } else {
        data := data + ['0' as int];
      }
      if before < |r.bits| {
        assert r.bits[start..r.pos] == r.bits[start..before] + [r.bits[before]];
      } else {
        assert r.bits[start..] == r.bits[start..before];
      }
    }
    err := r.failed;
  }

  /** Decode: reads the pairs, the codes and the payload, and decodes the
      payload with the table. `openErr` is the error of opening the file.
      readData always reports an error, so Decode always fails and never
      reaches the decoding step. */
  method Decode(openErr: bool, r: Reader) returns (decoded: seq<Byte>, err: bool)
    requires r.Valid()
    modifies r
    ensures err && decoded == []
  {
    if openErr {
      return [], true;
    }
    var keys, sizes, e := ReadSymSizes(r);
    if e {
      return [], e;
    }
    var table;
    table, e := ReadCode(keys, sizes, r);
    if e {
      return [], e;
    }
    var data;
    data, e := ReadData(r);
    assert e;
    return [], e;
  }

  /** The size bytes writeCodes emits for the symbols in `order`, as ints. */
  function SizesOf(order: seq<Byte>, table: Code): (r: seq<int>)
    ensures |r| == |order|
  {
    seq(|order|, i requires 0 <= i < |order| => SizeByte(table, order[i]) as int)
  }

  /** The index of the first symbol 0 in `order`, or its length. */
  function FirstZero(order: seq<Byte>): (z: nat)
    ensures z <= |order| && (z < |order| ==> order[z] == 0)
    ensures forall i :: 0 <= i < z ==> order[i] != 0
  {
    if order == [] then 0 else if order[0] == 0 then 0 else 1 + FirstZero(order[1..])
  }

  lemma ByteAtPrefix(pre: seq<bool>, x: Byte, post: seq<bool>)
    ensures ByteAt(pre + ByteBits(x) + post, |pre|) == x
  {
    assert (pre + ByteBits(x) + post)[|pre|..|pre| + 8] == ByteBits(x);
    ByteRoundTrip(x);
  }

  /** Where the two bytes of a pair sit in a stream. */
  lemma PairLayout(pre: seq<bool>, k: Byte, size: Byte, more: seq<Byte>, rest: seq<bool>)
    ensures var bits := pre + BytesBits([k, size] + more) + rest;
      |bits| >= |pre| + 16 && ByteAt(bits, |pre|) == k && ByteAt(bits, |pre| + 8) == size &&
      bits == (pre + BytesBits([k, size])) + BytesBits(more) + rest
  {
    BytesBitsAppend([k, size], more);
    PairBytesBits(k, size);
    var bits := pre + BytesBits([k, size] + more) + rest;
    var kb, sb, tail := ByteBits(k), ByteBits(size), BytesBits(more) + rest;
    assert bits == pre + kb + (sb + tail);
    ByteAtPrefix(pre, k, sb + tail);
    assert bits == (pre + kb) + sb + tail;
    ByteAtPrefix(pre + kb, size, tail);
  }

  lemma PairBytesBits(k: Byte, size: Byte)
    ensures BytesBits([k, size]) == ByteBits(k) + ByteBits(size)
  {
    assert [k, size][1..] == [size];
    assert BytesBits([size]) == ByteBits(size) + BytesBits([]);
  }

  /** Reading pairs back from a header writeCodes wrote gives the symbols
      and sizes in the order they were written, up to the first symbol 0,
      and stops right after that pair or after the sentinel. */
  lemma {:induction false} HeaderRoundTrip(order: seq<Byte>, table: Code, pre: seq<bool>, rest: seq<bool>)
    ensures var z := FirstZero(order);
      ReadPairs(pre + BytesBits(HeaderBytes(order, table)) + rest, |pre|)
        == Pairs(order[..z], SizesOf(order[..z], table), |pre| + 16 * (z + 1), false)
    decreases |order|
  {
    if order == [] {
      PairLayout(pre, 0, 0, [], rest);
      assert [0, 0] + [] == HeaderBytes(order, table);
    } else if order[0] == 0 {
      PairLayout(pre, 0, SizeByte(table, 0), HeaderBytes(order[1..], table), rest);
    } else {
      HeaderStep(order, table, pre, rest);
    }
  }

  lemma {:induction false} HeaderStep(order: seq<Byte>, table: Code, pre: seq<bool>, rest: seq<bool>)
    requires order != [] && order[0] != 0
    ensures var z := FirstZero(order);
      ReadPairs(pre + BytesBits(HeaderBytes(order, table)) + rest, |pre|)
        == Pairs(order[..z], SizesOf(order[..z], table), |pre| + 16 * (z + 1), false)
    decreases |order|, 0
  {
    var k, size, tail := order[0], SizeByte(table, order[0]), order[1..];
    var more := HeaderBytes(tail, table);
    PairLayout(pre, k, size, more, rest);
    var pre' := pre + BytesBits([k, size]);
    HeaderRoundTrip(tail, table, pre', rest);
    var z, zt := FirstZero(order), FirstZero(tail);
    assert z == zt + 1;
    assert order[..z] == [k] + tail[..zt];
    SizesOfCons(k, tail[..zt], table);
  }

  lemma SizesOfCons(k: Byte, tail: seq<Byte>, table: Code)
    ensures SizesOf([k] + tail, table) == [SizeByte(table, k) as int] + SizesOf(tail, table)
  {
    var a, b := SizesOf([k] + tail, table), [SizeByte(table, k) as int] + SizesOf(tail, table);
    forall i | 0 <= i < |a| ensures a[i] == b[i] {
      if i > 0 {
        assert ([k] + tail)[i] == tail[i - 1];
      }
    }
  }

  /** A code of '0' and '1' takes one byte per character. */
  lemma {:induction false} BitsStringLength(code: string)
    requires IsBits(code)
    ensures |StringBytes(code)| == |code|
  {
    if code != [] {
      BitsStringLength(code[1..]);
    }
  }

  /** The bits a prefix of the codes takes are what their sizes add up to. */
  lemma {:induction false} WidthOfCodes(order: seq<Byte>, sizes: seq<int>, table: Code)
    requires |order| <= |sizes|
    requires forall i :: 0 <= i < |order| ==> sizes[i] == |Lookup(table, order[i])|
    ensures Width(sizes[..|order|]) == |CodeBits(order, table)|
  {
    if order != [] {
      var n := |order| - 1;
      assert sizes[..|order|][..n] == sizes[..n];
      WidthOfCodes(order[..n], sizes, table);
    }
  }

  /** A code's bits read back as the code. */
  lemma CodeAt(before: seq<bool>, code: string, rest: seq<bool>)
    requires IsBits(code)
    ensures BitChars(before + StringBits(code) + rest, |before|, |code|) == code
  {
    var bits := before + StringBits(code) + rest;
    var got := BitChars(bits, |before|, |code|);
    forall i | 0 <= i < |code|
      ensures got[i] == code[i]
    {
      assert bits[|before| + i] == StringBits(code)[i] == (code[i] == '1');
      assert got[i] == BitChar(bits, |before| + i);
    }
  }

  /** A table holds exactly the symbols of `order`, each with its code in
      `table`. */
  ghost predicate TableFor(t: Code, order: seq<Byte>, table: Code)
  {
    (forall k :: k in t <==> k in order) && forall k :: k in t ==> t[k] == Lookup(table, k)
  }

  /** Reading the codes back bit by bit, with each symbol's code length as
      its size, gives every written symbol its code. */
  lemma {:induction false} CodesRead(order: seq<Byte>, sizes: seq<int>, table: Code, pre: seq<bool>, rest: seq<bool>)
    requires |order| <= |sizes|
    requires forall i :: 0 <= i < |order| ==> IsBits(Lookup(table, order[i])) && sizes[i] == |Lookup(table, order[i])|
    ensures TableFor(ReadTable(order, sizes, pre + CodeBits(order, table) + rest, |pre|), order, table)
  {
    if order != [] {
      var n := |order| - 1;
      var init, k := order[..n], order[n];
      assert order == init + [k];
      var code := Lookup(table, k);
      assert CodeBits(order, table) == CodeBits(init, table) + StringBits(code);
      var before := pre + CodeBits(init, table);
      var bits := before + StringBits(code) + rest;
      assert pre + CodeBits(order, table) + rest == bits;
      assert pre + CodeBits(init, table) + (StringBits(code) + rest) == bits;
      CodesRead(init, sizes, table, pre, StringBits(code) + rest);
      WidthOfCodes(init, sizes, table);
      CodeAt(before, code, rest);
      assert sizes[n] == |code|;
      assert |pre| + Width(sizes[..n]) == |before|;
      ReadTableSnoc(order, sizes, bits, |pre|, init, k, code);
      TableStep(ReadTable(init, sizes, bits, |pre|), init, k, table);
    }
  }

  /** Adding the last symbol's code to a table that is right for the
      symbols before it. */
  lemma TableStep(t0: Code, init: seq<Byte>, k: Byte, table: Code)
    requires TableFor(t0, init, table)
    ensures TableFor(t0[k := Lookup(table, k)], init + [k], table)
  {
    forall x
      ensures x in init + [k] <==> x in init || x == k
    {
      if x in init + [k] {
        var i :| 0 <= i < |init| + 1 && (init + [k])[i] == x;
        if i < |init| {
          assert init[i] == x;
        }
      }
    }
  }

  /** The codes writeCodes writes read back as the same table, provided
      every code is a string of '0' and '1' shorter than 256 characters (a
      longer one would have its size cut to a byte). */
  lemma CodeRoundTrip(order: seq<Byte>, table: Code, pre: seq<bool>, rest: seq<bool>)
    requires forall k :: k in order ==> IsBits(Lookup(table, k)) && |Lookup(table, k)| < 256
    ensures var t := ReadTable(order, SizesOf(order, table), pre + CodeBits(order, table) + rest, |pre|);
      (forall k :: k in t <==> k in order) && forall k :: k in t ==> t[k] == Lookup(table, k)
  {
    var sizes := SizesOf(order, table);
    forall i | 0 <= i < |order|
      ensures sizes[i] == |Lookup(table, order[i])|
    {
      BitsStringLength(Lookup(table, order[i]));
    }
    CodesRead(order, sizes, table, pre, rest);
  }

  /** The payload bits read back as the encoded bytes, as long as those are
      all '0' or '1'. */
  lemma PayloadRoundTrip(encoded: seq<Byte>)
    requires forall i :: 0 <= i < |encoded| ==> encoded[i] == '0' as int || encoded[i] == '1' as int
    ensures BitBytes(PayloadBits(encoded)) == encoded
  {
  }
}
