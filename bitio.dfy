/** The bit-level writer and reader that file/files.go drives. Only what
    the program relies on is modelled: bits go out and come in most
    significant bit first, a byte is eight bits, an error is sticky (every
    later call does nothing), and a read past the end of the input fails and
    yields false. */
module BitIO {
  import opened Common

  function Min(a: int, b: int): int
  {
    if a <= b then a else b
  }

  function Pow2(n: nat): nat
  {
    if n == 0 then 1 else 2 * Pow2(n - 1)
  }

  /** The low `n` bits of `x`, most significant first. */
  function ToBits(x: nat, n: nat): (r: seq<bool>)
    ensures |r| == n
  {
    if n == 0 then [] else ToBits(x / 2, n - 1) + [x % 2 == 1]
  }

  /** The number a sequence of bits spells, most significant first. */
  function FromBits(s: seq<bool>): (v: nat)
    ensures v < Pow2(|s|)
  {
    if s == [] then 0 else 2 * FromBits(s[..|s| - 1]) + (if s[|s| - 1] then 1 else 0)
  }

  /** Reading back the bits of a number that fits gives the number. */
  lemma {:induction false} FromToBits(x: nat, n: nat)
    requires x < Pow2(n)
    ensures FromBits(ToBits(x, n)) == x
  {
    if n > 0 {
      var r := ToBits(x, n);
      assert r[..n - 1] == ToBits(x / 2, n - 1);
      FromToBits(x / 2, n - 1);
    }
  }

  /** The number of bits in a byte. */
  const ByteWidth: nat := 8

  /** The eight bits of a byte. */
  function ByteBits(x: Byte): (r: seq<bool>)
    ensures |r| == 8
  {
    ToBits(x, ByteWidth)
  }

  /** The byte spelled by eight bits. */
  function BitsByte(s: seq<bool>): Byte
    requires |s| == 8
  {
    FromBits(s)
  }

  lemma ByteRoundTrip(x: Byte)
    ensures BitsByte(ByteBits(x)) == x
  {
    FromToBits(x, ByteWidth);
  }

  /** The bits of a byte sequence, byte after byte. */
  function BytesBits(p: seq<Byte>): (r: seq<bool>)
    ensures |r| == 8 * |p|
  {
    if p == [] then [] else ByteBits(p[0]) + BytesBits(p[1..])
  }

  /** The byte that starts at bit `i` of a stream. */
  function ByteAt(bits: seq<bool>, i: nat): Byte
    requires i + 8 <= |bits|
  {
    BitsByte(bits[i..i + 8])
  }

  /** The writer. The destination accepts `limit` bits and fails on the next
      one; `requested` is every bit the program has asked to write, `bits`
      what the destination holds, and `failed` is Go's TryError != nil. */
  class Writer {
    const limit: nat
    var bits: seq<bool>
    var failed: bool
    ghost var requested: seq<bool>

    ghost predicate Valid()
      reads this
    {
      bits == requested[..Min(|requested|, limit)] && failed == (|requested| > limit)
    }

    constructor (limit: nat)
      ensures Valid() && this.limit == limit && requested == []
    {
      this.limit := limit;
      bits := [];
      failed := false;
      requested := [];
    }

    /** TryWriteBool: writes one bit unless an error has occurred. */
    method TryWriteBool(b: bool)
      requires Valid()
      modifies this
      ensures Valid() && requested == old(requested) + [b]
    {
      if !failed {
        if |bits| < limit {
          bits := bits + [b];
        } else {
          failed := true;
        }
      }
      requested := requested + [b];
    }

    /** TryWrite: writes the bytes of `p` unless an error has occurred; the
        destination keeps what fits before it fails. */
    method TryWrite(p: seq<Byte>)
      requires Valid()
      modifies this
      ensures Valid() && requested == old(requested) + BytesBits(p)
    {
      var s := BytesBits(p);
      if !failed {
        var room := limit - |bits|;
        if |s| <= room {
          bits := bits + s;
        } else {
          bits := bits + s[..room];
          failed := true;
        }
      }
      requested := requested + s;
    }
  }

  /** The reader over the bits of a file. Once an error has occurred the
      position is at the end, so every later read fails too. */
  class Reader {
    const bits: seq<bool>
    var pos: nat
    var failed: bool

    ghost predicate Valid()
      reads this
    {
      pos <= |bits| && (failed ==> pos == |bits|)
    }

    constructor (bits: seq<bool>)
      ensures Valid() && this.bits == bits && pos == 0 && !failed
    {
      this.bits := bits;
      pos := 0;
      failed := false;
    }

    /** TryReadBool: the next bit, or false with the error set when there is
        none. */
    method TryReadBool() returns (b: bool)
      requires Valid()
      modifies this
      ensures Valid()
      ensures b == (old(pos) < |bits| && bits[old(pos)])
      ensures pos == Min(old(pos) + 1, |bits|)
      ensures failed == (old(failed) || old(pos) == |bits|)
    {
      if pos < |bits| {
        b := bits[pos];
        pos := pos + 1;
      } else {
        b := false;
        failed := true;
      }
    }

    /** TryRead: fills `p` with the next bytes, or sets the error when not
        enough bits are left. */
    method TryRead(p: array<Byte>)
      requires Valid()
      modifies this, p
      ensures Valid()
      ensures old(pos) + 8 * p.Length <= |bits| ==>
        pos == old(pos) + 8 * p.Length && failed == old(failed) &&
        forall i :: 0 <= i < p.Length ==> p[i] == ByteAt(bits, old(pos) + 8 * i)
      ensures old(pos) + 8 * p.Length > |bits| ==>
        pos == |bits| && failed && p[..] == old(p[..])
    {
      if pos + 8 * p.Length <= |bits| {
        forall i | 0 <= i < p.Length {
          p[i] := ByteAt(bits, pos + 8 * i);
        }
        pos := pos + 8 * p.Length;
      } else {
        pos := |bits|;
        failed := true;
      }
    }
  }
}
