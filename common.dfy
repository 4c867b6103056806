/** Types shared by every module of the model. */
module Common {

  /** A Go `byte`. */
  type Byte = x: int | 0 <= x < 256

  /** Option is used both for Go's nil-able pointers and for outcomes that
      end in a runtime panic (None). */
  datatype Option<+T> = None | Some(value: T)

  /** The UTF-8 encoding of one code point, as Go's `[]byte(s)` produces it. */
  function Utf8(c: char): (r: seq<Byte>)
    ensures 1 <= |r| <= 4
    ensures c as int < 0x80 ==> r == [c as int]
  {
    var n := c as int;
    if n < 0x80 then [n]
    else if n < 0x800 then [0xC0 + n / 64, 0x80 + n % 64]
    else if n < 0x10000 then [0xE0 + n / 4096, 0x80 + (n / 64) % 64, 0x80 + n % 64]
    else [0xF0 + n / 262144, 0x80 + (n / 4096) % 64, 0x80 + (n / 64) % 64, 0x80 + n % 64]
  }

  /** Go's `[]byte(s)`: the UTF-8 bytes of a string. */
  function StringBytes(s: string): (r: seq<Byte>)
    ensures |s| <= |r| <= 4 * |s|
  {
    if s == [] then [] else Utf8(s[0]) + StringBytes(s[1..])
  }

  /** Go's map lookup `m[k]`: the zero value "" for an absent key. */
  function Lookup(m: map<Byte, string>, k: Byte): string
  {
    if k in m then m[k] else ""
  }
}
