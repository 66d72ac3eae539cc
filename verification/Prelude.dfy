/** Fixed-width integers, big-endian fields and the usual option and result types.

    Bytes are integers below 256.  A mask or shift of the original is written as the
    division or remainder by a power of two that it denotes on an unsigned value:
    `b & 0x1F` is `b % 0x20`, `b >> 6` is `b / 0x40`.
 */
module Prelude {
  type u4 = x: int | 0 <= x < 0x10
  type u8 = x: int | 0 <= x < 0x100
  type u16 = x: int | 0 <= x < 0x1_0000
  type u32 = x: int | 0 <= x < 0x1_0000_0000

  type Bytes = seq<u8>

  datatype Option<+T> = None | Some(value: T)

  datatype Result<+T, +E> = Ok(value: T) | Err(error: E)

  // Single bits of a byte, named by their masks.

  predicate Bit80(b: u8) {
    0x80 <= b
  }

  predicate Bit40(b: u8) {
    (b / 0x40) % 2 == 1
  }

  predicate Bit20(b: u8) {
    (b / 0x20) % 2 == 1
  }

  predicate Bit10(b: u8) {
    (b / 0x10) % 2 == 1
  }

  function U16(hi: u8, lo: u8): (n: u16) {
    0x100 * hi + lo
  }

  /** The two bytes that `U16` reads as `n`. */
  ghost function Be16(n: u16): (b: Bytes)
    ensures |b| == 2 && U16(b[0], b[1]) == n
  {
    assert U16(n / 0x100, n % 0x100) == n;
    var hi: u8, lo: u8 :| U16(hi, lo) == n;
    [hi, lo]
  }

  function U32(a: u8, b: u8, c: u8, d: u8): (n: u32) {
    0x1_0000 * U16(a, b) + U16(c, d)
  }

  /** The four bytes that `U32` reads as `n`. */
  ghost function Be32(n: u32): (b: Bytes)
    ensures |b| == 4 && U32(b[0], b[1], b[2], b[3]) == n
  {
    hide U16;
    Be16(n / 0x1_0000) + Be16(n % 0x1_0000)
  }

  /** The high byte comes first. */
  lemma Be16Is(n: u16)
    ensures Be16(n) == [n / 0x100, n % 0x100]
  {
    var b := Be16(n);
    assert b == [b[0], b[1]];
  }

  lemma Be16Inverse(hi: u8, lo: u8)
    ensures Be16(U16(hi, lo)) == [hi, lo]
  {
    var b := Be16(U16(hi, lo));
    assert b == [b[0], b[1]];
  }

  lemma SplitWord(x: u16, y: u16)
    ensures (0x1_0000 * x + y) / 0x1_0000 == x && (0x1_0000 * x + y) % 0x1_0000 == y
  {
  }

  lemma Be32Inverse(a: u8, b: u8, c: u8, d: u8)
    ensures Be32(U32(a, b, c, d)) == [a, b, c, d]
  {
    hide Be16, U16;
    SplitWord(U16(a, b), U16(c, d));
    Be16Inverse(a, b);
    Be16Inverse(c, d);
  }

  lemma U16At(b: Bytes, i: nat, n: u16)
    requires i + 2 <= |b| && b[i..i + 2] == Be16(n)
    ensures U16(b[i], b[i + 1]) == n
  {
    hide U16;
    assert b[i] == b[i..i + 2][0] && b[i + 1] == b[i..i + 2][1];
  }

  lemma U32At(b: Bytes, i: nat, n: u32)
    requires i + 4 <= |b| && b[i..i + 4] == Be32(n)
    ensures U32(b[i], b[i + 1], b[i + 2], b[i + 3]) == n
  {
    hide U32;
    var f := b[i..i + 4];
    assert b[i] == f[0] && b[i + 1] == f[1] && b[i + 2] == f[2] && b[i + 3] == f[3];
  }

  function Min(a: int, b: int): int {
    if a <= b then a else b
  }

  function Max(a: int, b: int): int {
    if a <= b then b else a
  }

  /** The time from one reading of a clock to another, which never goes below zero. */
  function Elapsed(since: nat, now: nat): nat {
    if since <= now then now - since else 0
  }

  /** All the pieces, one after the other. */
  function Concat<T>(parts: seq<seq<T>>): (whole: seq<T>) {
    if parts == [] then [] else parts[0] + Concat(parts[1..])
  }

  lemma {:induction false} ConcatAppend<T>(a: seq<seq<T>>, b: seq<seq<T>>)
    ensures Concat(a + b) == Concat(a) + Concat(b)
  {
    if a == [] {
      assert a + b == b;
    } else {
      assert (a + b)[1..] == a[1..] + b;
      ConcatAppend(a[1..], b);
    }
  }

  lemma ConcatOne<T>(a: seq<T>)
    ensures Concat([a]) == a
  {
    assert [a][1..] == [];
  }
}
