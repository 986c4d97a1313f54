/** Raw memory and the little-endian field reads every view in the model is
    built on. Memory is a sequence of bytes indexed by absolute address; a
    Rust reference into boot memory becomes an address into that sequence. */
module Layout {

  type byte = x: int | 0 <= x < 0x100
  type u32 = x: int | 0 <= x < 0x1_0000_0000
  type u64 = x: int | 0 <= x < 0x1_0000_0000_0000_0000

  datatype Option<+T> = None | Some(value: T)

  /** The unsigned 32-bit little-endian field at `off`. */
  function U32At(mem: seq<byte>, off: nat): (r: u32)
    requires off + 4 <= |mem|
  {
    var b0, b1, b2, b3: int := mem[off], mem[off + 1], mem[off + 2], mem[off + 3];
    b0 + 0x100 * (b1 + 0x100 * (b2 + 0x100 * b3))
  }

  /** The unsigned 64-bit little-endian field at `off`: low word first. */
  function U64At(mem: seq<byte>, off: nat): (r: u64)
    requires off + 8 <= |mem|
  {
    U32At(mem, off) + 0x1_0000_0000 * U32At(mem, off + 4)
  }

  /** The four bytes a little-endian u32 field holds. */
  function Le32(x: u32): (bs: seq<byte>)
    ensures |bs| == 4
  {
    var a := x / 0x100;
    var b := a / 0x100;
    [x % 0x100, a % 0x100, b % 0x100, b / 0x100]
  }

  /** The eight bytes a little-endian u64 field holds. */
  function Le64(x: u64): (bs: seq<byte>)
    ensures |bs| == 8
  {
    Le32(x % 0x1_0000_0000) + Le32(x / 0x1_0000_0000)
  }

  /** Reading back a written u32 field gives the value written, wherever the
      field sits. */
  lemma U32AtLe32(mem: seq<byte>, off: nat, x: u32)
    requires off + 4 <= |mem| && mem[off..off + 4] == Le32(x)
    ensures U32At(mem, off) == x
  {
    var bs := Le32(x);
    var a := x / 0x100;
    var b := a / 0x100;
    assert x == x % 0x100 + 0x100 * a;
    assert a == a % 0x100 + 0x100 * b;
    assert b == b % 0x100 + 0x100 * (b / 0x100);
    assert mem[off] == bs[0] && mem[off + 1] == bs[1] && mem[off + 2] == bs[2] && mem[off + 3] == bs[3] by {
      assert mem[off..off + 4][0] == mem[off] && mem[off..off + 4][1] == mem[off + 1];
      assert mem[off..off + 4][2] == mem[off + 2] && mem[off..off + 4][3] == mem[off + 3];
    }
  }

  /** Reading back a written u64 field gives the value written. */
  lemma U64AtLe64(mem: seq<byte>, off: nat, x: u64)
    requires off + 8 <= |mem| && mem[off..off + 8] == Le64(x)
    ensures U64At(mem, off) == x
  {
    assert mem[off..off + 4] == mem[off..off + 8][..4];
    assert mem[off + 4..off + 8] == mem[off..off + 8][4..];
    U32AtLe32(mem, off, x % 0x1_0000_0000);
    U32AtLe32(mem, off + 4, x / 0x1_0000_0000);
  }

  /** The other direction: writing back a field that was read reproduces its
      bytes, so a u32 field is exactly its four bytes. */
  lemma Le32U32At(mem: seq<byte>, off: nat)
    requires off + 4 <= |mem|
    ensures Le32(U32At(mem, off)) == mem[off..off + 4]
  {
    var b0, b1, b2, b3: int := mem[off], mem[off + 1], mem[off + 2], mem[off + 3];
    var hi := b2 + 0x100 * b3;
    var mid := b1 + 0x100 * hi;
    ByteSplit(mid, b0);
    ByteSplit(hi, b1);
    ByteSplit(b3, b2);
  }

  /** Writing back a u64 field that was read reproduces its eight bytes. */
  lemma Le64U64At(mem: seq<byte>, off: nat)
    requires off + 8 <= |mem|
    ensures Le64(U64At(mem, off)) == mem[off..off + 8]
  {
    var lo, hi := U32At(mem, off), U32At(mem, off + 4);
    WordSplit(hi, lo);
    Le32U32At(mem, off);
    Le32U32At(mem, off + 4);
    assert mem[off..off + 8] == mem[off..off + 4] + mem[off + 4..off + 8];
  }

  /** Division by 2^32 splits off the low word. */
  lemma WordSplit(q: int, r: int)
    requires 0 <= r < 0x1_0000_0000
    ensures (r + 0x1_0000_0000 * q) / 0x1_0000_0000 == q && (r + 0x1_0000_0000 * q) % 0x1_0000_0000 == r
  {
  }

  /** Division by 0x100 splits off the low byte. */
  lemma ByteSplit(q: int, r: int)
    requires 0 <= r < 0x100
    ensures (r + 0x100 * q) / 0x100 == q && (r + 0x100 * q) % 0x100 == r
  {
  }

  /** A field inside a written record: if the bytes at `off` are `bs`, the
      bytes at `off + k` are the matching slice of `bs`. */
  lemma SubSlice(mem: seq<byte>, off: nat, bs: seq<byte>, k: nat, n: nat)
    requires off + |bs| <= |mem| && mem[off..off + |bs|] == bs && k + n <= |bs|
    ensures mem[off + k..off + k + n] == bs[k..k + n]
  {
    var field, want := mem[off + k..off + k + n], bs[k..k + n];
    forall i | 0 <= i < n ensures field[i] == want[i] {
      assert mem[off..off + |bs|][k + i] == mem[off + k + i];
    }
    assert field == want;
  }

  /** The middle part of a concatenation is the slice at its offset. */
  lemma MiddleSlice(a: seq<byte>, b: seq<byte>, c: seq<byte>)
    ensures (a + b + c)[|a|..|a| + |b|] == b
  {
    assert (a + b + c)[|a|..|a| + |b|] == (a + b)[|a|..];
  }

  /** A slice inside the first part of a concatenation. */
  lemma PrefixSlice(p: seq<byte>, q: seq<byte>, i: nat, j: nat)
    requires i <= j <= |p|
    ensures (p + q)[i..j] == p[i..j]
  {
  }
}
