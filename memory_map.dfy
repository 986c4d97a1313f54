/** The memory-map tag (type 6) and the iterator over its available entries
    (section 3.6.8 of the Multiboot2 Specification, version 2.0). */
module MemoryMaps {
  import opened Layout

  /** One entry as read: `base_address: u64` @0, `length: u64` @8,
      `entry_type: u32` @16, `reserved: u32` @20, packed. */
  const MemoryMapSize: nat := 24

  /** The first entry follows `tag_type`, `size`, `entry_size` and
      `entry_version`, four u32 fields. */
  const FirstEntryOffset: nat := 16

  const U64Limit: int := 0x1_0000_0000_0000_0000

  /** The classification of an entry's type code. */
  datatype MemoryMapType = Available | AvailableWithAcpi | Reserved {
    /** The enum's discriminant. */
    function Code(): u32 {
      match this
      case Available => 1
      case AvailableWithAcpi => 3
      case Reserved => 4
    }
  }

  /** Code 1 is available RAM, code 3 is available with ACPI information,
      every other code is reserved. */
  function EntryTypeOf(code: u32): (k: MemoryMapType)
    ensures k == Available <==> code == 1
    ensures k == AvailableWithAcpi <==> code == 3
    ensures k == Reserved <==> code != 1 && code != 3
  {
    if code == 1 then Available
    else if code == 3 then AvailableWithAcpi
    else Reserved
  }

  /** Classifying a variant's own discriminant gives the variant back; a code
      is the discriminant of its classification exactly for codes 1, 3 and 4. */
  lemma EntryTypeOfCode(k: MemoryMapType, code: u32)
    ensures EntryTypeOf(k.Code()) == k
    ensures EntryTypeOf(code).Code() == code <==> code == 1 || code == 3 || code == 4
  {
  }

  /** A reference to the memory-map entry at `address`. */
  datatype MemoryMap = MemoryMap(mem: seq<byte>, address: nat) {

    predicate Readable() {
      address + MemoryMapSize <= |mem|
    }

    /** The region's first address: the u64 whose little-endian bytes are the
        entry's bytes 0 to 7. */
    function BaseAddress(): (r: u64)
      requires Readable()
      ensures Le64(r) == mem[address..address + 8]
    {
      Le64U64At(mem, address);
      U64At(mem, address)
    }

    /** The region's length in bytes: the u64 held in bytes 8 to 15. */
    function Length(): (r: u64)
      requires Readable()
      ensures Le64(r) == mem[address + 8..address + 16]
    {
      Le64U64At(mem, address + 8);
      U64At(mem, address + 8)
    }

    /** The first address past the region, defined when it fits in a u64. */
    function EndAddress(): u64
      requires Readable() && BaseAddress() + Length() < U64Limit
    {
      BaseAddress() + Length()
    }

    /** The type code as stored in bytes 16 to 19. */
    function RawEntryType(): u32
      requires Readable()
    {
      U32At(mem, address + 16)
    }

    /** The classification of the stored type code. */
    function EntryType(): (k: MemoryMapType)
      requires Readable()
      ensures k == Available <==> RawEntryType() == 1
      ensures k == AvailableWithAcpi <==> RawEntryType() == 3
      ensures k == Reserved <==> RawEntryType() != 1 && RawEntryType() != 3
    {
      EntryTypeOf(RawEntryType())
    }

    /** Comparing the classification with Available is comparing the stored
        code with 1, as the iterator does. */
    predicate IsAvailable()
      requires Readable()
      ensures IsAvailable() <==> RawEntryType() == 1
    {
      EntryType() == Available
    }
  }

  /** The 24 bytes of an entry with the given fields. */
  function EncodeEntry(base: u64, length: u64, entryType: u32, reserved: u32): (bs: seq<byte>)
    ensures |bs| == MemoryMapSize
  {
    Le64(base) + Le64(length) + Le32(entryType) + Le32(reserved)
  }

  /** Reading an encoded entry gives back its fields: the base address, the
      length, their sum as end address, and availability exactly for type 1. */
  lemma EntryDecodeEncode(mem: seq<byte>, address: nat, base: u64, length: u64, entryType: u32, reserved: u32)
    requires address + MemoryMapSize <= |mem|
    requires mem[address..address + MemoryMapSize] == EncodeEntry(base, length, entryType, reserved)
    ensures var e := MemoryMap(mem, address);
            && e.Readable()
            && e.BaseAddress() == base
            && e.Length() == length
            && (base + length < U64Limit ==> e.EndAddress() == base + length)
            && e.RawEntryType() == entryType
            && (e.IsAvailable() <==> entryType == 1)
  {
    var bs := EncodeEntry(base, length, entryType, reserved);
    SubSlice(mem, address, bs, 0, 8);
    SubSlice(mem, address, bs, 8, 8);
    SubSlice(mem, address, bs, 16, 4);
    assert bs[0..8] == Le64(base) && bs[8..16] == Le64(length) && bs[16..20] == Le32(entryType);
    U64AtLe64(mem, address, base);
    U64AtLe64(mem, address + 8, length);
    U32AtLe32(mem, address + 16, entryType);
  }

  /** The other direction: the fields read from an entry, with its reserved
      word, are all there is to its 24 bytes. */
  lemma EntryEncodeDecode(e: MemoryMap)
    requires e.Readable()
    ensures EncodeEntry(e.BaseAddress(), e.Length(), e.RawEntryType(), U32At(e.mem, e.address + 20))
            == e.mem[e.address..e.address + MemoryMapSize]
  {
    var a := e.address;
    Le32U32At(e.mem, a + 16);
    Le32U32At(e.mem, a + 20);
    assert e.mem[a..a + 24] == e.mem[a..a + 8] + e.mem[a + 8..a + 16] + e.mem[a + 16..a + 20] + e.mem[a + 20..a + 24];
  }

  /** The entry slots the iterator inspects from `cur` on: one every `step`
      bytes while the address is at most `last`. */
  ghost function Slots(mem: seq<byte>, cur: nat, last: nat, step: nat): (s: seq<MemoryMap>)
    requires step > 0
    ensures s != [] <==> cur <= last
    ensures forall i | 0 <= i < |s| :: s[i].mem == mem && cur <= s[i].address <= last
    decreases last + 1 - cur
  {
    if cur > last then [] else [MemoryMap(mem, cur)] + Slots(mem, cur + step, last, step)
  }

  /** The entries the iterator yields from `cur` on: the available ones among
      the slots, in slot order. */
  ghost function AvailableAreas(mem: seq<byte>, cur: nat, last: nat, step: nat): (r: seq<MemoryMap>)
    requires step > 0 && last + MemoryMapSize <= |mem|
    ensures forall i | 0 <= i < |r| ::
              && r[i].mem == mem && cur <= r[i].address <= last
              && r[i].RawEntryType() == MemoryMapType.Available.Code()
    decreases last + 1 - cur
  {
    if cur > last then []
    else
      var area := MemoryMap(mem, cur);
      var rest := AvailableAreas(mem, cur + step, last, step);
      if area.IsAvailable() then [area] + rest else rest
  }

  /** The k-th slot from `cur` is the entry at `cur + k * step`, and every slot
      lies in `[cur, last]`. */
  lemma {:induction false} SlotsAt(mem: seq<byte>, cur: nat, last: nat, step: nat)
    requires step > 0
    ensures var s := Slots(mem, cur, last, step);
            forall k | 0 <= k < |s| ::
              s[k] == MemoryMap(mem, cur + k * step) && cur + k * step <= last
    decreases last + 1 - cur
  {
    if cur <= last {
      SlotsAt(mem, cur + step, last, step);
      var s := Slots(mem, cur, last, step);
      var rest := Slots(mem, cur + step, last, step);
      assert s == [MemoryMap(mem, cur)] + rest;
      forall k | 1 <= k < |s| ensures s[k] == MemoryMap(mem, cur + k * step) && cur + k * step <= last {
        assert s[k] == rest[k - 1];
        assert cur + step + (k - 1) * step == cur + k * step;
      }
    }
  }

  /** The converse of SlotsAt: every address `cur + k * step` up to `last`
      is inspected, so no slot before the bound is missed. */
  lemma {:induction false} SlotsCover(mem: seq<byte>, cur: nat, last: nat, step: nat, k: nat)
    requires step > 0 && cur + k * step <= last
    ensures k < |Slots(mem, cur, last, step)|
    decreases k
  {
    if k > 0 {
      assert cur + step + (k - 1) * step == cur + k * step;
      SlotsCover(mem, cur + step, last, step, k - 1);
    }
  }

  /** Filtering, both directions: an entry is yielded from `cur` on exactly
      when it is one of the slots and its type is available (raw code 1). */
  lemma {:induction false} AvailableAreasMembers(mem: seq<byte>, cur: nat, last: nat, step: nat, a: MemoryMap)
    requires step > 0 && last + MemoryMapSize <= |mem|
    ensures a in AvailableAreas(mem, cur, last, step) <==>
              a in Slots(mem, cur, last, step) && a.Readable() && a.RawEntryType() == 1
    decreases last + 1 - cur
  {
    if cur <= last {
      AvailableAreasMembers(mem, cur + step, last, step, a);
      var head := MemoryMap(mem, cur);
      assert Slots(mem, cur, last, step) == [head] + Slots(mem, cur + step, last, step);
      var rest := AvailableAreas(mem, cur + step, last, step);
      assert head.Readable();
      if head.IsAvailable() {
        assert AvailableAreas(mem, cur, last, step) == [head] + rest;
      } else {
        assert AvailableAreas(mem, cur, last, step) == rest;
      }
    } else {
      assert Slots(mem, cur, last, step) == [];
    }
  }

  /** Every yielded entry lies at or after `cur` and at or before `last`, and
      the entries come in strictly increasing address order. */
  lemma {:induction false} AvailableAreasOrdered(mem: seq<byte>, cur: nat, last: nat, step: nat)
    requires step > 0 && last + MemoryMapSize <= |mem|
    ensures forall i | 0 <= i < |AvailableAreas(mem, cur, last, step)| ::
              && cur <= AvailableAreas(mem, cur, last, step)[i].address <= last
              && AvailableAreas(mem, cur, last, step)[i].mem == mem
    ensures forall i, j | 0 <= i < j < |AvailableAreas(mem, cur, last, step)| ::
              AvailableAreas(mem, cur, last, step)[i].address < AvailableAreas(mem, cur, last, step)[j].address
    decreases last + 1 - cur
  {
    if cur <= last {
      AvailableAreasOrdered(mem, cur + step, last, step);
      var s := AvailableAreas(mem, cur, last, step);
      var rest := AvailableAreas(mem, cur + step, last, step);
      if MemoryMap(mem, cur).IsAvailable() {
        assert s == [MemoryMap(mem, cur)] + rest;
        forall i, j | 0 <= i < j < |s| ensures s[i].address < s[j].address {
          assert s[j] == rest[j - 1];
          if i > 0 {
            assert s[i] == rest[i - 1];
          }
        }
      } else {
        assert s == rest;
      }
    }
  }

  /** Types [1, 2, 1] in three consecutive slots yield the first and the
      third entry. */
  lemma AvailableAreasSkipsReserved(mem: seq<byte>, first: nat, step: nat)
    requires step > 0 && first + 2 * step + MemoryMapSize <= |mem|
    requires MemoryMap(mem, first).RawEntryType() == 1
    requires MemoryMap(mem, first + step).RawEntryType() == 2
    requires MemoryMap(mem, first + 2 * step).RawEntryType() == 1
    ensures AvailableAreas(mem, first, first + 2 * step, step)
            == [MemoryMap(mem, first), MemoryMap(mem, first + 2 * step)]
  {
    var last := first + 2 * step;
    assert AvailableAreas(mem, last + step, last, step) == [];
    assert AvailableAreas(mem, last, last, step) == [MemoryMap(mem, last)];
    assert AvailableAreas(mem, first + step, last, step) == [MemoryMap(mem, last)];
  }

  /** A memory-map tag with 24-byte entries {base 0, length 0x9FC00, type 1},
      {base 0x9FC00, length 0x400, type 2}, {base 0x100000, length 0x7EE0000,
      type 1}. */
  function ExampleTagBytes(): (bs: seq<byte>)
    ensures |bs| == 88
  {
    Le32(6) + Le32(88) + Le32(24) + Le32(0)
    + EncodeEntry(0, 0x9FC00, 1, 0)
    + EncodeEntry(0x9FC00, 0x400, 2, 0)
    + EncodeEntry(0x100000, 0x7EE0000, 1, 0)
  }

  /** The example tag's header: size 88, entry size 24. */
  lemma ExampleHeader()
    ensures U32At(ExampleTagBytes(), 4) == 88 && U32At(ExampleTagBytes(), 8) == 24
  {
    var mem := ExampleTagBytes();
    var e0 := EncodeEntry(0, 0x9FC00, 1, 0);
    var e1 := EncodeEntry(0x9FC00, 0x400, 2, 0);
    var e2 := EncodeEntry(0x100000, 0x7EE0000, 1, 0);
    var header := Le32(6) + Le32(88) + Le32(24) + Le32(0);
    PrefixSlice(header + e0 + e1, e2, 4, 12);
    PrefixSlice(header + e0, e1, 4, 12);
    PrefixSlice(header, e0, 4, 12);
    PrefixSlice(Le32(6) + Le32(88) + Le32(24), Le32(0), 4, 12);
    assert mem[4..12] == (Le32(6) + Le32(88) + Le32(24))[4..12];
    MiddleSlice(Le32(6), Le32(88), Le32(24));
    assert mem[4..8] == Le32(88) && mem[8..12] == Le32(24);
    U32AtLe32(mem, 4, 88);
    U32AtLe32(mem, 8, 24);
  }

  /** The example tag's first entry: available, base 0, length 0x9FC00. */
  lemma ExampleFirstEntry()
    ensures var e := MemoryMap(ExampleTagBytes(), 16);
            && e.Readable() && e.RawEntryType() == 1 && e.BaseAddress() == 0 && e.Length() == 0x9FC00
  {
    var header := Le32(6) + Le32(88) + Le32(24) + Le32(0);
    var e0 := EncodeEntry(0, 0x9FC00, 1, 0);
    var tail := EncodeEntry(0x9FC00, 0x400, 2, 0) + EncodeEntry(0x100000, 0x7EE0000, 1, 0);
    assert ExampleTagBytes() == header + e0 + tail;
    MiddleSlice(header, e0, tail);
    EntryDecodeEncode(ExampleTagBytes(), 16, 0, 0x9FC00, 1, 0);
  }

  /** The example tag's second entry: type 2. */
  lemma ExampleSecondEntry()
    ensures MemoryMap(ExampleTagBytes(), 40).Readable() && MemoryMap(ExampleTagBytes(), 40).RawEntryType() == 2
  {
    var front := Le32(6) + Le32(88) + Le32(24) + Le32(0) + EncodeEntry(0, 0x9FC00, 1, 0);
    var e1 := EncodeEntry(0x9FC00, 0x400, 2, 0);
    var e2 := EncodeEntry(0x100000, 0x7EE0000, 1, 0);
    assert ExampleTagBytes() == front + e1 + e2;
    MiddleSlice(front, e1, e2);
    EntryDecodeEncode(ExampleTagBytes(), 40, 0x9FC00, 0x400, 2, 0);
  }

  /** The example tag's third entry: available. */
  lemma ExampleThirdEntry()
    ensures MemoryMap(ExampleTagBytes(), 64).Readable() && MemoryMap(ExampleTagBytes(), 64).RawEntryType() == 1
  {
    var front := Le32(6) + Le32(88) + Le32(24) + Le32(0) + EncodeEntry(0, 0x9FC00, 1, 0)
                 + EncodeEntry(0x9FC00, 0x400, 2, 0);
    var e2 := EncodeEntry(0x100000, 0x7EE0000, 1, 0);
    assert ExampleTagBytes() == front + e2 + [];
    MiddleSlice(front, e2, []);
    EntryDecodeEncode(ExampleTagBytes(), 64, 0x100000, 0x7EE0000, 1, 0);
  }

  /** Iterating the example tag yields the first and the third entry, skipping
      the reserved one, and the first ends at 0x9FC00. */
  lemma ThreeEntryExample()
    ensures var tag := MemoryMapTag(ExampleTagBytes(), 0);
            && tag.Readable() && tag.Size() == 88 && tag.EntrySize() == 24 && tag.LastArea() == 64
            && tag.Areas() == [MemoryMap(ExampleTagBytes(), 16), MemoryMap(ExampleTagBytes(), 64)]
    ensures var first := MemoryMap(ExampleTagBytes(), 16);
            && first.Readable() && first.BaseAddress() == 0 && first.Length() == 0x9FC00
            && first.EndAddress() == 0x9FC00
  {
    ExampleHeader();
    ExampleFirstEntry();
    ExampleSecondEntry();
    ExampleThirdEntry();
    AvailableAreasSkipsReserved(ExampleTagBytes(), 16, 24);
  }

  /** A reference to a memory-map tag: `tag_type` @0, `size` @4,
      `entry_size` @8, `entry_version` @12, then the entries. */
  datatype MemoryMapTag = MemoryMapTag(mem: seq<byte>, address: nat) {

    predicate Readable() {
      address + FirstEntryOffset <= |mem|
    }

    function Size(): u32
      requires Readable()
    {
      U32At(mem, address + 4)
    }

    function EntrySize(): u32
      requires Readable()
    {
      U32At(mem, address + 8)
    }

    function EntryVersion(): u32
      requires Readable()
    {
      U32At(mem, address + 12)
    }

    /** The address of the last entry slot, `tag + (size - entry_size)`. */
    function LastArea(): (r: nat)
      requires Readable() && EntrySize() <= Size()
      ensures r + EntrySize() == address + Size()
    {
      address + (Size() - EntrySize())
    }

    /** The available entries of this tag, in address order. */
    ghost function Areas(): seq<MemoryMap>
      requires Readable() && 0 < EntrySize() <= Size() && LastArea() + MemoryMapSize <= |mem|
    {
      AvailableAreas(mem, address + FirstEntryOffset, LastArea(), EntrySize())
    }

    /** A fresh iterator whose cursor is on the first entry and whose bound is
        the last entry slot. */
    method MemoryAreas() returns (it: MemoryMapIterator)
      requires Readable() && EntrySize() <= Size()
      ensures fresh(it)
      ensures it.mem == mem && it.currentArea == address + FirstEntryOffset
      ensures it.lastArea == LastArea() && it.entrySize == EntrySize()
      ensures 0 < EntrySize() && LastArea() + MemoryMapSize <= |mem| ==> it.Remaining() == Areas()
    {
      it := new MemoryMapIterator(mem, address + FirstEntryOffset, LastArea(), EntrySize());
    }
  }

  /** The iterator over a memory map's available entries: a cursor on the
      next slot to inspect, the last slot's address and the slot stride. */
  class MemoryMapIterator {
    const mem: seq<byte>
    var currentArea: nat
    const lastArea: nat
    const entrySize: u32

    constructor (mem: seq<byte>, currentArea: nat, lastArea: nat, entrySize: u32)
      ensures this.mem == mem && this.currentArea == currentArea
      ensures this.lastArea == lastArea && this.entrySize == entrySize
    {
      this.mem := mem;
      this.currentArea := currentArea;
      this.lastArea := lastArea;
      this.entrySize := entrySize;
    }

    /** The entries the iterator has still to yield. */
    ghost function Remaining(): seq<MemoryMap>
      reads this
      requires entrySize > 0 && lastArea + MemoryMapSize <= |mem|
    {
      AvailableAreas(mem, currentArea, lastArea, entrySize)
    }

    /** Yields the next available entry, skipping the others, and leaves the
        cursor one slot past it; `None` once no slot up to `lastArea` holds an
        available entry. Past the last slot nothing changes. */
    method Next() returns (r: Option<MemoryMap>)
      requires entrySize > 0 && lastArea + MemoryMapSize <= |mem|
      modifies this
      ensures r.None? <==> old(Remaining()) == []
      ensures r.Some? ==> r.value == old(Remaining())[0] && currentArea == r.value.address + entrySize
      ensures r.Some? ==> r.value.Readable() && r.value.RawEntryType() == 1
      ensures Remaining() == if r.None? then [] else old(Remaining())[1..]
      ensures old(currentArea) > lastArea ==> currentArea == old(currentArea)
      ensures r.None? ==> lastArea < currentArea
    {
      while currentArea <= lastArea
        invariant Remaining() == old(Remaining())
        invariant old(currentArea) > lastArea ==> currentArea == old(currentArea)
        decreases lastArea + 1 - currentArea
      {
        var area := MemoryMap(mem, currentArea);
        currentArea := currentArea + entrySize;
        if area.RawEntryType() == MemoryMapType.Available.Code() {
          return Some(area);
        }
      }
      return None;
    }
  }
}
