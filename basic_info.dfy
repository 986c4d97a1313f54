/** The basic-memory-information tag (type 4, section 3.6.3 of the Multiboot2
    Specification, version 2.0). */
module BasicInfo {
  import opened Layout
  import Tags

  /** The packed tag: `tag_type` @0, `size` @4, `mem_lower` @8, `mem_upper` @12. */
  const BasicMemoryInfoTagSize: nat := 16

  /** A reference to a basic-memory-information tag at `address`. */
  datatype BasicMemoryInfoTag = BasicMemoryInfoTag(mem: seq<byte>, address: nat) {

    predicate Readable() {
      address + BasicMemoryInfoTagSize <= |mem|
    }

    /** The first 8 bytes are the generic tag header, read in place. */
    function Header(): Tags.Tag {
      Tags.Tag(mem, address)
    }

    /** Kilobytes of lower memory, starting at address 0: the u32 whose
        little-endian bytes are the tag's bytes 8 to 11. */
    function GetMemLower(): (r: u32)
      requires Readable()
      ensures Le32(r) == mem[address + 8..address + 12]
    {
      Le32U32At(mem, address + 8);
      U32At(mem, address + 8)
    }

    /** Kilobytes of upper memory, starting at 1 megabyte: the u32 held in
        the tag's bytes 12 to 15. */
    function GetMemUpper(): (r: u32)
      requires Readable()
      ensures Le32(r) == mem[address + 12..address + 16]
    {
      Le32U32At(mem, address + 12);
      U32At(mem, address + 12)
    }
  }

  /** The 16 bytes of a basic-memory-information tag with the given fields. */
  function Encode(tagType: u32, size: u32, memLower: u32, memUpper: u32): (bs: seq<byte>)
    ensures |bs| == BasicMemoryInfoTagSize
  {
    Le32(tagType) + Le32(size) + Le32(memLower) + Le32(memUpper)
  }

  /** Reading an encoded tag gives back its fields, the header ones through the
      generic tag view. */
  lemma DecodeEncode(mem: seq<byte>, address: nat, tagType: u32, size: u32, memLower: u32, memUpper: u32)
    requires address + BasicMemoryInfoTagSize <= |mem|
    requires mem[address..address + BasicMemoryInfoTagSize] == Encode(tagType, size, memLower, memUpper)
    ensures var v := BasicMemoryInfoTag(mem, address);
            && v.Readable() && v.Header().Readable()
            && v.Header().TagType() == tagType
            && v.Header().Size() == size
            && v.GetMemLower() == memLower
            && v.GetMemUpper() == memUpper
  {
    var bs := Encode(tagType, size, memLower, memUpper);
    SubSlice(mem, address, bs, 0, 4);
    SubSlice(mem, address, bs, 4, 4);
    SubSlice(mem, address, bs, 8, 4);
    SubSlice(mem, address, bs, 12, 4);
    assert bs[0..4] == Le32(tagType) && bs[4..8] == Le32(size);
    assert bs[8..12] == Le32(memLower) && bs[12..16] == Le32(memUpper);
    U32AtLe32(mem, address, tagType);
    U32AtLe32(mem, address + 4, size);
    U32AtLe32(mem, address + 8, memLower);
    U32AtLe32(mem, address + 12, memUpper);
  }

  /** The other direction: the four fields read from a tag are all there is to
      its 16 bytes. */
  lemma EncodeDecode(v: BasicMemoryInfoTag)
    requires v.Readable()
    ensures v.Header().Readable()
    ensures Encode(v.Header().TagType(), v.Header().Size(), v.GetMemLower(), v.GetMemUpper())
            == v.mem[v.address..v.address + BasicMemoryInfoTagSize]
  {
    var a := v.address;
    Le32U32At(v.mem, a);
    Le32U32At(v.mem, a + 4);
    Le32U32At(v.mem, a + 8);
    Le32U32At(v.mem, a + 12);
    assert v.mem[a..a + 16] == v.mem[a..a + 4] + v.mem[a + 4..a + 8] + v.mem[a + 8..a + 12] + v.mem[a + 12..a + 16];
  }
}
