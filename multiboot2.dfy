/** The root view of the boot-information blob: its fixed header and the
    look-up of tags by type (section 3.6 of the Multiboot2 Specification,
    version 2.0). */
module Multiboot2 {
  import opened Layout
  import opened Tags
  import BasicInfo
  import MemoryMaps

  /** The fixed header: `total_size: u32` @0, `reserved: u32` @4. The tags
      follow it directly. */
  const FixedHeaderSize: nat := 8

  /** Tag `i` is the first of `tags` whose type is `searchType`. */
  ghost predicate FirstOfType(tags: seq<Tag>, i: nat, searchType: u32)
    requires i < |tags| && forall j | 0 <= j < |tags| :: tags[j].Readable()
  {
    tags[i].TagType() == searchType && forall j | 0 <= j < i :: tags[j].TagType() != searchType
  }

  /** The first tag in walk order whose type is `searchType`, or `None` when
      no tag has that type. */
  function FindTag(tags: seq<Tag>, searchType: u32): (r: Option<Tag>)
    requires forall i | 0 <= i < |tags| :: tags[i].Readable()
    ensures r.None? <==> forall i | 0 <= i < |tags| :: tags[i].TagType() != searchType
    ensures r.Some? ==> exists i | 0 <= i < |tags| :: tags[i] == r.value && FirstOfType(tags, i, searchType)
  {
    if tags == [] then None
    else if tags[0].TagType() == searchType then
      assert FirstOfType(tags, 0, searchType);
      Some(tags[0])
    else
      var r := FindTag(tags[1..], searchType);
      assert forall i | 1 <= i < |tags| :: tags[i] == tags[1..][i - 1];
      assert r.Some? ==> exists i | 1 <= i < |tags| :: tags[i] == r.value && FirstOfType(tags, i, searchType);
      r
  }

  /** Skipping a first tag of another type does not change the search. */
  lemma FindTagSkip(tags: seq<Tag>, searchType: u32)
    requires tags != [] && forall i | 0 <= i < |tags| :: tags[i].Readable()
    requires tags[0].TagType() != searchType
    ensures forall i | 0 <= i < |tags| - 1 :: tags[1..][i].Readable()
    ensures FindTag(tags[1..], searchType) == FindTag(tags, searchType)
  {
  }

  /** The root view: the blob's base address in memory. */
  datatype Multiboot2Info = Multiboot2Info(mem: seq<byte>, headerPtr: nat) {

    predicate HeaderReadable() {
      headerPtr + FixedHeaderSize <= |mem|
    }

    function StartAddress(): nat {
      headerPtr
    }

    /** The structure's size in bytes, fixed header included: the u32 whose
        little-endian bytes are the header's first four. */
    function TotalSize(): (r: u32)
      requires HeaderReadable()
      ensures Le32(r) == mem[headerPtr..headerPtr + 4]
    {
      Le32U32At(mem, headerPtr);
      U32At(mem, headerPtr)
    }

    function EndAddress(): nat
      requires HeaderReadable()
    {
      StartAddress() + TotalSize()
    }

    /** The tags a fresh iterator yields before the end tag, when the blob is
        well formed. */
    ghost function AllTags(): (r: Option<seq<Tag>>)
      requires HeaderReadable() && EndAddress() <= |mem|
      ensures r.Some? ==> forall i | 0 <= i < |r.value| ::
                InWalk(r.value[i], mem, StartAddress() + FixedHeaderSize, EndAddress())
    {
      var first := StartAddress() + FixedHeaderSize;
      if TagsFrom(mem, first, EndAddress()).Some? then
        TagsFromShape(mem, first, EndAddress());
        TagsFrom(mem, first, EndAddress())
      else
        None
    }

    /** The header lies in memory, the blob fits in memory, and the walk from
        the first tag reaches an end tag inside `total_size` bytes. */
    ghost predicate WellFormed() {
      HeaderReadable() && EndAddress() <= |mem| && AllTags().Some?
    }

    /** A fresh iterator on the first tag, just past the fixed header. */
    method GetTags() returns (it: TagIterator)
      ensures fresh(it)
      ensures it.mem == mem && it.currentTag == StartAddress() + FixedHeaderSize
    {
      it := new TagIterator(mem, headerPtr + FixedHeaderSize);
    }

    /** Drains a fresh iterator until a tag of type `searchType` comes up: the
        first such tag in walk order, never the end tag, and `None` when no tag
        has that type. */
    method GetTag(searchType: u32) returns (r: Option<Tag>)
      requires WellFormed()
      ensures r == FindTag(AllTags().value, searchType)
      ensures r.Some? ==> r.value.Readable() && r.value.TagType() == searchType && !r.value.IsEnd()
    {
      var end := EndAddress();
      var it := GetTags();
      ghost var rest := AllTags().value;
      assert it.currentTag == StartAddress() + FixedHeaderSize;
      assert TagsFrom(mem, it.currentTag, end) == Some(rest);
      while true
        invariant it.mem == mem
        invariant TagsFrom(mem, it.currentTag, end) == Some(rest)
        invariant forall i | 0 <= i < |rest| :: rest[i].Readable()
        invariant FindTag(AllTags().value, searchType) == FindTag(rest, searchType)
        decreases |rest|
      {
        ghost var cur := it.currentTag;
        TagsFromStep(mem, cur, end);
        var next := it.Next();
        match next
        case None =>
          return None;
        case Some(tag) =>
          assert rest[0] == tag && it.currentTag == cur + Align8(tag.Size());
          if tag.TagType() == searchType {
            return Some(tag);
          }
          FindTagSkip(rest, searchType);
          TagsFromNext(mem, cur, end, rest, it.currentTag);
          rest := rest[1..];
      }
    }

    /** The basic-memory-information tag (type 4) read in place of the first
        tag of that type, or `None` when there is none. */
    method GetBasicMem() returns (r: Option<BasicInfo.BasicMemoryInfoTag>)
      requires WellFormed()
      ensures var found := FindTag(AllTags().value, TagType.BasicMemoryInfo.Code());
              && (r.None? <==> found.None?)
              && (r.Some? ==> r.value.mem == mem && r.value.Header() == found.value)
    {
      var tag := GetTag(TagType.BasicMemoryInfo.Code());
      match tag
      case None =>
        r := None;
      case Some(t) =>
        r := Some(BasicInfo.BasicMemoryInfoTag(t.mem, t.address));
    }

    /** The memory-map tag (type 6) read in place of the first tag of that
        type, or `None` when there is none. */
    method GetMemMap() returns (r: Option<MemoryMaps.MemoryMapTag>)
      requires WellFormed()
      ensures var found := FindTag(AllTags().value, TagType.MemoryMap.Code());
              && (r.None? <==> found.None?)
              && (r.Some? ==> r.value.mem == mem && r.value.address == found.value.address)
    {
      var tag := GetTag(TagType.MemoryMap.Code());
      match tag
      case None =>
        r := None;
      case Some(t) =>
        r := Some(MemoryMaps.MemoryMapTag(t.mem, t.address));
    }
  }

  /** A blob whose header bytes are `total_size` and `reserved` reports that
      total size, and ends that many bytes after its start. */
  lemma HeaderDecodeEncode(info: Multiboot2Info, totalSize: u32, reserved: u32)
    requires info.HeaderReadable()
    requires info.mem[info.headerPtr..info.headerPtr + FixedHeaderSize] == Le32(totalSize) + Le32(reserved)
    ensures info.TotalSize() == totalSize
    ensures info.EndAddress() == info.StartAddress() + totalSize
  {
    SubSlice(info.mem, info.headerPtr, Le32(totalSize) + Le32(reserved), 0, 4);
    assert (Le32(totalSize) + Le32(reserved))[0..4] == Le32(totalSize);
    U32AtLe32(info.mem, info.headerPtr, totalSize);
  }
}
