# multiboot2 boot-information reader, modelled in Dafny

This project models the core of a small Rust library that a kernel uses to
read the Multiboot2 boot-information structure a boot loader leaves in memory
(section 3.6 of the Multiboot2 Specification, version 2.0):

- the fixed header (`total_size`, `reserved`) and the root view
  `Multiboot2Info`, which finds tags by type (`src/lib.rs`);
- the generic tag header and `TagIterator`, which walks the tags in memory,
  8-byte aligned, until the end tag (type 0, size 8) (`src/tag.rs`);
- the memory-map tag (type 6), its 24-byte entries and `MemoryMapIterator`,
  which yields only the entries of type 1 (available RAM) (`src/memory_map.rs`);
- the basic-memory-information tag (type 4) with `mem_lower` and `mem_upper`
  (`src/basic_info.rs`).

Memory is a sequence of bytes indexed by absolute address (`Layout`). Every
Rust reference into boot memory becomes a view datatype holding that memory
and an address, whose accessors read little-endian fields in place
(`Tags.Tag`, `MemoryMaps.MemoryMap`, `MemoryMaps.MemoryMapTag`,
`BasicInfo.BasicMemoryInfoTag`, `Multiboot2.Multiboot2Info`). The two
iterators update a cursor in place in the source, so they are classes with a
mutable cursor field and a `Next` method that `modifies` it.

Each iterator is specified by a function on the bytes.

- `Tags.TagsFrom` is the sequence of tags the walk yields before the end tag.
  It is `None` when the walk does not reach an end tag, when a tag before the
  end tag has a size below 8 or above 0xFFFF_FFF8, or when a tag runs past the
  end of the structure (`total_size` bytes from its start).
- `MemoryMaps.AvailableAreas` is the sequence of available entries among the
  slots from the cursor up to the last slot.

`MemoryMaps.MemoryMapIterator.Next` is proved against `AvailableAreas`: its
contract speaks of what is left to yield before and after the call.
`Tags.TagIterator.Next` is specified one step at a time, in terms of the tag
under the cursor and `Align8`. `Tags.TagsFromStep` and `Tags.TagsFromNext`
connect that step to `TagsFrom`, and `Multiboot2.Multiboot2Info.GetTag` uses
them in its loop. `GetTag` is proved to return the first tag of the requested
type in walk order (`Multiboot2.FindTag`).

The tag walk begins 8 bytes after the start of the structure, right after
`total_size` and `reserved` (`header_ptr.offset(1)` on the 8-byte fixed
header, src/lib.rs:60).

## Model

| member | source | states |
|---|---|---|
| Tags.Align8 | src/tag.rs:33 | the stride from a tag to the next is a multiple of 8, at least the tag's size and less than size + 8, given that `size + 7` does not overflow a u32 |
| Tags.TagType.Code | src/tag.rs:4-7 | BasicMemoryInfo has discriminant 4 and MemoryMap has 6, and each discriminant belongs to one variant only |
| Tags.MaskIsRoundDown | src/tag.rs:33 | on 32-bit words `(x + 7) & !7` equals `x + 7` minus its remainder modulo 8; for a size of at most 0xFFFF_FFF8, `size + 7` does not wrap, so this is the integer expression of Align8 |
| Tags.Align8Least | src/tag.rs:33 | the stride is the least multiple of 8 that covers the tag: no smaller multiple of 8 is at least the size |
| Tags.TagIterator.Next | src/tag.rs:22-40 | at an end tag (type 0 and size 8) it returns None and leaves the cursor where it is, so later calls return None too; otherwise it returns the tag under the cursor and moves the cursor Align8(size) bytes on; an aligned cursor stays aligned; a nonzero size makes the cursor strictly increase |
| Tags.TagsFrom | src/tag.rs:22-40 | the tags the walk yields before the end tag; a walk of n tags and its end tag span at least 8 * (n + 1) bytes, since each tag takes at least 8; what one step does is stated by TagsFromStep |
| Tags.TagsFromStep | src/tag.rs:22-40 | one step of the walk: the walk is empty exactly when the tag at the cursor is the end tag; otherwise its first tag is the tag at the cursor, with a size from 8 up to 0xFFFF_FFF8, and the rest of the walk starts Align8(size) bytes further on |
| Tags.TagsFromNext | src/tag.rs:30-35 | after yielding a tag of a well-formed walk, the walk from the new cursor is the rest of that walk |
| Tags.TagsFromShape | src/tag.rs:22-40 | every tag of a well-formed walk lies inside the structure at an 8-byte-aligned distance from the first tag, has a size of at least 8 and is not the end tag; the first tag is at the start and each next tag is exactly Align8(size) after its predecessor |
| Tags.TagsFromAscending | src/tag.rs:30-35 | the walk visits tags at strictly increasing addresses |
| Tags.EndTagAddress | src/tag.rs:25 | a well-formed walk stops at an end tag that lies inside the structure, at an 8-byte-aligned distance from the first tag |
| Tags.EndTagFollows | src/tag.rs:23-37 | the end tag comes right after the last tag yielded: at the first tag's address when nothing is yielded, else one stride after the last yielded tag |
| MemoryMaps.MemoryMap.BaseAddress | src/memory_map.rs:24-26 | the region's base is the u64 whose little-endian bytes are the entry's bytes 0 to 7 |
| MemoryMaps.MemoryMap.Length | src/memory_map.rs:28-30 | the region's length is the u64 held in the entry's bytes 8 to 15 |
| MemoryMaps.MemoryMap.EndAddress | src/memory_map.rs:32-34 | base + length when that fits in a u64; stated by EntryDecodeEncode, this function has no contract of its own |
| MemoryMaps.MemoryMap.RawEntryType | src/memory_map.rs:19 | the stored type code, bytes 16 to 19; stated by EntryDecodeEncode and EntryEncodeDecode, this function has no contract of its own |
| MemoryMaps.MemoryMap.EntryType | src/memory_map.rs:36-42 | the entry is Available exactly for stored code 1, AvailableWithACPI exactly for 3, and Reserved for every other code |
| MemoryMaps.MemoryMap.IsAvailable | src/memory_map.rs:44-46 | comparing the classification with Available holds exactly when the stored code is 1 |
| MemoryMaps.EntryTypeOf | src/memory_map.rs:36-42 | code 1 classifies as Available, code 3 as AvailableWithACPI and every other code as Reserved, each in both directions |
| MemoryMaps.EntryTypeOfCode | src/memory_map.rs:49-54 | classifying a variant's discriminant (1, 3, 4) gives the variant back; a code is the discriminant of its own classification exactly for 1, 3 and 4 |
| MemoryMaps.EntryDecodeEncode | src/memory_map.rs:15-46 | an entry written as base (u64), length (u64), type (u32), reserved (u32) reads back its base and length, its end address as base + length when that fits in a u64, its raw type, and is available exactly when the type is 1 |
| MemoryMaps.EntryEncodeDecode | src/memory_map.rs:15-21 | the base, length, type and reserved words read from an entry are exactly its 24 bytes |
| MemoryMaps.Slots | src/memory_map.rs:78-99 | the slots the iterator inspects: there are some exactly when the cursor is at or before the last slot, and each lies in that memory between the cursor and the last slot |
| MemoryMaps.SlotsCover | src/memory_map.rs:80-84 | every address cursor + k * entry_size at or before the last slot is inspected: k is a slot index |
| MemoryMaps.AvailableAreas | src/memory_map.rs:78-99 | the entries the iterator yields; each lies between the cursor and the last slot and has stored type code 1 |
| MemoryMaps.SlotsAt | src/memory_map.rs:78-99 | the k-th slot the iterator inspects is the entry at cursor + k * entry_size, and every slot lies at or before the last slot |
| MemoryMaps.AvailableAreasMembers | src/memory_map.rs:78-99 | an entry is yielded exactly when it is one of the inspected slots and its raw type is 1 |
| MemoryMaps.AvailableAreasOrdered | src/memory_map.rs:78-99 | every yielded entry lies between the cursor and the last slot, in the same memory, and entries are yielded at strictly increasing addresses |
| MemoryMaps.AvailableAreasSkipsReserved | src/memory_map.rs:86-93 | three slots of types 1, 2, 1 yield the first and the third entry only |
| MemoryMaps.ThreeEntryExample | src/memory_map.rs:56-99 | a memory-map tag of size 88 with 24-byte entries of types 1, 2, 1 has its last slot at offset 64 and yields the entries at offsets 16 and 64; the first reads base 0, length 0x9FC00, end 0x9FC00 |
| MemoryMaps.MemoryMapTag.LastArea | src/memory_map.rs:63 | the last slot, tag address + (size - entry_size), is the one whose entry_size bytes end exactly where the tag ends |
| MemoryMaps.MemoryMapTag.MemoryAreas | src/memory_map.rs:56-66 | a fresh iterator whose cursor is on the first entry (offset 16), whose last slot is tag address + (size - entry_size) and whose stride is entry_size; what it has left to yield is the tag's available entries |
| MemoryMaps.MemoryMapIterator.Next | src/memory_map.rs:78-99 | returns the first entry still to be yielded and moves the cursor one slot past it, or returns None exactly when no slot up to the last one holds an entry of type 1; the entries left afterwards are the rest; past the last slot nothing changes |
| BasicInfo.BasicMemoryInfoTag.GetMemLower | src/basic_info.rs:15-17 | mem_lower is the u32 whose little-endian bytes are the tag's bytes 8 to 11 |
| BasicInfo.BasicMemoryInfoTag.GetMemUpper | src/basic_info.rs:19-21 | mem_upper is the u32 held in the tag's bytes 12 to 15 |
| BasicInfo.DecodeEncode | src/basic_info.rs:6-21 | a tag written as type, size, mem_lower, mem_upper (four u32) reads back all four, the first two through the generic tag header |
| BasicInfo.EncodeDecode | src/basic_info.rs:6-12 | the four fields read from a basic-memory-information tag are its 16 bytes, nothing more |
| Multiboot2.FindTag | src/lib.rs:55-57 | None exactly when no tag has the searched type; otherwise a tag of that type with no tag of that type before it |
| Multiboot2.FindTagSkip | src/lib.rs:55-57 | a first tag of another type does not change the search result |
| Multiboot2.Multiboot2Info.StartAddress | src/lib.rs:29-31 | the structure's base address as given; no contract of its own, HeaderDecodeEncode relates it to the end address |
| Multiboot2.Multiboot2Info.TotalSize | src/lib.rs:33-35 | total_size is the u32 whose little-endian bytes are the header's first four |
| Multiboot2.Multiboot2Info.EndAddress | src/lib.rs:37-39 | start address + total_size; stated by HeaderDecodeEncode, this function has no contract of its own |
| Multiboot2.Multiboot2Info.AllTags | src/lib.rs:59-61 | the tags yielded from the first tag, 8 bytes after the start, lie inside the structure, each aligned and not the end tag |
| Multiboot2.Multiboot2Info.GetTags | src/lib.rs:59-61 | a fresh tag iterator on the same memory whose cursor is 8 bytes after the start |
| Multiboot2.Multiboot2Info.GetTag | src/lib.rs:55-57 | on a well-formed structure, returns the first tag in walk order whose type is the searched one (a readable tag of that type that is not the end tag), or None when no tag has that type |
| Multiboot2.Multiboot2Info.GetBasicMem | src/lib.rs:41-44 | None exactly when no tag has type 4; otherwise the basic-memory-information view at the first type-4 tag, whose header is that tag |
| Multiboot2.Multiboot2Info.GetMemMap | src/lib.rs:46-49 | None exactly when no tag has type 6; otherwise the memory-map view at the first type-6 tag |
| Multiboot2.HeaderDecodeEncode | src/lib.rs:23-39 | a header written as total_size, reserved reads back total_size, and the structure ends total_size bytes after its start |

## Left out

- `src/elf_sections.rs` is not part of this model: `src/lib.rs` does not declare it as a module, so it is not compiled.
- `load` (src/lib.rs:14-17) is a raw pointer cast; the model takes the memory and the start address as the fields of `Multiboot2Info`.
- The `fmt::Debug` implementations (src/lib.rs:64-80, src/memory_map.rs:102-113, src/basic_info.rs:24-31) only format text and are not modelled.
- Addresses are unbounded naturals: the `usize`/`u64` additions that move the two cursors, and the `as usize` casts of `base_address`, `length` and `total_size`, are not checked for overflow or truncation.
- Reads outside memory are undefined behaviour in the source; every accessor requires the bytes it reads to lie inside the modelled memory.
- Tags.TagIterator.Next: requires `size <= 0xFFFF_FFF8` for a tag that is not the end tag, because `size + 7` would overflow the u32 in the source.
- Tags.TagIterator.Next: the cursor is stated to move forward only for a nonzero size; a tag of size 0 makes the source's iterator return the same tag forever.
- MemoryMaps.MemoryMapTag.LastArea: requires `entry_size <= size`, because `size - entry_size` would underflow the u32 in the source.
- MemoryMaps.MemoryMap.EndAddress: requires `base_address + length` to fit in a u64, because the source's addition would overflow.
- MemoryMaps.MemoryMapIterator.Next: requires `entry_size > 0`; with a zero stride the source never leaves the current slot, recursing without end on a reserved entry and yielding the same entry forever on an available one.
- MemoryMaps.MemoryMapIterator.Next: the source skips a non-available entry by calling itself; the model skips with a loop, and stack depth is not modelled.
- Multiboot2.Multiboot2Info.GetTag: requires a well-formed walk, which the source does not check. Three kinds of structure are excluded. First, a tag before the end tag with a size below 8: a tag's size counts its own 8-byte header, so such a tag is malformed; the source still steps over it, 8 bytes for sizes 1 to 7 and forever for size 0. Second, a tag with a size above 0xFFFF_FFF8, where `size + 7` overflows a u32. Third, a walk that runs past `total_size` bytes or finds no end tag: the source ignores `total_size` and reads memory until it finds a tag of the searched type or an end tag.
- Multiboot2.Multiboot2Info.GetBasicMem: the view it returns is not checked to have the 16 bytes of a basic-memory-information tag, as in the source's pointer cast.
- Rust lifetimes (`&'static`), aliasing of the returned references and the `#[repr]` layout rules are not modelled beyond the field offsets.
