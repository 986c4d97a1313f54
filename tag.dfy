/** Tags of the boot-information blob and the iterator that walks them
    (section 3.6 of the Multiboot2 Specification, version 2.0). */
module Tags {
  import opened Layout

  /** The tag types the root view looks up, with their type codes. */
  datatype TagType = BasicMemoryInfo | MemoryMap {
    /** The enum's discriminant; the two discriminants differ. */
    function Code(): (c: u32)
      ensures c == 4 <==> this.BasicMemoryInfo?
      ensures c == 6 <==> this.MemoryMap?
    {
      match this
      case BasicMemoryInfo => 4
      case MemoryMap => 6
    }
  }

  /** Every tag starts with the packed header `tag_type: u32` @0, `size: u32` @4. */
  const TagHeaderSize: nat := 8

  /** The largest `size` for which `size + 7` does not overflow a u32. */
  const MaxTagSize: nat := 0xFFFF_FFF8

  /** A reference to the tag whose header starts at `address`. */
  datatype Tag = Tag(mem: seq<byte>, address: nat) {

    predicate Readable() {
      address + TagHeaderSize <= |mem|
    }

    function TagType(): u32
      requires Readable()
    {
      U32At(mem, address)
    }

    /** The tag's size in bytes, header included, padding excluded. */
    function Size(): u32
      requires Readable()
    {
      U32At(mem, address + 4)
    }

    /** The terminating tag: type 0 AND size 8. A type-0 tag of any other size
        is an ordinary tag. */
    predicate IsEnd()
      requires Readable()
    {
      TagType() == 0 && Size() == 8
    }
  }

  /** The stride from a tag to the next, `(size + 7) & !7`: clearing the low
      three bits subtracts the remainder modulo 8 (see MaskIsRoundDown). The
      result is the least multiple of 8 that is at least `size`. */
  function Align8(size: u32): (r: nat)
    requires size <= MaxTagSize
    ensures r % 8 == 0 && size <= r < size + 8
  {
    (size + 7) - (size + 7) % 8
  }

  /** On 32-bit words, masking with `!7` is rounding down to a multiple of 8.
      For a size of at most MaxTagSize, `size + 7` does not wrap, so the word
      subtraction and remainder here agree with the integer ones in Align8,
      and Align8 computes the source's expression. */
  lemma MaskIsRoundDown(x: bv32)
    ensures (x + 7) & !7 == (x + 7) - (x + 7) % 8
  {
  }

  /** Align8 rounds up to the NEAREST multiple of 8: no multiple of 8 that is
      at least `size` lies below it. Size 8 gives 8, sizes 9 to 16 give 16. */
  lemma Align8Least(size: u32, m: int)
    requires size <= MaxTagSize && m % 8 == 0 && size <= m
    ensures Align8(size) <= m
  {
  }

  /** The tags yielded by walking from `off`, in address order, when the walk
      reaches an end tag inside `[off, end)` and every tag before it has a
      size of at least 8 bytes and lies inside `[off, end)`; `None` when the
      bytes below `end` do not form such a walk. */
  ghost function TagsFrom(mem: seq<byte>, off: nat, end: nat): (r: Option<seq<Tag>>)
    requires end <= |mem|
    ensures r.Some? ==> off + TagHeaderSize * (|r.value| + 1) <= end
    decreases end - off
  {
    if off + TagHeaderSize > end then None
    else
      var t := Tag(mem, off);
      if t.IsEnd() then Some([])
      else if t.Size() < TagHeaderSize || t.Size() > MaxTagSize || off + t.Size() > end then None
      else
        match TagsFrom(mem, off + Align8(t.Size()), end)
        case None => None
        case Some(rest) => Some([t] + rest)
  }

  /** The address of the end tag at which a well-formed walk from `off` stops. */
  ghost function EndTagAddress(mem: seq<byte>, off: nat, end: nat): (a: nat)
    requires end <= |mem| && TagsFrom(mem, off, end).Some?
    ensures off <= a && a + TagHeaderSize <= end && (a - off) % 8 == 0
    ensures Tag(mem, a).IsEnd()
    decreases end - off
  {
    TagsFromStep(mem, off, end);
    var t := Tag(mem, off);
    if t.IsEnd() then off
    else
      var next := off + Align8(t.Size());
      var a := EndTagAddress(mem, next, end);
      AlignedDistance(a, next, off);
      a
  }

  /** The end tag comes right after the last tag the walk yields: at `off`
      when the walk is empty, else one stride after its last tag. */
  lemma {:induction false} EndTagFollows(mem: seq<byte>, off: nat, end: nat)
    requires end <= |mem| && TagsFrom(mem, off, end).Some?
    ensures var ts := TagsFrom(mem, off, end).value;
            && (ts == [] ==> EndTagAddress(mem, off, end) == off)
            && (ts != [] ==>
                  var last := ts[|ts| - 1];
                  && last.Readable() && last.Size() <= MaxTagSize
                  && EndTagAddress(mem, off, end) == last.address + Align8(last.Size()))
    decreases end - off
  {
    TagsFromStep(mem, off, end);
    var ts := TagsFrom(mem, off, end).value;
    if ts != [] {
      var t := Tag(mem, off);
      var next := off + Align8(t.Size());
      EndTagFollows(mem, next, end);
      var rest := TagsFrom(mem, next, end).value;
      assert rest == ts[1..];
      if rest != [] {
        assert ts[|ts| - 1] == rest[|rest| - 1];
      }
    }
  }

  /** Distances that are multiples of 8 add up to a multiple of 8. */
  lemma AlignedDistance(a: int, b: int, c: int)
    requires (a - b) % 8 == 0 && (b - c) % 8 == 0
    ensures (a - c) % 8 == 0
  {
    assert a - c == (a - b) + (b - c);
  }

  /** What one step of the walk does: an empty walk is exactly an end tag at
      `off`; otherwise the first tag is the one at `off` and the rest of the
      walk starts `Align8(size)` bytes further on. */
  lemma TagsFromStep(mem: seq<byte>, off: nat, end: nat)
    requires end <= |mem| && TagsFrom(mem, off, end).Some?
    ensures off + TagHeaderSize <= end
    ensures TagsFrom(mem, off, end).value == [] <==> Tag(mem, off).IsEnd()
    ensures TagsFrom(mem, off, end).value != [] ==>
              var t := Tag(mem, off);
              && TagsFrom(mem, off, end).value[0] == t
              && TagHeaderSize <= t.Size() <= MaxTagSize
              && TagsFrom(mem, off + Align8(t.Size()), end) == Some(TagsFrom(mem, off, end).value[1..])
  {
  }

  /** The walk from where the iterator moves after a tag of a well-formed walk
      is the rest of that walk. */
  lemma TagsFromNext(mem: seq<byte>, cur: nat, end: nat, rest: seq<Tag>, next: nat)
    requires end <= |mem| && TagsFrom(mem, cur, end) == Some(rest) && rest != []
    requires rest[0].Size() <= MaxTagSize && next == cur + Align8(rest[0].Size())
    ensures TagsFrom(mem, next, end) == Some(rest[1..])
  {
    TagsFromStep(mem, cur, end);
  }

  /** What holds of every tag a well-formed walk from `off` yields: it lies
      inside `[off, end)` at an 8-byte-aligned distance from `off`, has a size
      of at least 8 and is not the end tag. */
  ghost predicate InWalk(t: Tag, mem: seq<byte>, off: nat, end: nat) {
    && t.mem == mem
    && off <= t.address
    && (t.address - off) % 8 == 0
    && t.Readable()
    && !t.IsEnd()
    && TagHeaderSize <= t.Size() <= MaxTagSize
    && t.address + t.Size() <= end
  }

  /** A tag of the walk from `next` is one of the walk from `off` when `next`
      is an 8-byte-aligned distance past `off`. */
  lemma InWalkWiden(t: Tag, mem: seq<byte>, off: nat, next: nat, end: nat)
    requires off <= next && (next - off) % 8 == 0 && InWalk(t, mem, next, end)
    ensures InWalk(t, mem, off, end)
  {
    AlignedDistance(t.address, next, off);
  }

  /** The shape of a well-formed walk: every tag satisfies InWalk, the first
      sits at `off` and each next one exactly `Align8(size)` after its
      predecessor. */
  lemma {:induction false} TagsFromShape(mem: seq<byte>, off: nat, end: nat)
    requires end <= |mem| && TagsFrom(mem, off, end).Some?
    ensures var ts := TagsFrom(mem, off, end).value;
            && (ts != [] ==> ts[0].address == off)
            && (forall i | 0 <= i < |ts| :: InWalk(ts[i], mem, off, end))
            && (forall i | 0 <= i < |ts| - 1 ::
                  ts[i + 1].address == ts[i].address + Align8(ts[i].Size()))
    decreases end - off
  {
    var t := Tag(mem, off);
    var ts := TagsFrom(mem, off, end).value;
    if !t.IsEnd() {
      var next := off + Align8(t.Size());
      TagsFromShape(mem, next, end);
      var rest := TagsFrom(mem, next, end).value;
      TagsFromStep(mem, off, end);
      assert ts == [t] + rest;
      forall i | 1 <= i < |ts| ensures InWalk(ts[i], mem, off, end) {
        assert ts[i] == rest[i - 1];
        InWalkWiden(ts[i], mem, off, next, end);
      }
      forall i | 0 <= i < |ts| - 1
        ensures ts[i + 1].address == ts[i].address + Align8(ts[i].Size())
      {
        if i > 0 {
          assert ts[i] == rest[i - 1] && ts[i + 1] == rest[i];
        }
      }
    }
  }

  /** The walk visits tags in strictly increasing address order. */
  lemma {:induction false} TagsFromAscending(mem: seq<byte>, off: nat, end: nat, i: nat, j: nat)
    requires end <= |mem| && TagsFrom(mem, off, end).Some?
    requires i < j < |TagsFrom(mem, off, end).value|
    ensures TagsFrom(mem, off, end).value[i].address < TagsFrom(mem, off, end).value[j].address
    decreases j - i
  {
    TagsFromShape(mem, off, end);
    var ts := TagsFrom(mem, off, end).value;
    if i + 1 < j {
      TagsFromAscending(mem, off, end, i + 1, j);
    }
  }

  /** The iterator over the top-level tags: a cursor holding the address of
      the next tag to look at. */
  class TagIterator {
    const mem: seq<byte>
    var currentTag: nat

    constructor (mem: seq<byte>, currentTag: nat)
      ensures this.mem == mem && this.currentTag == currentTag
    {
      this.mem := mem;
      this.currentTag := currentTag;
    }

    /** At the end tag: `None`, and the cursor stays on the end tag, so every
        later call is `None` too. Otherwise: the tag under the cursor, and the
        cursor moves `Align8(size)` bytes on. */
    method Next() returns (r: Option<Tag>)
      requires currentTag + TagHeaderSize <= |mem|
      requires !Tag(mem, currentTag).IsEnd() ==> Tag(mem, currentTag).Size() <= MaxTagSize
      modifies this
      ensures var t := Tag(mem, old(currentTag));
              if t.IsEnd() then r == None && currentTag == old(currentTag)
              else r == Some(t) && currentTag == old(currentTag) + Align8(t.Size())
      ensures old(currentTag) % 8 == 0 ==> currentTag % 8 == 0
      ensures r.Some? && r.value.Size() > 0 ==> old(currentTag) < currentTag
    {
      var t := Tag(mem, currentTag);
      if t.TagType() == 0 && t.Size() == 8 {
        r := None;
      } else {
        var stride := Align8(t.Size());
        if currentTag % 8 == 0 {
          AlignedDistance(currentTag + stride, currentTag, 0);
        }
        currentTag := currentTag + stride;
        r := Some(t);
      }
    }
  }
}
