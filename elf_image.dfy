/** `load_elf` in util.py, from the point where the ELF library has handed
    over the program headers and the sections: the chunks of section data
    that land in flash are collected, sorted by physical address and painted
    into one zero-filled buffer. */
module ElfImage {
  import opened Bytes
  import opened Errors
  import opened DeviceInfo

  /** The program header fields `load_elf` reads: p_paddr, p_vaddr, p_memsz. */
  datatype ProgramHeader = ProgramHeader(pPaddr: nat, pVaddr: nat, pMemsz: nat)

  /** A section: sh_addr and its contents (`data_size` is their length). */
  datatype Section = Section(shAddr: nat, data: seq<byte>)

  /** Section data tagged with the flash address it is loaded at. */
  datatype Chunk = Chunk(paddr: nat, data: seq<byte>)

  /** A load address and the bytes to place there. */
  datatype Image = Image(addr: int, data: seq<byte>)

  /** `_is_in_header`. */
  predicate IsInHeader(vaddr: int, size: int, h: ProgramHeader)
  {
    vaddr >= h.pVaddr && vaddr + size <= h.pVaddr + h.pMemsz
  }

  /** A non-empty range passes `_is_in_header` exactly when every one of its
      addresses lies in [p_vaddr, p_vaddr + p_memsz). */
  lemma IsInHeaderAddresses(vaddr: int, size: int, h: ProgramHeader)
    requires size > 0
    ensures IsInHeader(vaddr, size, h) <==> Contained(vaddr, size, h.pVaddr, h.pMemsz)
  {
    if Contained(vaddr, size, h.pVaddr, h.pMemsz) {
      assert Within(vaddr, vaddr, size);
      assert Within(vaddr + size - 1, vaddr, size);
    }
  }

  // ---------------------------------------------------------------------
  // Chunk collection

  /** A program header whose physical range lies in flash; the others are
      skipped with a warning. */
  predicate Loadable(h: ProgramHeader, info: BlInfo)
  {
    IsInFlash(h.pPaddr, h.pMemsz, info)
  }

  /** A non-empty section that lies inside the header's virtual range. */
  predicate Placed(s: Section, h: ProgramHeader)
  {
    |s.data| > 0 && IsInHeader(s.shAddr, |s.data|, h)
  }

  /** The section's data at the header's physical base plus the section's
      offset inside the header's virtual range. */
  function ChunkOf(h: ProgramHeader, s: Section): Chunk
    requires Placed(s, h)
  {
    Chunk(h.pPaddr + (s.shAddr - h.pVaddr), s.data)
  }

  /** The chunks one loadable header contributes, in section order. */
  function SectionChunks(h: ProgramHeader, ss: seq<Section>): seq<Chunk>
    decreases |ss|
  {
    if ss == [] then []
    else
      var s := ss[|ss| - 1];
      SectionChunks(h, ss[..|ss| - 1]) + (if Placed(s, h) then [ChunkOf(h, s)] else [])
  }

  /** The chunks of all headers, in header order and then section order. */
  function Collected(hs: seq<ProgramHeader>, ss: seq<Section>, info: BlInfo): seq<Chunk>
    decreases |hs|
  {
    if hs == [] then []
    else
      var h := hs[|hs| - 1];
      Collected(hs[..|hs| - 1], ss, info) + (if Loadable(h, info) then SectionChunks(h, ss) else [])
  }

  /** The nested loops of `load_elf` that append to `chunks`. */
  method CollectChunks(hs: seq<ProgramHeader>, ss: seq<Section>, info: BlInfo) returns (chunks: seq<Chunk>)
    ensures chunks == Collected(hs, ss, info)
  {
    chunks := [];
    var i := 0;
    while i < |hs|
      invariant 0 <= i <= |hs|
      invariant chunks == Collected(hs[..i], ss, info)
    {
      var h := hs[i];
      assert hs[..i + 1][..i] == hs[..i];
      if IsInFlash(h.pPaddr, h.pMemsz, info) {
        var j := 0;
        while j < |ss|
          invariant 0 <= j <= |ss|
          invariant chunks == Collected(hs[..i], ss, info) + SectionChunks(h, ss[..j])
        {
          var sec := ss[j];
          assert ss[..j + 1][..j] == ss[..j];
          if |sec.data| > 0 && IsInHeader(sec.shAddr, |sec.data|, h) {
            var offset := sec.shAddr - h.pVaddr;
            chunks := chunks + [Chunk(h.pPaddr + offset, sec.data)];
          }
          j := j + 1;
        }
        assert ss[..j] == ss;
      }
      i := i + 1;
    }
    assert hs[..i] == hs;
  }

  lemma {:induction false} SectionChunksMembers(h: ProgramHeader, ss: seq<Section>, c: Chunk)
    ensures c in SectionChunks(h, ss) <==> exists j :: 0 <= j < |ss| && Placed(ss[j], h) && c == ChunkOf(h, ss[j])
    decreases |ss|
  {
    if ss != [] {
      var init := ss[..|ss| - 1];
      SectionChunksMembers(h, init, c);
      if c in SectionChunks(h, init) {
        var j :| 0 <= j < |init| && Placed(init[j], h) && c == ChunkOf(h, init[j]);
        assert ss[j] == init[j];
      }
      if exists j :: 0 <= j < |ss| && Placed(ss[j], h) && c == ChunkOf(h, ss[j]) {
        var j :| 0 <= j < |ss| && Placed(ss[j], h) && c == ChunkOf(h, ss[j]);
        if j < |init| {
          assert init[j] == ss[j];
        }
      }
    }
  }

  /** A chunk is collected exactly when some header lies in flash and some
      non-empty section lies inside that header's virtual range, and the chunk
      is that section's data placed at p_paddr + (sh_addr - p_vaddr). */
  lemma {:induction false} CollectedMembers(hs: seq<ProgramHeader>, ss: seq<Section>, info: BlInfo, c: Chunk)
    ensures c in Collected(hs, ss, info) <==>
      exists i, j :: 0 <= i < |hs| && 0 <= j < |ss| && Loadable(hs[i], info)
        && Placed(ss[j], hs[i]) && c == ChunkOf(hs[i], ss[j])
    decreases |hs|
  {
    if hs != [] {
      var init := hs[..|hs| - 1];
      var h := hs[|hs| - 1];
      CollectedMembers(init, ss, info, c);
      SectionChunksMembers(h, ss, c);
      if c in Collected(init, ss, info) {
        var i, j :| 0 <= i < |init| && 0 <= j < |ss| && Loadable(init[i], info)
          && Placed(ss[j], init[i]) && c == ChunkOf(init[i], ss[j]);
        assert hs[i] == init[i];
      }
      if exists i, j :: 0 <= i < |hs| && 0 <= j < |ss| && Loadable(hs[i], info)
          && Placed(ss[j], hs[i]) && c == ChunkOf(hs[i], ss[j]) {
        var i, j :| 0 <= i < |hs| && 0 <= j < |ss| && Loadable(hs[i], info)
          && Placed(ss[j], hs[i]) && c == ChunkOf(hs[i], ss[j]);
        if i < |init| {
          assert init[i] == hs[i];
        }
      }
    }
  }

  // ---------------------------------------------------------------------
  // Sorting (`chunks.sort(key=lambda x: x.paddr)`, a stable sort)

  predicate SortedByPaddr(cs: seq<Chunk>)
  {
    forall i, j :: 0 <= i < j < |cs| ==> cs[i].paddr <= cs[j].paddr
  }

  /** The chunks of `cs` whose address is `a`, in their order in `cs`. */
  function AtPaddr(cs: seq<Chunk>, a: nat): seq<Chunk>
    decreases |cs|
  {
    if cs == [] then []
    else (if cs[0].paddr == a then [cs[0]] else []) + AtPaddr(cs[1..], a)
  }

  /** Places `c` in front of the first chunk whose address is not below its
      own, so that it stays ahead of the chunks with the same address. */
  function Insert(c: Chunk, cs: seq<Chunk>): (r: seq<Chunk>)
    ensures |r| == |cs| + 1
    ensures multiset(r) == multiset{c} + multiset(cs)
    decreases |cs|
  {
    if cs == [] || c.paddr <= cs[0].paddr then [c] + cs
    else
      assert cs == [cs[0]] + cs[1..];
      [cs[0]] + Insert(c, cs[1..])
  }

  lemma {:induction false} InsertSorted(c: Chunk, cs: seq<Chunk>)
    requires SortedByPaddr(cs)
    ensures SortedByPaddr(Insert(c, cs))
    decreases |cs|
  {
    if cs != [] && c.paddr > cs[0].paddr {
      var rest := Insert(c, cs[1..]);
      InsertSorted(c, cs[1..]);
      forall j | 0 <= j < |rest| ensures cs[0].paddr <= rest[j].paddr {
        assert rest[j] in multiset(rest);
        if rest[j] != c {
          assert rest[j] in multiset(cs[1..]);
        }
      }
    }
  }

  /** The order `list.sort` leaves the chunks in. */
  function SortByPaddr(cs: seq<Chunk>): (r: seq<Chunk>)
    ensures SortedByPaddr(r)
    ensures multiset(r) == multiset(cs)
    ensures |r| == |cs|
    decreases |cs|
  {
    if cs == [] then []
    else
      assert cs == [cs[0]] + cs[1..];
      InsertSorted(cs[0], SortByPaddr(cs[1..]));
      Insert(cs[0], SortByPaddr(cs[1..]))
  }

  lemma {:induction false} InsertAtPaddr(c: Chunk, cs: seq<Chunk>, a: nat)
    ensures AtPaddr(Insert(c, cs), a) == (if c.paddr == a then [c] else []) + AtPaddr(cs, a)
    decreases |cs|
  {
    if cs == [] || c.paddr <= cs[0].paddr {
      assert ([c] + cs)[1..] == cs;
    } else {
      InsertAtPaddr(c, cs[1..], a);
      assert ([cs[0]] + Insert(c, cs[1..]))[1..] == Insert(c, cs[1..]);
    }
  }

  /** The sort is stable: the chunks that share an address keep the order
      they were collected in, so later-collected chunks still overwrite
      earlier ones at the same address. */
  lemma {:induction false} SortByPaddrStable(cs: seq<Chunk>, a: nat)
    ensures AtPaddr(SortByPaddr(cs), a) == AtPaddr(cs, a)
    decreases |cs|
  {
    if cs != [] {
      SortByPaddrStable(cs[1..], a);
      InsertAtPaddr(cs[0], SortByPaddr(cs[1..]), a);
    }
  }

  // ---------------------------------------------------------------------
  // Merging

  predicate AllFrom(cs: seq<Chunk>, base: nat)
  {
    forall i :: 0 <= i < |cs| ==> cs[i].paddr >= base
  }

  /** The buffer after `buf[start:end] = c.data` for each chunk in turn,
      with `start = c.paddr - base`. */
  function Paint(buf: seq<byte>, cs: seq<Chunk>, base: nat): seq<byte>
    requires AllFrom(cs, base)
    decreases |cs|
  {
    if cs == [] then buf
    else
      var c := cs[|cs| - 1];
      var start := c.paddr - base;
      SliceAssign(Paint(buf, cs[..|cs| - 1], base), start, start + |c.data|, c.data)
  }

  /** The merge loop of `load_elf`: a zero buffer from the first chunk's
      address to the end of the last chunk, painted with every chunk. */
  function Merge(cs: seq<Chunk>): (r: Result<Image>)
    requires SortedByPaddr(cs)
  {
    if cs == [] then Err(NoLoadableSegments)
    else
      var minAddr := cs[0].paddr;
      var maxAddr := cs[|cs| - 1].paddr + |cs[|cs| - 1].data|;
      Ok(Image(minAddr, Paint(Zeros(maxAddr - minAddr), cs, minAddr)))
  }

  method MergeChunks(chunks: seq<Chunk>) returns (r: Result<Image>)
    requires SortedByPaddr(chunks)
    ensures r == Merge(chunks)
  {
    if |chunks| == 0 {
      return Err(NoLoadableSegments);
    }
    var minAddr := chunks[0].paddr;
    var maxAddr := chunks[|chunks| - 1].paddr + |chunks[|chunks| - 1].data|;
    SortedFromFirst(chunks);
    var img := PaintChunks(Zeros(maxAddr - minAddr), chunks, minAddr);
    return Ok(Image(minAddr, img));
  }

  /** The loop `buf[start:end] = c.data` over the chunks in order. */
  method PaintChunks(buf: seq<byte>, chunks: seq<Chunk>, base: nat) returns (img: seq<byte>)
    requires AllFrom(chunks, base)
    ensures img == Paint(buf, chunks, base)
  {
    img := buf;
    for k := 0 to |chunks|
      invariant img == Paint(buf, chunks[..k], base)
    {
      var c := chunks[k];
      var start := c.paddr - base;
      var end := start + |c.data|;
      PaintStep(buf, chunks, base, k);
      img := SliceAssign(img, start, end, c.data);
    }
    assert chunks[..|chunks|] == chunks;
  }

  lemma SortedFromFirst(cs: seq<Chunk>)
    requires SortedByPaddr(cs) && cs != []
    ensures AllFrom(cs, cs[0].paddr)
  {
  }

  /** Painting one more chunk of `cs` is one more slice assignment. */
  lemma PaintStep(buf: seq<byte>, cs: seq<Chunk>, base: nat, k: nat)
    requires AllFrom(cs, base) && k < |cs|
    ensures AllFrom(cs[..k], base) && AllFrom(cs[..k + 1], base)
    ensures Paint(buf, cs[..k + 1], base) ==
      SliceAssign(Paint(buf, cs[..k], base), cs[k].paddr - base, cs[k].paddr - base + |cs[k].data|, cs[k].data)
  {
    assert cs[..k + 1][..k] == cs[..k];
  }

  /** The image `load_elf` returns for the headers and sections of a file. */
  function LoadedElf(hs: seq<ProgramHeader>, ss: seq<Section>, info: BlInfo): Result<Image>
  {
    Merge(SortByPaddr(Collected(hs, ss, info)))
  }

  method LoadElf(hs: seq<ProgramHeader>, ss: seq<Section>, info: BlInfo) returns (r: Result<Image>)
    ensures r == LoadedElf(hs, ss, info)
  {
    var chunks := CollectChunks(hs, ss, info);
    chunks := SortByPaddr(chunks);
    r := MergeChunks(chunks);
  }

  // ---------------------------------------------------------------------
  // What the merge produces

  /** Chunk `c` covers offset `o` of a buffer that starts at `base`. */
  predicate Covers(c: Chunk, base: nat, o: int)
  {
    c.paddr - base <= o < c.paddr - base + |c.data|
  }

  /** The index of the last chunk covering offset `o`, or -1 when no chunk
      covers it. */
  function LastCover(cs: seq<Chunk>, base: nat, o: int): (k: int)
    ensures -1 <= k < |cs|
    ensures k >= 0 ==> Covers(cs[k], base, o)
    ensures forall j :: k < j < |cs| ==> !Covers(cs[j], base, o)
    decreases |cs|
  {
    if cs == [] then -1
    else if Covers(cs[|cs| - 1], base, o) then |cs| - 1
    else LastCover(cs[..|cs| - 1], base, o)
  }

  /** The largest chunk end, as an offset from `base` (0 without chunks). */
  function End(cs: seq<Chunk>, base: nat): int
    decreases |cs|
  {
    if cs == [] then 0
    else Max(End(cs[..|cs| - 1], base), cs[|cs| - 1].paddr - base + |cs[|cs| - 1].data|)
  }

  /** The byte of the painted buffer at offset `o`: the last chunk covering
      it, or the buffer's original byte. */
  function PaintedByte(buf: seq<byte>, cs: seq<Chunk>, base: nat, o: nat): byte
  {
    var k := LastCover(cs, base, o);
    if k >= 0 && 0 <= o - (cs[k].paddr - base) < |cs[k].data| then cs[k].data[o - (cs[k].paddr - base)]
    else if o < |buf| then buf[o]
    else 0
  }

  lemma SliceAssignAt(buf: seq<byte>, start: nat, data: seq<byte>)
    requires start <= |buf|
    ensures var r := SliceAssign(buf, start, start + |data|, data);
      && |r| == Max(|buf|, start + |data|)
      && (forall o :: 0 <= o < start ==> r[o] == buf[o])
      && (forall o :: start <= o < start + |data| ==> r[o] == data[o - start])
      && (forall o :: start + |data| <= o < |r| ==> r[o] == buf[o])
  {
  }

  lemma {:induction false} PaintAt(buf: seq<byte>, cs: seq<Chunk>, base: nat)
    requires AllFrom(cs, base)
    requires forall i :: 0 <= i < |cs| ==> cs[i].paddr - base <= |buf|
    ensures |Paint(buf, cs, base)| == Max(|buf|, End(cs, base))
    ensures forall o :: 0 <= o < |Paint(buf, cs, base)| ==>
      Paint(buf, cs, base)[o] == PaintedByte(buf, cs, base, o)
    decreases |cs|
  {
    if cs != [] {
      var init := cs[..|cs| - 1];
      var c := cs[|cs| - 1];
      var start := c.paddr - base;
      assert forall i :: 0 <= i < |init| ==> init[i] == cs[i];
      PaintAt(buf, init, base);
      var p := Paint(buf, init, base);
      SliceAssignAt(p, start, c.data);
      var r := Paint(buf, cs, base);
      assert r == SliceAssign(p, start, start + |c.data|, c.data);
      forall o | 0 <= o < |r|
        ensures r[o] == PaintedByte(buf, cs, base, o)
      {
        LastCoverStep(cs, base, o);
        if !Covers(c, base, o) {
          assert o < |p| && r[o] == p[o];
          var k := LastCover(init, base, o);
          if k >= 0 {
            assert cs[k] == init[k];
          }
        }
      }
    }
  }

  /** The last chunk covering `o` is the final one if that covers it, and
      otherwise the last covering one among the others. */
  lemma LastCoverStep(cs: seq<Chunk>, base: nat, o: int)
    requires cs != []
    ensures !Covers(cs[|cs| - 1], base, o) ==> LastCover(cs, base, o) == LastCover(cs[..|cs| - 1], base, o)
    ensures Covers(cs[|cs| - 1], base, o) ==> LastCover(cs, base, o) == |cs| - 1
  {
  }

  /** The merged image starts at the smallest chunk address, spans up to the
      furthest chunk end, and holds at every offset the byte of the last
      (in sorted order) chunk covering it, or zero where no chunk does. */
  lemma MergeAt(cs: seq<Chunk>)
    requires SortedByPaddr(cs) && cs != []
    ensures Merge(cs).Ok?
    ensures Merge(cs).value.addr == cs[0].paddr
    ensures forall c :: c in cs ==> Merge(cs).value.addr <= c.paddr
    ensures |Merge(cs).value.data| == End(cs, cs[0].paddr)
    ensures forall o :: 0 <= o < |Merge(cs).value.data| ==>
      Merge(cs).value.data[o] == PaintedByte([], cs, cs[0].paddr, o)
  {
    var base := cs[0].paddr;
    var last := cs[|cs| - 1];
    var buf := Zeros(last.paddr + |last.data| - base);
    PaintAt(buf, cs, base);
    EndAtLeastLast(cs, base);
    var img := Paint(buf, cs, base);
    forall o | 0 <= o < |img| ensures img[o] == PaintedByte([], cs, base, o) {
    }
  }

  lemma {:induction false} EndAtLeastLast(cs: seq<Chunk>, base: nat)
    requires cs != []
    ensures End(cs, base) >= cs[|cs| - 1].paddr - base + |cs[|cs| - 1].data|
  {
  }

  /** When no chunk ends past the end of the last-sorted chunk, the buffer
      never grows and the image is exactly max_addr - min_addr long. */
  lemma MergeLength(cs: seq<Chunk>)
    requires SortedByPaddr(cs) && cs != []
    requires forall i :: 0 <= i < |cs| ==>
      cs[i].paddr + |cs[i].data| <= cs[|cs| - 1].paddr + |cs[|cs| - 1].data|
    ensures |Merge(cs).value.data| == cs[|cs| - 1].paddr + |cs[|cs| - 1].data| - cs[0].paddr
  {
    MergeAt(cs);
    EndBounded(cs, cs[0].paddr, cs[|cs| - 1].paddr + |cs[|cs| - 1].data| - cs[0].paddr);
    EndAtLeastLast(cs, cs[0].paddr);
  }

  lemma {:induction false} EndBounded(cs: seq<Chunk>, base: nat, bound: int)
    requires bound >= 0
    requires forall i :: 0 <= i < |cs| ==> cs[i].paddr - base + |cs[i].data| <= bound
    ensures End(cs, base) <= bound
    decreases |cs|
  {
    if cs != [] {
      var init := cs[..|cs| - 1];
      assert forall i :: 0 <= i < |init| ==> init[i] == cs[i];
      EndBounded(init, base, bound);
    }
  }

  /** `load_elf` fails exactly when no chunk was collected; otherwise the
      image starts at the smallest collected address and holds, at each offset,
      the last covering chunk of the sorted list, or zero. */
  lemma LoadedElfAt(hs: seq<ProgramHeader>, ss: seq<Section>, info: BlInfo)
    ensures var cs := Collected(hs, ss, info);
      && (LoadedElf(hs, ss, info).Err? <==> cs == [])
      && (cs == [] ==> LoadedElf(hs, ss, info) == Err(NoLoadableSegments))
      && (cs != [] ==>
            var img := LoadedElf(hs, ss, info).value;
            var sorted := SortByPaddr(cs);
            && (exists c :: c in cs && c.paddr == img.addr)
            && (forall c :: c in cs ==> img.addr <= c.paddr)
            && |img.data| == End(sorted, img.addr)
            && forall o :: 0 <= o < |img.data| ==> img.data[o] == PaintedByte([], sorted, img.addr, o))
  {
    var cs := Collected(hs, ss, info);
    var sorted := SortByPaddr(cs);
    if cs != [] {
      MergeAt(sorted);
      assert sorted[0] in multiset(cs);
      forall c | c in cs ensures sorted[0].paddr <= c.paddr {
        assert c in multiset(sorted);
      }
    }
  }

  /** Two sections of one loadable header, "AA" at 0x1000 and "BB" at 0x1004,
      give "AA\0\0BB" at 0x1000. */
  lemma ExampleImage()
    ensures LoadedElf([ProgramHeader(0x1000, 0x1000, 0x10)],
                     [Section(0x1000, [0x41, 0x41]), Section(0x1004, [0x42, 0x42])],
                     BlInfo(0x1000, 0x1000, 0x1000, 0x1000, 0x100, 0x400))
      == Ok(Image(0x1000, [0x41, 0x41, 0x00, 0x00, 0x42, 0x42]))
  {
    var a, b := Chunk(0x1000, [0x41, 0x41]), Chunk(0x1004, [0x42, 0x42]);
    ExampleChunks();
    assert SortByPaddr([a, b]) == Insert(a, SortByPaddr([b]));
    assert SortByPaddr([a, b]) == [a, b];
    ExampleMerge();
  }

  lemma ExampleChunks()
    ensures Collected([ProgramHeader(0x1000, 0x1000, 0x10)],
                      [Section(0x1000, [0x41, 0x41]), Section(0x1004, [0x42, 0x42])],
                      BlInfo(0x1000, 0x1000, 0x1000, 0x1000, 0x100, 0x400))
      == [Chunk(0x1000, [0x41, 0x41]), Chunk(0x1004, [0x42, 0x42])]
  {
    var h := ProgramHeader(0x1000, 0x1000, 0x10);
    var ss := [Section(0x1000, [0x41, 0x41]), Section(0x1004, [0x42, 0x42])];
    assert ss[..1] == [ss[0]];
    assert [ss[0]][..0] == [];
    assert Placed(ss[0], h) && Placed(ss[1], h);
    assert SectionChunks(h, ss) == [ChunkOf(h, ss[0])] + [ChunkOf(h, ss[1])];
    assert [h][..0] == [];
  }

  lemma ExampleMerge()
    ensures Merge([Chunk(0x1000, [0x41, 0x41]), Chunk(0x1004, [0x42, 0x42])])
      == Ok(Image(0x1000, [0x41, 0x41, 0x00, 0x00, 0x42, 0x42]))
  {
    var a, b := Chunk(0x1000, [0x41, 0x41]), Chunk(0x1004, [0x42, 0x42]);
    var z := Zeros(6);
    assert [a, b][..1] == [a];
    assert [a][..0] == [];
    var p1 := SliceAssign(z, 0, 2, a.data);
    assert p1 == [0x41, 0x41, 0, 0, 0, 0];
    assert Paint(z, [a], 0x1000) == p1;
    assert SliceAssign(p1, 4, 6, b.data) == [0x41, 0x41, 0x00, 0x00, 0x42, 0x42];
  }
}
