/** The memory that so_load leaves behind, and how it compares with the file. */
module LoadedImage {
  import opened Memory
  import opened Elf
  import opened ElfFile

  /** The bytes of g are at address t of m. */
  ghost predicate Holds(m: Mem, t: int, g: Mem) {
    |m| == SPACE && 0 <= t && t + |g| <= SPACE && forall a | t <= a < t + |g| :: Byte(m, a) == Byte(g, a - t)
  }

  /** The temporary copy of file f once the PT_LOAD headers ls are mapped: so_load has added the
      load address to their p_vaddr. */
  function Patched(f: Mem, ls: seq<int>): (g: Mem)
    ensures |g| == |f|
  {
    if ls == [] then f
    else
      var i := ls[|ls| - 1];
      SetWord(Patched(f, ls[..|ls| - 1]), HeaderAt(f, i) + 8, Add(SegmentAt(f, i).vaddr, LOAD_ADDRESS))
  }

  ghost predicate LoadIndices(f: Mem, ls: seq<int>) {
    forall i | i in ls :: 0 <= i < HeaderCount(f)
  }

  /** The n bytes at offset o meet no patched p_vaddr. */
  ghost predicate Unpatched(f: Mem, ls: seq<int>, o: int, n: int) {
    forall i | i in ls :: o + n <= HeaderAt(f, i) + 8 || HeaderAt(f, i) + 12 <= o
  }

  /** Patching changes p_vaddr of the headers ls and no other byte of the file. */
  lemma {:induction false} PatchedByte(f: Mem, ls: seq<int>, o: int)
    requires Unpatched(f, ls, o, 1)
    ensures Byte(Patched(f, ls), o) == Byte(f, o)
  {
    if ls != [] {
      var rest, i := ls[..|ls| - 1], ls[|ls| - 1];
      assert i in ls;
      PatchedByte(f, rest, o);
      SpliceFrame(Patched(f, rest), HeaderAt(f, i) + 8, WordBytes(Add(SegmentAt(f, i).vaddr, LOAD_ADDRESS)), o);
    }
  }

  /* Reading the temporary copy */

  lemma HeldWord(m: Mem, t: int, g: Mem, o: int)
    requires Holds(m, t, g) && 0 <= o && o + 4 <= |g|
    ensures Word(m, t + o) == Word(g, o)
    ensures Half(m, t + o) == Half(g, o) && Half(m, t + o + 2) == Half(g, o + 2)
  {
    assert Byte(m, t + o) == Byte(g, o) && Byte(m, t + o + 1) == Byte(g, o + 1);
    assert Byte(m, t + o + 2) == Byte(g, o + 2) && Byte(m, t + o + 3) == Byte(g, o + 3);
  }

  lemma HeldField(m: Mem, t: int, f: Mem, ls: seq<int>, o: int)
    requires Holds(m, t, Patched(f, ls)) && Unpatched(f, ls, o, 4) && 0 <= o && o + 4 <= |f|
    ensures Word(m, t + o) == Word(f, o) && Half(m, t + o) == Half(f, o)
    ensures Half(m, t + o + 2) == Half(f, o + 2)
  {
    forall x | o <= x < o + 4
      ensures Byte(f, x) == Byte(Patched(f, ls), x)
    {
      PatchedByte(f, ls, x);
    }
    SameWord(f, Patched(f, ls), o);
    HeldWord(m, t, Patched(f, ls), o);
  }

  lemma UnpatchedOutside(f: Mem, ls: seq<int>, o: int, n: nat)
    requires LoadIndices(f, ls)
    requires o + n <= HeaderTable(f) || HeaderTable(f) + 32 * HeaderCount(f) <= o
    ensures Unpatched(f, ls, o, n)
  {
  }

  lemma UnpatchedField(f: Mem, ls: seq<int>, i: int, k: int)
    requires (0 <= k <= 4 || 12 <= k <= 28) || (k == 8 && i !in ls)
    ensures Unpatched(f, ls, HeaderAt(f, i) + k, 4)
  {
  }

  /** Fields outside the program headers read the same at address t as in the file. */
  lemma HeldOutside(m: Mem, t: int, f: Mem, ls: seq<int>, o: int)
    requires LoadIndices(f, ls) && Holds(m, t, Patched(f, ls)) && 0 <= o && o + 4 <= |f|
    requires o + 4 <= HeaderTable(f) || HeaderTable(f) + 32 * HeaderCount(f) <= o
    ensures Word(m, t + o) == Word(f, o) && Half(m, t + o) == Half(f, o)
    ensures Half(m, t + o + 2) == Half(f, o + 2)
  {
    UnpatchedOutside(f, ls, o, 4);
    HeldField(m, t, f, ls, o);
  }

  /** So does a field of program header i, except for p_vaddr once it is mapped. */
  lemma HeldHeader(m: Mem, t: int, f: Mem, ls: seq<int>, i: int, k: int)
    requires HeadersOk(f) && Holds(m, t, Patched(f, ls)) && 0 <= i < HeaderCount(f)
    requires (0 <= k <= 4 || 12 <= k <= 28) || (k == 8 && i !in ls)
    ensures Word(m, t + HeaderAt(f, i) + k) == Word(f, HeaderAt(f, i) + k)
  {
    UnpatchedField(f, ls, i, k);
    HeldField(m, t, f, ls, HeaderAt(f, i) + k);
    assert t + (HeaderAt(f, i) + k) == t + HeaderAt(f, i) + k;
  }

  lemma HeldSegment(m: Mem, t: int, f: Mem, ls: seq<int>, i: int)
    requires HeadersOk(f) && Holds(m, t, Patched(f, ls)) && 0 <= i < HeaderCount(f)
    ensures var p, s := t + HeaderAt(f, i), SegmentAt(f, i);
            && Word(m, p) == s.kind && Word(m, p + 4) == s.offset && Word(m, p + 16) == s.fileSize
            && Word(m, p + 20) == s.memSize && Word(m, p + 24) == s.flags && Word(m, p + 28) == s.align
            && (i !in ls ==> Word(m, p + 8) == s.vaddr)
  {
    hide Word, Holds;
    HeldHeader(m, t, f, ls, i, 0);
    HeldHeader(m, t, f, ls, i, 4);
    HeldHeader(m, t, f, ls, i, 16);
    HeldHeader(m, t, f, ls, i, 20);
    HeldHeader(m, t, f, ls, i, 24);
    HeldHeader(m, t, f, ls, i, 28);
    if i !in ls {
      HeldHeader(m, t, f, ls, i, 8);
    }
  }

  /** So does a section name. */
  lemma HeldName(m: Mem, t: int, f: Mem, ls: seq<int>, a: int)
    requires LoadIndices(f, ls) && Holds(m, t, Patched(f, ls)) && StringIn(f, a, 0, |f|)
    requires a + |CString(f, a)| < HeaderTable(f) || HeaderTable(f) + 32 * HeaderCount(f) <= a
    ensures CString(m, t + a) == CString(f, a)
  {
    UnpatchedOutside(f, ls, a, |CString(f, a)| + 1);
    forall x | a <= x <= a + |CString(f, a)|
      ensures Byte(f, x) == Byte(m, x + (t + a - a))
    {
      PatchedByte(f, ls, x);
      assert Byte(m, t + x) == Byte(Patched(f, ls), t + x - t);
    }
    ShiftedString(f, a, m, t + a);
  }

  /* Mapping a segment */

  lemma HoldsAfterSplice(m: Mem, t: int, g: Mem, o: int, bs: seq<byte>)
    requires Holds(m, t, g) && 0 <= o && o + |bs| <= |g|
    ensures Holds(Splice(m, t + o, bs), t, Splice(g, o, bs))
  {
    hide Word, Byte, Splice;
    var n, h := Splice(m, t + o, bs), Splice(g, o, bs);
    forall a | t <= a < t + |g|
      ensures Byte(n, a) == Byte(h, a - t)
    {
      SpliceAt(m, t + o, bs, a);
      SpliceAt(g, o, bs, a - t);
    }
  }

  /** Clearing a block and copying part of a file copy into it. */
  lemma ClearAndCopy(m: Mem, t: int, g: Mem, block: int, blockSize: nat, dest: int, from: int, n: nat, a: int)
    requires Holds(m, t, g) && 0 <= from && from + n <= |g|
    requires 0 <= block <= dest && dest + n <= block + blockSize <= SPACE
    requires t + |g| <= block || block + blockSize <= t
    ensures var m2 := Splice(m, block, Zeros(blockSize));
            Byte(Splice(m2, dest, Bytes(m2, t + from, n)), a) ==
              if dest <= a < dest + n then Byte(g, from + (a - dest))
              else if block <= a < block + blockSize then 0
              else Byte(m, a)
  {
    var m2 := Splice(m, block, Zeros(blockSize));
    var source := Bytes(m2, t + from, n);
    SpliceAt(m2, dest, source, a);
    if dest <= a < dest + n {
      var x := t + from + (a - dest);
      assert source[a - dest] == Byte(m2, x);
      SpliceFrame(m, block, Zeros(blockSize), x);
      assert Byte(m, x) == Byte(g, x - t);
    } else {
      SpliceAt(m, block, Zeros(blockSize), a);
    }
  }

  /** What so_load does with one segment: relocate p_vaddr in the header at p of the file copy at
      t to dest, clear the block, copy n bytes of the file range to dest. */
  function MapBytes(m: Mem, t: int, p: int, dest: word, block: int, blockSize: nat, from: int, n: nat): (r: Mem)
    ensures |r| == |m|
  {
    var m2 := Splice(SetWord(m, t + p + 8, dest), block, Zeros(blockSize));
    Splice(m2, dest, Bytes(m2, t + from, n))
  }

  /** The block lies clear of the file copy and holds the relocated file range. */
  predicate Clear(t: int, fileSize: nat, p: int, dest: int, block: int, blockSize: nat, from: int, n: nat) {
    && 0 <= p && p + 12 <= fileSize && 0 <= from && from + n <= fileSize
    && 0 <= block <= dest && dest + n <= block + blockSize <= SPACE
    && (t + fileSize <= block || block + blockSize <= t)
  }

  /** What that leaves: the segment from the patched file copy, zeros in the rest of its block,
      p_vaddr relocated, everything else as before. */
  lemma MappedByte(m: Mem, t: int, g: Mem, p: int, dest: word, block: int, blockSize: nat,
                   from: int, n: nat, a: int)
    requires Holds(m, t, g) && Clear(t, |g|, p, dest, block, blockSize, from, n)
    ensures var h := SetWord(g, p + 8, dest);
            Byte(MapBytes(m, t, p, dest, block, blockSize, from, n), a) ==
              if dest <= a < dest + n then Byte(h, from + (a - dest))
              else if block <= a < block + blockSize then 0
              else if t <= a < t + |g| then Byte(h, a - t)
              else Byte(m, a)
  {
    var h := SetWord(g, p + 8, dest);
    HoldsAfterSplice(m, t, g, p + 8, WordBytes(dest));
    assert t + (p + 8) == t + p + 8;
    var m1 := SetWord(m, t + p + 8, dest);
    ClearAndCopy(m1, t, h, block, blockSize, dest, from, n, a);
    if !(t <= a < t + |g|) {
      SpliceFrame(m, t + p + 8, WordBytes(dest), a);
    }
  }

  lemma MapBytesHolds(m: Mem, t: int, g: Mem, p: int, dest: word, block: int, blockSize: nat, from: int, n: nat)
    requires Holds(m, t, g) && Clear(t, |g|, p, dest, block, blockSize, from, n)
    ensures Holds(MapBytes(m, t, p, dest, block, blockSize, from, n), t, SetWord(g, p + 8, dest))
  {
    var r, h := MapBytes(m, t, p, dest, block, blockSize, from, n), SetWord(g, p + 8, dest);
    forall a | t <= a < t + |g|
      ensures Byte(r, a) == Byte(h, a - t)
    {
      MappedByte(m, t, g, p, dest, block, blockSize, from, n, a);
    }
  }

  /** Segment s of an image at base. */
  function MapSegment(m: Mem, t: int, p: int, s: Segment, base: word, block: int): (n: Mem)
    ensures |n| == |m|
  {
    MapBytes(m, t, p, Add(s.vaddr, base), block, s.blockSize, s.offset, s.fileSize)
  }

  lemma PatchedMore(f: Mem, ls: seq<int>, i: int)
    ensures Patched(f, ls + [i]) ==
      SetWord(Patched(f, ls), HeaderAt(f, i) + 8, Add(SegmentAt(f, i).vaddr, LOAD_ADDRESS))
  {
    assert (ls + [i])[..|ls|] == ls;
  }

  /* Which bytes of the file copy the patches change */

  lemma TopByteMoves(w: word)
    ensures var v := WordBytes(Add(w, LOAD_ADDRESS));
            v[0] == WordBytes(w)[0] && v[1] == WordBytes(w)[1] && v[2] == WordBytes(w)[2] && v[3] != WordBytes(w)[3]
  {
    var bs, v := WordBytes(w), Add(w, LOAD_ADDRESS);
    var top: byte := if bs[3] < 0x68 then bs[3] + 0x98 else bs[3] - 0x68;
    WordOfBytes(w);
    assert w == bs[0] as int + 0x100 * bs[1] as int + 0x1_0000 * bs[2] as int + 0x100_0000 * bs[3] as int;
    assert v == bs[0] as int + 0x100 * bs[1] as int + 0x1_0000 * bs[2] as int + 0x100_0000 * top as int;
    UniqueBytes(v, bs[0], bs[1], bs[2], top);
  }

  lemma UniqueBytes(v: word, b0: byte, b1: byte, b2: byte, b3: byte)
    requires v == b0 as int + 0x100 * b1 as int + 0x1_0000 * b2 as int + 0x100_0000 * b3 as int
    ensures WordBytes(v) == [b0, b1, b2, b3]
  {
    var cs, bs := [b0, b1, b2, b3], WordBytes(v);
    WordOfBytes(v);
    assert Byte(cs, 0) == b0 && Byte(cs, 1) == b1 && Byte(cs, 2) == b2 && Byte(cs, 3) == b3;
    WordInjective(cs, bs, 0);
    assert Byte(bs, 0) == bs[0] && Byte(bs, 1) == bs[1] && Byte(bs, 2) == bs[2] && Byte(bs, 3) == bs[3];
  }

  /** Adding the load address to a p_vaddr changes its top byte and no other. */
  lemma PatchOneByte(g: Mem, p: int, o: int)
    requires 0 <= p && p + 12 <= |g|
    ensures Byte(SetWord(g, p + 8, Add(Word(g, p + 8), LOAD_ADDRESS)), o) == Byte(g, o) <==> o != p + 11
  {
    var w := Word(g, p + 8);
    var bs := WordBytes(Add(w, LOAD_ADDRESS));
    SpliceAt(g, p + 8, bs, o);
    if p + 8 <= o < p + 12 {
      TopByteMoves(w);
      BytesOfWord(g, p + 8, o - (p + 8));
    }
  }

  ghost predicate Distinct(ls: seq<int>) {
    forall i, j | 0 <= i < j < |ls| :: ls[i] != ls[j]
  }

  /** The temporary copy differs from the file in the top byte of p_vaddr of every PT_LOAD header
      mapped so far, and nowhere else. */
  lemma {:induction false} PatchedDiffers(f: Mem, ls: seq<int>, o: int)
    requires HeadersOk(f) && LoadIndices(f, ls) && Distinct(ls)
    ensures Byte(Patched(f, ls), o) == Byte(f, o) <==> forall i | i in ls :: o != HeaderAt(f, i) + 11
  {
    hide Byte, Word, Half, Splice, SetWord;
    if ls != [] {
      var rest, i := ls[..|ls| - 1], ls[|ls| - 1];
      var g, p := Patched(f, rest), HeaderAt(f, i);
      assert i in ls && forall j | j in ls :: j in rest || j == i;
      forall k | 0 <= k < |rest|
        ensures rest[k] != i && rest[k] in ls
      {
        assert rest[k] == ls[k];
      }
      PatchedDiffers(f, rest, o);
      UnpatchedField(f, rest, i, 8);
      PatchedVaddr(f, rest, p + 8);
      PatchOneByte(g, p, o);
      if o == p + 11 {
        assert Byte(g, p + 8 + 3) == Byte(f, p + 8 + 3);
      }
    }
  }

  lemma PatchedVaddr(f: Mem, ls: seq<int>, o: int)
    requires Unpatched(f, ls, o, 4)
    ensures Word(Patched(f, ls), o) == Word(f, o) && Byte(Patched(f, ls), o + 3) == Byte(f, o + 3)
  {
    forall x | o <= x < o + 4
      ensures Byte(f, x) == Byte(Patched(f, ls), x)
    {
      PatchedByte(f, ls, x);
    }
    SameWord(f, Patched(f, ls), o);
  }

  /* The whole image */

  function MapFirst(m: Mem, t: int, f: Mem, x: int): (n: Mem)
    ensures |n| == |m|
  {
    MapSegment(Splice(m, t, f), t, HeaderAt(f, x), SegmentAt(f, x), LOAD_ADDRESS, LOAD_ADDRESS)
  }

  /** Memory after the file has been read to t and the PT_LOAD headers ls have been mapped; there
      are at most two. */
  function MapAll(m: Mem, t: int, f: Mem, ls: seq<int>): (n: Mem)
    ensures |n| == |m|
  {
    if |ls| == 0 then Splice(m, t, f)
    else if |ls| == 1 then MapFirst(m, t, f, ls[0])
    else
      MapSegment(MapFirst(m, t, f, ls[0]), t, HeaderAt(f, ls[1]), SegmentAt(f, ls[1]),
                 LOAD_ADDRESS, LOAD_ADDRESS + SegmentAt(f, ls[0]).blockSize)
  }

  /** n is m after that, and the file copy in it is patched accordingly. */
  ghost predicate MappedMemory(n: Mem, m: Mem, t: int, f: Mem, ls: seq<int>) {
    HeadersOk(f) && LoadIndices(f, ls) && n == MapAll(m, t, f, ls) && Holds(n, t, Patched(f, ls))
  }

  lemma TextStep(n: Mem, m: Mem, t: int, f: Mem, x: int, text: Segment)
    requires MappedMemory(n, m, t, f, []) && 0 <= x < HeaderCount(f) && text == SegmentAt(f, x)
    requires text.vaddr == 0
    requires Clear(t, |f|, HeaderAt(f, x), LOAD_ADDRESS, LOAD_ADDRESS, text.blockSize, text.offset, text.fileSize)
    ensures MappedMemory(MapBytes(n, t, HeaderAt(f, x), LOAD_ADDRESS, LOAD_ADDRESS, text.blockSize,
                                  text.offset, text.fileSize), m, t, f, [x])
  {
    hide Word, Half, Byte, Splice, SetWord, MapBytes, SegmentAt, HeaderAt, Holds, Clear;
    MapBytesHolds(n, t, f, HeaderAt(f, x), LOAD_ADDRESS, LOAD_ADDRESS, text.blockSize, text.offset, text.fileSize);
    PatchedMore(f, [], x);
    assert [] + [x] == [x];
  }

  lemma DataStep(n: Mem, m: Mem, t: int, f: Mem, x: int, d: int, text: Segment, data: Segment)
    requires MappedMemory(n, m, t, f, [x]) && 0 <= d < HeaderCount(f)
    requires text == SegmentAt(f, x) && data == SegmentAt(f, d) && data.vaddr + LOAD_ADDRESS < SPACE
    requires Clear(t, |f|, HeaderAt(f, d), data.vaddr + LOAD_ADDRESS, LOAD_ADDRESS + text.blockSize, data.blockSize,
                   data.offset, data.fileSize)
    ensures MappedMemory(MapBytes(n, t, HeaderAt(f, d), data.vaddr + LOAD_ADDRESS, LOAD_ADDRESS + text.blockSize,
                                  data.blockSize, data.offset, data.fileSize), m, t, f, [x, d])
  {
    hide Word, Half, Byte, Splice, SetWord, MapBytes, SegmentAt, HeaderAt, Holds, Clear, MapFirst;
    MapBytesHolds(n, t, Patched(f, [x]), HeaderAt(f, d), data.vaddr + LOAD_ADDRESS, LOAD_ADDRESS + text.blockSize,
                  data.blockSize, data.offset, data.fileSize);
    PatchedMore(f, [x], d);
    assert [x] + [d] == [x, d];
  }

  /** The blocks that so_load obtained: the file copy at t is clear of the image, the text block
      is at base and the data block right behind it. */
  predicate Placed(t: int, fileSize: nat, text: Segment, data: Segment, base: word) {
    var size := text.blockSize + data.blockSize;
    && 0 <= t && t + fileSize <= SPACE && base + size <= SPACE
    && (t + fileSize <= base || base + size <= t)
    && text.vaddr == 0 && text.fileSize <= text.blockSize
    && text.blockSize <= data.vaddr && data.vaddr + data.fileSize <= size
    && data.vaddr + base < SPACE
    && text.offset + text.fileSize <= fileSize && data.offset + data.fileSize <= fileSize
  }

  /** Two mappings one after the other, the second clear of the first. */
  lemma TwoMappings(m: Mem, t: int, f: Mem, p: int, dest: word, size: nat, from: int, n: nat,
                    p': int, dest': word, size': nat, from': int, n': nat, a: int)
    requires Holds(m, t, f) && Clear(t, |f|, p, dest, dest, size, from, n)
    requires Clear(t, |f|, p', dest', dest + size, size', from', n')
    ensures var g := SetWord(f, p + 8, dest);
            var h := SetWord(g, p' + 8, dest');
            Byte(MapBytes(MapBytes(m, t, p, dest, dest, size, from, n),
                          t, p', dest', dest + size, size', from', n'), a) ==
              if dest <= a < dest + n then Byte(g, from + (a - dest))
              else if dest' <= a < dest' + n' then Byte(h, from' + (a - dest'))
              else if dest <= a < dest + size + size' then 0
              else if t <= a < t + |f| then Byte(h, a - t)
              else Byte(m, a)
  {
    hide Byte, Splice, SetWord, MapBytes, Holds;
    var g := SetWord(f, p + 8, dest);
    var m1 := MapBytes(m, t, p, dest, dest, size, from, n);
    MapBytesHolds(m, t, f, p, dest, dest, size, from, n);
    MappedByte(m1, t, g, p', dest', dest + size, size', from', n', a);
    MappedByte(m, t, f, p, dest, dest, size, from, n, a);
  }

  /** Both segments mapped, for an image at base. */
  function MapTwo(m: Mem, t: int, p: int, text: Segment, p': int, data: Segment, base: word): (n: Mem)
    ensures |n| == |m|
  {
    MapSegment(MapSegment(m, t, p, text, base, base), t, p', data, base, base + text.blockSize)
  }

  /** The flat image: address base + v holds the byte that the segment covering v takes
      from the file copy, or zero.  Mapping the data segment leaves the text block alone.  p and
      p' are where the two program headers are in the file. */
  lemma FlatImage(m: Mem, t: int, f: Mem, p: int, text: Segment, p': int, data: Segment, base: word, a: int)
    requires Holds(m, t, f) && Placed(t, |f|, text, data, base)
    requires 0 <= p && p + 12 <= |f| && 0 <= p' && p' + 12 <= |f|
    ensures var g := SetWord(f, p + 8, Add(text.vaddr, base));
            var h := SetWord(g, p' + 8, Add(data.vaddr, base));
            var v := a - base;
            Byte(MapTwo(m, t, p, text, p', data, base), a) ==
              if 0 <= v < text.fileSize then Byte(g, text.offset + v)
              else if data.vaddr <= v < data.vaddr + data.fileSize then Byte(h, data.offset + (v - data.vaddr))
              else if 0 <= v < text.blockSize + data.blockSize then 0
              else if t <= a < t + |f| then Byte(h, a - t)
              else Byte(m, a)
  {
    hide Byte, Splice, SetWord, MapBytes, Holds;
    var dest, dest' := Add(text.vaddr, base), Add(data.vaddr, base);
    assert dest == base && dest' == data.vaddr + base;
    TwoMappings(m, t, f, p, dest, text.blockSize, text.offset, text.fileSize,
                p', dest', data.blockSize, data.offset, data.fileSize, a);
  }

  lemma FileHeld(m: Mem, t: int, f: Mem)
    requires |m| == SPACE && 0 <= t && t + |f| <= SPACE
    ensures Holds(Splice(m, t, f), t, f)
  {
    forall a | t <= a < t + |f|
      ensures Byte(Splice(m, t, f), a) == Byte(f, a - t)
    {
      SpliceAt(m, t, f, a);
    }
  }

  lemma MapAllTwo(m: Mem, t: int, f: Mem, x: int, d: int, text: Segment, data: Segment)
    requires text == SegmentAt(f, x) && data == SegmentAt(f, d)
    ensures MapAll(m, t, f, [x, d]) ==
      MapTwo(Splice(m, t, f), t, HeaderAt(f, x), text, HeaderAt(f, d), data, LOAD_ADDRESS)
  {
    hide Splice, MapBytes, MapSegment, HeaderAt, SegmentAt;
  }

  lemma PatchedTwo(f: Mem, x: int, d: int)
    ensures var g := SetWord(f, HeaderAt(f, x) + 8, Add(SegmentAt(f, x).vaddr, LOAD_ADDRESS));
            && Patched(f, [x]) == g
            && Patched(f, [x, d]) == SetWord(g, HeaderAt(f, d) + 8, Add(SegmentAt(f, d).vaddr, LOAD_ADDRESS))
  {
    PatchedMore(f, [], x);
    PatchedMore(f, [x], d);
    assert [] + [x] == [x] && [x] + [d] == [x, d];
  }

  ghost predicate Headers(f: Mem, x: int, d: int) {
    HeadersOk(f) && 0 <= x < HeaderCount(f) && 0 <= d < HeaderCount(f) && x != d
  }

  /** A byte of either mapped segment, in terms of the file copy. */
  lemma ImageByte(m: Mem, t: int, f: Mem, x: int, d: int, text: Segment, data: Segment, a: int)
    requires |m| == SPACE && Headers(f, x, d)
    requires text == SegmentAt(f, x) && data == SegmentAt(f, d) && Placed(t, |f|, text, data, LOAD_ADDRESS)
    ensures LOAD_ADDRESS <= a < LOAD_ADDRESS + text.fileSize ==>
      Byte(MapAll(m, t, f, [x, d]), a) == Byte(Patched(f, [x]), text.offset + (a - LOAD_ADDRESS))
    ensures LOAD_ADDRESS + data.vaddr <= a < LOAD_ADDRESS + data.vaddr + data.fileSize ==>
      Byte(MapAll(m, t, f, [x, d]), a) == Byte(Patched(f, [x, d]), data.offset + (a - LOAD_ADDRESS - data.vaddr))
  {
    hide Byte, Splice, SetWord, MapBytes, MapTwo, Holds, SegmentAt, Patched, MapAll, Word, Half;
    MapAllTwo(m, t, f, x, d, text, data);
    PatchedTwo(f, x, d);
    FileHeld(m, t, f);
    FlatImage(Splice(m, t, f), t, f, HeaderAt(f, x), text, HeaderAt(f, d), data, LOAD_ADDRESS, a);
  }

  /** Outside the file ranges of the segments, their blocks are zero. */
  ghost predicate ZeroRest(n: Mem, text: Segment, data: Segment) {
    forall a | && LOAD_ADDRESS + text.fileSize <= a < LOAD_ADDRESS + text.blockSize + data.blockSize
               && !(LOAD_ADDRESS + data.vaddr <= a < LOAD_ADDRESS + data.vaddr + data.fileSize) ::
      Byte(n, a) == 0
  }

  lemma RestIsZero(m: Mem, t: int, f: Mem, x: int, d: int, text: Segment, data: Segment)
    requires |m| == SPACE && Headers(f, x, d)
    requires text == SegmentAt(f, x) && data == SegmentAt(f, d) && Placed(t, |f|, text, data, LOAD_ADDRESS)
    ensures ZeroRest(MapAll(m, t, f, [x, d]), text, data)
  {
    hide Byte, Splice, SetWord, MapBytes, MapTwo, Holds, SegmentAt, MapAll, Word, Half;
    MapAllTwo(m, t, f, x, d, text, data);
    FileHeld(m, t, f);
    forall a | && LOAD_ADDRESS + text.fileSize <= a < LOAD_ADDRESS + text.blockSize + data.blockSize
               && !(LOAD_ADDRESS + data.vaddr <= a < LOAD_ADDRESS + data.vaddr + data.fileSize)
      ensures Byte(MapAll(m, t, f, [x, d]), a) == 0
    {
      FlatImage(Splice(m, t, f), t, f, HeaderAt(f, x), text, HeaderAt(f, d), data, LOAD_ADDRESS, a);
    }
  }

  /** The n bytes at dest of m are those at from of f. */
  ghost predicate Copied(m: Mem, dest: int, f: Mem, from: int, n: nat) {
    forall a | dest <= a < dest + n :: Byte(m, a) == Byte(f, from + (a - dest))
  }

  lemma CopiedUnless(m: Mem, dest: int, f: Mem, from: int, n: nat, odd: set<int>)
    requires forall a | dest <= a < dest + n :: Byte(m, a) == Byte(f, from + (a - dest)) <==> from + (a - dest) !in odd
    ensures Copied(m, dest, f, from, n) <==> forall o | o in odd :: !(from <= o < from + n)
  {
    hide Byte;
    if Copied(m, dest, f, from, n) {
      forall o | o in odd
        ensures !(from <= o < from + n)
      {
        var a := dest + (o - from);
        assert dest <= a < dest + n ==> Byte(m, a) == Byte(f, from + (a - dest));
      }
    }
  }

  /** The text segment equals the file if and only if its file range leaves out the top byte of
      its own p_vaddr.  so_load relocates the header before it copies, so a text segment that
      starts with the ELF headers, as linkers make it, gets the relocated one. */
  lemma TextEqualsFile(m: Mem, t: int, f: Mem, x: int, d: int, text: Segment, data: Segment)
    requires |m| == SPACE && Headers(f, x, d)
    requires text == SegmentAt(f, x) && data == SegmentAt(f, d) && Placed(t, |f|, text, data, LOAD_ADDRESS)
    ensures Copied(MapAll(m, t, f, [x, d]), LOAD_ADDRESS, f, text.offset, text.fileSize) <==>
            !(text.offset <= HeaderAt(f, x) + 11 < text.offset + text.fileSize)
  {
    hide Splice, MapSegment, MapAll, Patched, SegmentAt, Word, Half, Byte, HeaderAt;
    var n, top := MapAll(m, t, f, [x, d]), HeaderAt(f, x) + 11;
    forall a | LOAD_ADDRESS <= a < LOAD_ADDRESS + text.fileSize
      ensures Byte(n, a) == Byte(f, text.offset + (a - LOAD_ADDRESS)) <==> text.offset + (a - LOAD_ADDRESS) !in {top}
    {
      ImageByte(m, t, f, x, d, text, data, a);
      PatchedDiffers(f, [x], text.offset + (a - LOAD_ADDRESS));
    }
    CopiedUnless(n, LOAD_ADDRESS, f, text.offset, text.fileSize, {top});
    assert top in {top};
  }

  /** The same for the data segment, which is copied after both headers are relocated. */
  lemma DataEqualsFile(m: Mem, t: int, f: Mem, x: int, d: int, text: Segment, data: Segment)
    requires |m| == SPACE && Headers(f, x, d)
    requires text == SegmentAt(f, x) && data == SegmentAt(f, d) && Placed(t, |f|, text, data, LOAD_ADDRESS)
    ensures Copied(MapAll(m, t, f, [x, d]), LOAD_ADDRESS + data.vaddr, f, data.offset, data.fileSize) <==>
            !(data.offset <= HeaderAt(f, x) + 11 < data.offset + data.fileSize) &&
            !(data.offset <= HeaderAt(f, d) + 11 < data.offset + data.fileSize)
  {
    hide Splice, MapSegment, MapAll, Patched, SegmentAt, Word, Half, Byte, HeaderAt;
    var n, start := MapAll(m, t, f, [x, d]), LOAD_ADDRESS + data.vaddr;
    var tops := {HeaderAt(f, x) + 11, HeaderAt(f, d) + 11};
    forall a | start <= a < start + data.fileSize
      ensures Byte(n, a) == Byte(f, data.offset + (a - start)) <==> data.offset + (a - start) !in tops
    {
      ImageByte(m, t, f, x, d, text, data, a);
      PatchedDiffers(f, [x, d], data.offset + (a - start));
      assert x in [x, d] && d in [x, d];
    }
    CopiedUnless(n, start, f, data.offset, data.fileSize, tops);
    assert HeaderAt(f, x) + 11 in tops && HeaderAt(f, d) + 11 in tops;
  }

  /* A text segment alone */

  /** The blocks that so_load obtained when there is no second segment. */
  predicate PlacedAlone(t: int, fileSize: nat, text: Segment) {
    && 0 <= t && t + fileSize <= SPACE && LOAD_ADDRESS + text.blockSize <= SPACE
    && (t + fileSize <= LOAD_ADDRESS || LOAD_ADDRESS + text.blockSize <= t)
    && text.vaddr == 0 && text.fileSize <= text.blockSize && text.offset + text.fileSize <= fileSize
  }

  lemma AloneByte(m: Mem, t: int, f: Mem, x: int, text: Segment, a: int)
    requires |m| == SPACE && HeadersOk(f) && 0 <= x < HeaderCount(f)
    requires text == SegmentAt(f, x) && PlacedAlone(t, |f|, text)
    ensures Byte(MapAll(m, t, f, [x]), a) ==
      if LOAD_ADDRESS <= a < LOAD_ADDRESS + text.fileSize then Byte(Patched(f, [x]), text.offset + (a - LOAD_ADDRESS))
      else if LOAD_ADDRESS <= a < LOAD_ADDRESS + text.blockSize then 0
      else if t <= a < t + |f| then Byte(Patched(f, [x]), a - t)
      else Byte(m, a)
  {
    hide Byte, Splice, SetWord, MapBytes, Holds, SegmentAt, Word, Half, MapAll, Patched;
    FileHeld(m, t, f);
    MapAllOne(m, t, f, x, text);
    MappedByte(Splice(m, t, f), t, f, HeaderAt(f, x), LOAD_ADDRESS, LOAD_ADDRESS, text.blockSize,
               text.offset, text.fileSize, a);
    if !(t <= a < t + |f|) {
      OutsideCopy(m, t, f, a);
    }
  }

  lemma MapAllOne(m: Mem, t: int, f: Mem, x: int, text: Segment)
    requires text == SegmentAt(f, x) && text.vaddr == 0
    ensures MapAll(m, t, f, [x]) == MapBytes(Splice(m, t, f), t, HeaderAt(f, x), LOAD_ADDRESS, LOAD_ADDRESS,
                                             text.blockSize, text.offset, text.fileSize)
    ensures Patched(f, [x]) == SetWord(f, HeaderAt(f, x) + 8, LOAD_ADDRESS)
  {
    hide Splice, SetWord, MapBytes, HeaderAt, SegmentAt;
    PatchedMore(f, [], x);
    assert [] + [x] == [x];
  }

  lemma OutsideCopy(m: Mem, t: int, f: Mem, a: int)
    requires !(t <= a < t + |f|)
    ensures Byte(Splice(m, t, f), a) == Byte(m, a)
  {
    hide Byte;
    SpliceFrame(m, t, f, a);
  }

  /** The segment equals the file under the same condition, and the rest of its block is zero. */
  lemma AloneEqualsFile(m: Mem, t: int, f: Mem, x: int, text: Segment)
    requires |m| == SPACE && HeadersOk(f) && 0 <= x < HeaderCount(f)
    requires text == SegmentAt(f, x) && PlacedAlone(t, |f|, text)
    ensures Copied(MapAll(m, t, f, [x]), LOAD_ADDRESS, f, text.offset, text.fileSize) <==>
            !(text.offset <= HeaderAt(f, x) + 11 < text.offset + text.fileSize)
    ensures forall a | LOAD_ADDRESS + text.fileSize <= a < LOAD_ADDRESS + text.blockSize ::
              Byte(MapAll(m, t, f, [x]), a) == 0
  {
    hide Splice, MapAll, Patched, SegmentAt, Word, Half, Byte, HeaderAt, HeadersOk;
    var n, top := MapAll(m, t, f, [x]), HeaderAt(f, x) + 11;
    forall a | LOAD_ADDRESS <= a < LOAD_ADDRESS + text.fileSize
      ensures Byte(n, a) == Byte(f, text.offset + (a - LOAD_ADDRESS)) <==> text.offset + (a - LOAD_ADDRESS) !in {top}
    {
      AloneByte(m, t, f, x, text, a);
      PatchedDiffers(f, [x], text.offset + (a - LOAD_ADDRESS));
    }
    CopiedUnless(n, LOAD_ADDRESS, f, text.offset, text.fileSize, {top});
    assert top in {top};
    forall a | LOAD_ADDRESS + text.fileSize <= a < LOAD_ADDRESS + text.blockSize
      ensures Byte(n, a) == 0
    {
      AloneByte(m, t, f, x, text, a);
    }
  }

  /** The image that so_load describes in its globals when the file copy is at t and the text block at
      base.  The size of the string table is in the file; the program does not keep it. */
  function ImageOf(f: Mem, t: word, base: word): Image {
    Image(t, |f|, base, ImageSize(f), Add(t, SectionTable(f)), Add(t, NameTable(f)),
          TableAddress(f, base, ".dynsym", SectionsIn(f)), SymbolCount(f, SectionsIn(f)),
          TableAddress(f, base, ".dynstr", SectionsIn(f)), TableSize(f, ".dynstr", SectionsIn(f)))
  }

  /** The file has a symbol table and a string table, and neither would lie at address 0. */
  predicate HasTables(f: Mem, base: word) {
    && TableAddress(f, base, ".dynsym", SectionsIn(f)) != 0
    && TableAddress(f, base, ".dynstr", SectionsIn(f)) != 0
  }

  /** The text block and the data block behind it. */
  function ImageSize(f: Mem): nat {
    var ls := AllLoads(f);
    if |ls| == 0 then 0
    else if |ls| == 1 then SegmentAt(f, ls[0]).blockSize
    else SegmentAt(f, ls[0]).blockSize + SegmentAt(f, ls[1]).blockSize
  }

  /** The n bytes at t lie in the address space and clear of the image. */
  predicate ClearOfImage(t: int, n: nat, v: Image) {
    t + n <= SPACE && (t + n <= v.base || v.base + v.size <= t)
  }
}
