/** The process that so_util.c runs in: one flat memory, the kernel's memory blocks, open files.
    Every load and store must hit a live block, so a use of freed memory does not verify. */
module Kernel {
  import opened Memory
  import opened Options
  import opened Arm

  datatype Block = Block(base: int, size: int) {
    predicate Has(x: int) { base <= x < base + size }
  }

  predicate Overlap(b: Block, c: Block) {
    b.base < c.base + c.size && c.base < b.base + b.size
  }

  const POISON: byte := 0xdd

  class Process {
    const mem: array<byte>
    /** Live memory blocks by uid. */
    var blocks: map<int, Block>
    /** Every uid that was passed to sceKernelFreeMemBlock, in order. */
    var frees: seq<int>
    /** How many allocations the kernel has refused. */
    var refusals: nat
    var openFiles: set<int>
    /** The constructors that have been called, in order. */
    var calls: seq<word>

    constructor ()
      ensures Valid() && blocks == map[] && frees == [] && refusals == 0 && openFiles == {} && calls == []
      ensures fresh(mem)
    {
      mem := new byte[0x1_0000_0000](i => 0);
      blocks, frees, refusals, openFiles, calls := map[], [], 0, {}, [];
    }

    ghost predicate Valid()
      reads this`blocks
    {
      && mem.Length == SPACE
      && (forall u | u in blocks :: 0 < u && 0 <= blocks[u].base && 0 < blocks[u].size
                                    && blocks[u].base + blocks[u].size < SPACE)
      && (forall u, w | u in blocks && w in blocks && u != w :: !Overlap(blocks[u], blocks[w]))
    }

    /** Address x belongs to a live block. */
    ghost predicate Live(x: int)
      reads this`blocks
    {
      exists u :: u in blocks && blocks[u].Has(x)
    }

    ghost predicate Mapped(lo: int, n: int)
      reads this`blocks
    {
      forall x | lo <= x < lo + n :: Live(x)
    }

    lemma MappedInSpace(lo: int, n: int)
      requires Valid() && Mapped(lo, n) && 0 < n
      ensures 0 <= lo && lo + n < SPACE
    {
      assert Live(lo) && Live(lo + n - 1);
    }

    lemma BlockMapped(u: int, lo: int, n: int)
      requires u in blocks && blocks[u].base <= lo && lo + n <= blocks[u].base + blocks[u].size
      ensures Mapped(lo, n)
    {
      forall x | lo <= x < lo + n
        ensures Live(x)
      {
        assert blocks[u].Has(x);
      }
    }

    lemma BlocksApart(u: int, w: int)
      requires Valid() && u in blocks && w in blocks && u != w
      ensures !Overlap(blocks[u], blocks[w])
    {
    }

    /* Memory access */

    method LoadHalf(a: int) returns (h: int)
      requires Valid() && Mapped(a, 2)
      ensures h == Half(mem[..], a)
    {
      MappedInSpace(a, 2);
      h := mem[a] as int + 0x100 * mem[a + 1] as int;
    }

    method LoadWord(a: int) returns (w: word)
      requires Valid() && Mapped(a, 4)
      ensures w == Word(mem[..], a)
    {
      MappedInSpace(a, 4);
      w := mem[a] as int + 0x100 * mem[a + 1] as int + 0x1_0000 * mem[a + 2] as int + 0x100_0000 * mem[a + 3] as int;
    }

    /** The C string at a, for strcmp. */
    method LoadString(a: int) returns (s: string)
      requires Valid() && Mapped(a, |CString(mem[..], a)| + 1)
      ensures s == CString(mem[..], a)
    {
      s := CString(mem[..], a);
    }

    method LoadBytes(a: int, n: nat) returns (bs: seq<byte>)
      requires Valid() && Mapped(a, n)
      ensures bs == Bytes(mem[..], a, n)
    {
      bs := Bytes(mem[..], a, n);
    }

    method Memcpy(a: int, bs: seq<byte>)
      requires Valid() && Mapped(a, |bs|)
      modifies mem
      ensures mem[..] == Splice(old(mem[..]), a, bs)
    {
      if bs == [] {
        return;
      }
      MappedInSpace(a, |bs|);
      forall i | 0 <= i < |bs| {
        mem[a + i] := bs[i];
      }
      assert mem[..] == old(mem[..])[..a] + bs + old(mem[..])[a + |bs|..];
    }

    method StoreWord(a: int, w: word)
      requires Valid() && Mapped(a, 4)
      modifies mem
      ensures mem[..] == SetWord(old(mem[..]), a, w)
    {
      Memcpy(a, WordBytes(w));
    }

    /* Kernel blocks */

    predicate Unused(b: Block)
      reads this`blocks
    {
      forall u | u in blocks :: !Overlap(blocks[u], b)
    }

    /** sceKernelAllocMemBlock and kuKernelAllocMemBlock followed by sceKernelGetMemBlockBase.  The
        kernel may always refuse.  It never hands out an empty block or memory in use, and it
        honours a requested base address. */
    method AllocBlock(size: word, at: Option<word>) returns (uid: int, base: word)
      requires Valid()
      modifies this`blocks, this`refusals
      ensures Valid()
      ensures refusals == old(refusals) + if uid < 0 then 1 else 0
      ensures uid < 0 ==> blocks == old(blocks)
      ensures uid >= 0 ==>
        && uid !in old(blocks) && 0 < uid && 0 < size && base + size < SPACE
        && blocks == old(blocks)[uid := Block(base, size)]
        && (forall u | u in old(blocks) :: !Overlap(old(blocks)[u], Block(base, size)))
        && (at.Some? ==> base == at.value)
      ensures forall x | old(Live(x)) :: Live(x)
    {
      var u: int, b: word := *, *;
      if at.Some? {
        b := at.value;
      }
      if 0 < u && u !in blocks && 0 < size && b + size < SPACE && Unused(Block(b, size)) {
        blocks := blocks[u := Block(b, size)];
        forall x | old(Live(x))
          ensures Live(x)
        {
          var w :| w in old(blocks) && old(blocks)[w].Has(x);
          assert w in blocks && blocks[w].Has(x);
        }
        return u, b;
      }
      refusals := refusals + 1;
      return -1, 0;
    }

    /** sceKernelFreeMemBlock.  Only a live block may be freed, or uid 0, which no block has and which is
        an error without effect.  The contents of a freed block are lost. */
    method FreeBlock(uid: int)
      requires Valid() && (uid in blocks || uid == 0)
      modifies this`blocks, this`frees, mem
      ensures Valid()
      ensures frees == old(frees) + [uid]
      ensures blocks == old(blocks) - {uid}
      ensures forall x | 0 <= x < SPACE && !(uid in old(blocks) && old(blocks)[uid].Has(x)) ::
        mem[x] == old(mem[x])
      ensures forall x | old(Live(x)) && !(uid in old(blocks) && old(blocks)[uid].Has(x)) :: Live(x)
    {
      frees := frees + [uid];
      if uid in blocks {
        var lo, hi := blocks[uid].base, blocks[uid].base + blocks[uid].size;
        forall x | lo <= x < hi {
          mem[x] := POISON;
        }
        blocks := blocks - {uid};
      }
      forall x | old(Live(x)) && !(uid in old(blocks) && old(blocks)[uid].Has(x))
        ensures Live(x)
      {
        var w :| w in old(blocks) && old(blocks)[w].Has(x);
        assert w in blocks && blocks[w].Has(x);
      }
    }

    /** A call into the game: effect says what the code at an address does to memory. */
    method CallGame(entry: word, effect: (word, Mem) -> Mem)
      requires Valid() && |effect(entry, mem[..])| == SPACE
      modifies this`calls, mem
      ensures Valid() && calls == old(calls) + [entry]
      ensures mem[..] == effect(entry, old(mem[..]))
    {
      var after := effect(entry, mem[..]);
      calls := calls + [entry];
      forall i | 0 <= i < mem.Length {
        mem[i] := after[i];
      }
    }

    /* Hooks */

    method HookThumb(addr: word, dst: word)
      requires Valid()
      requires var h := ThumbHook(addr, dst); Mapped(h.Start(), h.Length())
      modifies mem
      ensures mem[..] == ApplyHook(old(mem[..]), ThumbHook(addr, dst))
    {
      if addr == 0 {
        return;
      }
      var a := addr - addr % 2;
      if a / 2 % 2 == 1 {
        Memcpy(a, HalfBytes(NOP));
        a := a + 2;
      }
      Memcpy(a, WordBytes(LDR_PC_THUMB) + WordBytes(dst));
    }

    method HookArm(addr: word, dst: word)
      requires Valid()
      requires var h := ArmHook(addr, dst); Mapped(h.Start(), h.Length())
      modifies mem
      ensures mem[..] == ApplyHook(old(mem[..]), ArmHook(addr, dst))
    {
      if addr == 0 {
        return;
      }
      Memcpy(addr, WordBytes(LDR_PC_ARM) + WordBytes(dst));
    }
  }
}
