/** The trampolines of hook_thumb and hook_arm, and just enough of an ARMv7 processor to say
    what they do: NOP and LDR (literal) with the program counter as its destination. */
module Arm {
  import opened Memory

  /** Running(thumb, pc) executes at pc in Thumb or ARM state.  Unpredictable is where the
      architecture gives no guarantee; Unmodelled is any instruction this model leaves out. */
  datatype Cpu = Running(thumb: bool, pc: int) | Unpredictable | Unmodelled

  /** An interworking branch (BXWritePC): bit 0 selects Thumb state. */
  function BranchTo(v: word): Cpu {
    if v % 2 == 1 then Running(true, v - 1)
    else if v % 4 == 0 then Running(false, v)
    else Unpredictable
  }

  /** LDR PC, [PC, #+/-imm]: the base is the program counter rounded down to a word, and a load
      of PC from an unaligned address is unpredictable (ARM DDI 0406C, A8.8.64). */
  function LoadPc(m: Mem, pcValue: int, up: bool, imm: int): Cpu {
    var address := Add(pcValue - pcValue % 4, if up then imm else -imm);
    if address % 4 == 0 then BranchTo(Word(m, address)) else Unpredictable
  }

  /** LDR (literal) is f8df/f85f with its destination in the top four bits of the second halfword,
      and the 12-bit offset below them. */
  function StepThumb(m: Mem, pc: int, first: int, second: int): Cpu {
    if first == 0xbf00 then Running(true, pc + 2)
    else if (first == 0xf8df || first == 0xf85f) && 0xf000 <= second then
      LoadPc(m, pc + 4, first == 0xf8df, second - 0xf000)
    else Unmodelled
  }

  function StepArm(m: Mem, pc: int, w: word): Cpu {
    if 0xe59ff000 <= w <= 0xe59fffff then LoadPc(m, pc + 8, true, w - 0xe59ff000)
    else if 0xe51ff000 <= w <= 0xe51fffff then LoadPc(m, pc + 8, false, w - 0xe51ff000)
    else Unmodelled
  }

  /** One instruction.  The program counter reads 4 ahead in Thumb state, 8 ahead in ARM state. */
  function Step(m: Mem, c: Cpu): Cpu {
    match c
    case Running(true, pc) => StepThumb(m, pc, Half(m, pc), Half(m, pc + 2))
    case Running(false, pc) => StepArm(m, pc, Word(m, pc))
    case _ => c
  }

  function Run(m: Mem, c: Cpu, steps: nat): Cpu
    decreases steps
  {
    if steps == 0 then c else Run(m, Step(m, c), steps - 1)
  }

  /* The hooks */

  const NOP := 0xbf00
  const LDR_PC_THUMB: word := 0xf000f8df
  const LDR_PC_ARM: word := 0xe51ff004

  /** One call of hook_thumb or hook_arm. */
  datatype Hook = ThumbHook(addr: word, dst: word) | ArmHook(addr: word, dst: word) {
    /** hook_thumb clears the Thumb bit of the address before it writes. */
    function Start(): int {
      if ThumbHook? then addr - addr % 2 else addr
    }

    /** Bit 1 of a Thumb address asks for a NOP in front. */
    predicate Padded() {
      ThumbHook? && addr / 2 % 2 == 1
    }

    function Length(): int {
      if addr == 0 then 0 else if Padded() then 10 else 8
    }

    predicate Covers(x: int) {
      Start() <= x < Start() + Length()
    }

    /** How a caller of the hooked function enters it. */
    function Entry(): Cpu {
      Running(ThumbHook?, Start())
    }

    function Steps(): nat {
      if Padded() then 2 else 1
    }

    /** The trampoline can run: there is one, it lies inside the address space, and an ARM
        instruction is word aligned. */
    predicate Sound() {
      addr != 0 && Start() + Length() <= SPACE && (ArmHook? ==> addr % 4 == 0)
    }
  }

  function ApplyHook(m: Mem, h: Hook): (r: Mem)
    ensures |r| == |m|
  {
    if h.addr == 0 then m
    else match h
      case ThumbHook(_, dst) =>
        var a := h.Start();
        var ldr := WordBytes(LDR_PC_THUMB) + WordBytes(dst);
        if h.Padded() then Splice(Splice(m, a, HalfBytes(NOP)), a + 2, ldr) else Splice(m, a, ldr)
      case ArmHook(addr, dst) =>
        Splice(m, addr, WordBytes(LDR_PC_ARM) + WordBytes(dst))
  }

  function ApplyHooks(m: Mem, hs: seq<Hook>): (r: Mem)
    ensures |r| == |m|
  {
    if hs == [] then m else ApplyHook(ApplyHooks(m, hs[..|hs| - 1]), hs[|hs| - 1])
  }

  predicate DisjointHooks(hs: seq<Hook>) {
    forall i, j | 0 <= i < j < |hs| ::
      hs[i].Start() + hs[i].Length() <= hs[j].Start() || hs[j].Start() + hs[j].Length() <= hs[i].Start()
  }

  predicate Installed(m: Mem, h: Hook) {
    var at := if h.Padded() then h.Start() + 2 else h.Start();
    && (h.Padded() ==> Half(m, h.Start()) == NOP)
    && Word(m, at) == (if h.ThumbHook? then LDR_PC_THUMB else LDR_PC_ARM)
    && Word(m, at + 4) == h.dst
  }

  lemma SpliceTwoWords(m: Mem, a: int, v: word, w: word)
    requires 0 <= a && a + 8 <= |m|
    ensures var n := Splice(m, a, WordBytes(v) + WordBytes(w));
            Word(n, a) == v && Word(n, a + 4) == w
  {
    var bs := WordBytes(v) + WordBytes(w);
    var n := Splice(m, a, bs);
    assert forall k | 0 <= k < 8 :: bs[k] == if k < 4 then WordBytes(v)[k] else WordBytes(w)[k - 4];
    WordFromBytes(n, a, v);
    WordFromBytes(n, a + 4, w);
  }

  lemma HookInstalls(m: Mem, h: Hook)
    requires h.Sound() && |m| == SPACE
    ensures Installed(ApplyHook(m, h), h)
  {
    var at := if h.Padded() then h.Start() + 2 else h.Start();
    var n := if h.Padded() then Splice(m, h.Start(), HalfBytes(NOP)) else m;
    SpliceTwoWords(n, at, if h.ThumbHook? then LDR_PC_THUMB else LDR_PC_ARM, h.dst);
    if h.Padded() {
      assert Byte(n, h.Start()) == 0 && Byte(n, h.Start() + 1) == 0xbf;
    }
  }

  /** Everything that hook_thumb and hook_arm write, and that they write nothing for a null address. */
  lemma HookIs(m: Mem, h: Hook)
    requires |m| == SPACE && (h.addr != 0 ==> h.Sound())
    ensures h.addr == 0 ==> ApplyHook(m, h) == m
    ensures h.addr != 0 && h.ArmHook? ==>
              && Word(ApplyHook(m, h), h.addr) == 0xe51ff004 && Word(ApplyHook(m, h), h.addr + 4) == h.dst
              && forall x | !(h.addr <= x < h.addr + 8) :: Byte(ApplyHook(m, h), x) == Byte(m, x)
    ensures h.addr != 0 && h.ThumbHook? ==>
              var n, a := ApplyHook(m, h), h.addr - h.addr % 2;
              if a % 4 == 0 then
                && Word(n, a) == 0xf000f8df && Word(n, a + 4) == h.dst
                && forall x | !(a <= x < a + 8) :: Byte(n, x) == Byte(m, x)
              else
                && Half(n, a) == 0xbf00 && Word(n, a + 2) == 0xf000f8df && Word(n, a + 6) == h.dst
                && forall x | !(a <= x < a + 10) :: Byte(n, x) == Byte(m, x)
  {
    if h.addr != 0 {
      hide Word, Half, Byte;
      HookInstalls(m, h);
      HookFrames(m, h);
      if h.ThumbHook? {
        PaddingAligns(h);
      }
    }
  }

  lemma HookFrames(m: Mem, h: Hook)
    ensures forall x | !h.Covers(x) :: Byte(ApplyHook(m, h), x) == Byte(m, x)
  {
    hide Byte, ApplyHook;
    forall x | !h.Covers(x)
      ensures Byte(ApplyHook(m, h), x) == Byte(m, x)
    {
      HookFrame(m, h, x);
    }
  }

  /** A hook writes nothing outside its footprint. */
  lemma HookFrame(m: Mem, h: Hook, x: int)
    requires !h.Covers(x)
    ensures Byte(ApplyHook(m, h), x) == Byte(m, x)
  {
    if h.addr != 0 {
      var at := if h.Padded() then h.Start() + 2 else h.Start();
      var n := if h.Padded() then Splice(m, h.Start(), HalfBytes(NOP)) else m;
      if h.Padded() {
        SpliceFrame(m, h.Start(), HalfBytes(NOP), x);
      }
      SpliceFrame(n, at, WordBytes(if h.ThumbHook? then LDR_PC_THUMB else LDR_PC_ARM) + WordBytes(h.dst), x);
    }
  }

  lemma {:induction false} HooksFrame(m: Mem, hs: seq<Hook>, x: int)
    requires forall h | h in hs :: !h.Covers(x)
    ensures Byte(ApplyHooks(m, hs), x) == Byte(m, x)
  {
    if hs != [] {
      HooksFrame(m, hs[..|hs| - 1], x);
      HookFrame(ApplyHooks(m, hs[..|hs| - 1]), hs[|hs| - 1], x);
    }
  }

  lemma InstalledByBytes(m: Mem, n: Mem, h: Hook)
    requires h.addr != 0 && Installed(m, h)
    requires forall x | h.Covers(x) :: Byte(m, x) == Byte(n, x)
    ensures Installed(n, h)
  {
    var at := if h.Padded() then h.Start() + 2 else h.Start();
    assert forall x | h.Start() <= x < h.Start() + h.Length() :: h.Covers(x);
    SameWord(m, n, at);
    SameWord(m, n, at + 4);
    SameWord(m, n, h.Start());
  }

  lemma {:induction false} HooksInstall(m: Mem, hs: seq<Hook>, k: int)
    requires |m| == SPACE && DisjointHooks(hs)
    requires 0 <= k < |hs| && hs[k].Sound()
    ensures Installed(ApplyHooks(m, hs), hs[k])
  {
    hide Word, Half, Byte;
    var rest, last := hs[..|hs| - 1], hs[|hs| - 1];
    var before := ApplyHooks(m, rest);
    if k == |hs| - 1 {
      HookInstalls(before, last);
    } else {
      HooksInstall(m, rest, k);
      assert rest[k] == hs[k];
      forall x | hs[k].Covers(x)
        ensures Byte(before, x) == Byte(ApplyHook(before, last), x)
      {
        HookFrame(before, last, x);
      }
      InstalledByBytes(before, ApplyHook(before, last), hs[k]);
    }
  }

  lemma LoadPcFrom(m: Mem, pcValue: int, up: bool, imm: int, address: int)
    requires address == pcValue - pcValue % 4 + (if up then imm else -imm)
    requires 0 <= address < SPACE && address % 4 == 0
    ensures LoadPc(m, pcValue, up, imm) == BranchTo(Word(m, address))
  {
    assert Add(pcValue - pcValue % 4, if up then imm else -imm) == address;
  }

  lemma ThumbLdrHalves(m: Mem, at: int)
    requires Word(m, at) == LDR_PC_THUMB
    ensures Half(m, at) == 0xf8df && Half(m, at + 2) == 0xf000
  {
    hide Word, Half;
    WordFromHalves(m, at);
  }

  lemma ModFour(q: int, r: int)
    requires 0 <= r < 4
    ensures (4 * q + r) % 4 == r
  {
  }

  /** The literal of LDR PC, [PC] at 4 * q + r is at 4 * q + 4. */
  lemma ThumbLdrStep(m: Mem, at: int, q: int, r: int)
    requires 0 <= at && at + 8 <= SPACE && at == 4 * q + r && 0 <= r < 4 && Word(m, at) == LDR_PC_THUMB
    ensures Step(m, Running(true, at)) == BranchTo(Word(m, 4 * q + 4))
  {
    hide Word, Half, BranchTo, LoadPc;
    ThumbLdrHalves(m, at);
    ModFour(q + 1, r);
    ModFour(q + 1, 0);
    assert at + 4 == 4 * (q + 1) + r;
    LoadPcFrom(m, at + 4, true, 0, 4 * q + 4);
  }

  lemma ArmLdrStep(m: Mem, at: int)
    requires 0 <= at && at + 8 <= SPACE && at % 4 == 0 && Word(m, at) == LDR_PC_ARM
    ensures Step(m, Running(false, at)) == BranchTo(Word(m, at + 4))
  {
    hide Word, Half, BranchTo, LoadPc;
    LoadPcFrom(m, at + 8, false, 4, at + 4);
    assert StepArm(m, at, LDR_PC_ARM) == BranchTo(Word(m, at + 4));
  }

  lemma RunOne(m: Mem, c: Cpu, d: Cpu)
    requires Step(m, c) == d
    ensures Run(m, c, 1) == d
  {
    assert Run(m, d, 0) == d;
  }

  lemma RunTwo(m: Mem, c: Cpu, d: Cpu, e: Cpu)
    requires Step(m, c) == d && Step(m, d) == e
    ensures Run(m, c, 2) == e
  {
    RunOne(m, d, e);
    assert Run(m, c, 2) == Run(m, d, 1);
  }

  lemma NopStep(m: Mem, pc: int)
    requires Half(m, pc) == NOP
    ensures Step(m, Running(true, pc)) == Running(true, pc + 2)
  {
  }

  lemma PaddedTrampoline(m: Mem, at: int, dst: word)
    requires Half(m, at) == NOP && Step(m, Running(true, at + 2)) == BranchTo(dst)
    ensures Run(m, Running(true, at), 2) == BranchTo(dst)
  {
    NopStep(m, at);
    RunTwo(m, Running(true, at), Running(true, at + 2), BranchTo(dst));
  }

  lemma PaddingAligns(h: Hook)
    requires h.ThumbHook?
    ensures 0 <= h.Start() && h.Start() % 4 == if h.Padded() then 2 else 0
  {
  }

  lemma PaddedRuns(m: Mem, at: int, dst: word)
    requires 0 <= at && at + 10 <= SPACE && at % 4 == 2
    requires Half(m, at) == NOP && Word(m, at + 2) == LDR_PC_THUMB && Word(m, at + 6) == dst
    ensures Run(m, Running(true, at), 2) == BranchTo(dst)
  {
    hide Word, Half, BranchTo, Step, Run;
    ThumbLdrStep(m, at + 2, at / 4 + 1, 0);
    PaddedTrampoline(m, at, dst);
  }

  lemma AlignedRuns(m: Mem, at: int, dst: word)
    requires 0 <= at && at + 8 <= SPACE && at % 4 == 0
    requires Word(m, at) == LDR_PC_THUMB && Word(m, at + 4) == dst
    ensures Run(m, Running(true, at), 1) == BranchTo(dst)
  {
    hide Word, Half, BranchTo, Step, Run;
    ThumbLdrStep(m, at, at / 4, 0);
    RunOne(m, Running(true, at), BranchTo(dst));
  }

  lemma ArmRuns(m: Mem, at: int, dst: word)
    requires 0 <= at && at + 8 <= SPACE && at % 4 == 0
    requires Word(m, at) == LDR_PC_ARM && Word(m, at + 4) == dst
    ensures Run(m, Running(false, at), 1) == BranchTo(dst)
  {
    hide Word, Half, BranchTo, Step, Run;
    ArmLdrStep(m, at);
    RunOne(m, Running(false, at), BranchTo(dst));
  }

  /** Executing an installed trampoline branches to its destination. */
  lemma InstalledRuns(m: Mem, h: Hook)
    requires h.Sound() && Installed(m, h)
    ensures Run(m, h.Entry(), h.Steps()) == BranchTo(h.dst)
  {
    hide Word, Half, BranchTo, Step, Run;
    if h.ArmHook? {
      ArmRuns(m, h.addr, h.dst);
    } else {
      PaddingAligns(h);
      hide Hook.Start, Hook.Padded;
      if h.Padded() {
        PaddedRuns(m, h.Start(), h.dst);
      } else {
        AlignedRuns(m, h.Start(), h.dst);
      }
    }
  }

  /** Any list of hooks with pairwise disjoint footprints leaves every one of them working:
      one step, or a NOP and one step, from the hooked address to the destination. */
  lemma {:induction false} HooksAllRun(m: Mem, hs: seq<Hook>, k: int)
    requires |m| == SPACE && DisjointHooks(hs)
    requires 0 <= k < |hs| && hs[k].Sound()
    ensures Run(ApplyHooks(m, hs), hs[k].Entry(), hs[k].Steps()) == BranchTo(hs[k].dst)
  {
    HooksInstall(m, hs, k);
    InstalledRuns(ApplyHooks(m, hs), hs[k]);
  }

  /** Why hook_thumb pads: at an address that is 2 mod 4 the bare LDR would load the word that
      straddles itself and dst, and reach dst for one value of dst only. */
  lemma {:induction false} NopIsNeeded(m: Mem, a: int, dst: word)
    requires |m| == SPACE && 0 <= a && a + 8 <= SPACE && a % 4 == 2
    ensures var bare := Splice(m, a, WordBytes(LDR_PC_THUMB) + WordBytes(dst));
            Step(bare, Running(true, a)) == BranchTo(dst) <==> dst == 0xf000f000
  {
    hide Word, Half, Splice, BranchTo, Step;
    SpliceTwoWords(m, a, LDR_PC_THUMB, dst);
    BareLdr(Splice(m, a, WordBytes(LDR_PC_THUMB) + WordBytes(dst)), a, dst);
  }

  lemma BareLdr(bare: Mem, a: int, dst: word)
    requires 0 <= a && a + 8 <= SPACE && a % 4 == 2 && Word(bare, a) == LDR_PC_THUMB && Word(bare, a + 4) == dst
    ensures Step(bare, Running(true, a)) == BranchTo(dst) <==> dst == 0xf000f000
  {
    hide Word, Half, BranchTo, Step;
    ThumbLdrStep(bare, a, a / 4, 2);
    StraddlingWord(bare, a);
    LoopedLiteral(dst);
  }

  lemma StraddlingWord(m: Mem, a: int)
    ensures Word(m, a + 2) == Word(m, a) / 0x1_0000 + 0x1_0000 * (Word(m, a + 4) % 0x1_0000)
  {
    WordFromHalves(m, a);
    WordFromHalves(m, a + 2);
    WordFromHalves(m, a + 4);
  }

  lemma LoopedLiteral(dst: word)
    ensures BranchTo(0xf000 + 0x1_0000 * (dst % 0x1_0000)) == BranchTo(dst) <==> dst == 0xf000f000
  {
    hide BranchTo;
    BranchesToArm(dst % 0x1_0000);
    if BranchTo(dst) == Running(false, 0xf000 + 0x1_0000 * (dst % 0x1_0000)) {
      BranchedFrom(dst, 0xf000 + 0x1_0000 * (dst % 0x1_0000));
    }
    LoopedWord(dst);
  }

  lemma BranchesToArm(low: int)
    requires 0 <= low < 0x1_0000
    ensures BranchTo(0xf000 + 0x1_0000 * low) == Running(false, 0xf000 + 0x1_0000 * low)
  {
    assert 0xf000 + 0x1_0000 * low == 4 * (0x3c00 + 0x4000 * low);
  }

  lemma BranchedFrom(dst: word, v: word)
    requires BranchTo(dst) == Running(false, v)
    ensures dst == v
  {
  }

  lemma LoopedWord(dst: word)
    ensures dst == 0xf000 + 0x1_0000 * (dst % 0x1_0000) <==> dst == 0xf000f000
  {
  }
}
