/** The startup of main.c: load, bind the imports, relocate, hook, run the constructors, drop
    the temporary copy, look up symbols.  What a call through the image's slots then reaches. */
module Startup {
  import opened Memory
  import opened Options
  import opened Arm
  import opened Imports
  import opened Relocs
  import opened Elf
  import opened ElfFile
  import opened LoadedImage
  import opened Kernel
  import opened SoUtil

  /** hook_thumb(so_find_addr(name), dst) */
  datatype Request = Request(name: string, dst: word)

  /** The hooks that the first n requests make, all names being found. */
  function HooksOf(m: Mem, v: Image, reqs: seq<Request>, n: nat): (hs: seq<Hook>)
    requires n <= |reqs|
    ensures |hs| == n
  {
    if n == 0 then []
    else
      var addr := match Elf.FindAddr(m, v, reqs[n - 1].name) case Some(a) => a case None => 0;
      HooksOf(m, v, reqs, n - 1) + [ThumbHook(addr, reqs[n - 1].dst)]
  }

  /** A hook stays inside the image and off its tables. */
  ghost predicate HookClear(m: Mem, v: Image, h: Hook) {
    h.addr != 0 ==>
      && v.base <= h.Start() && h.Start() + h.Length() <= v.base + v.size
      && forall x | h.Covers(x) :: !Protected(m, v, x)
  }

  ghost predicate HooksClear(m: Mem, v: Image, hs: seq<Hook>) {
    forall h | h in hs :: HookClear(m, v, h)
  }

  lemma HooksKeepTables(m: Mem, n: Mem, v: Image, hs: seq<Hook>)
    requires HooksClear(m, v, hs) && SameTables(m, n, v)
    ensures SameTables(m, ApplyHooks(n, hs), v)
  {
    hide Byte, Protected;
    forall x | Protected(m, v, x)
      ensures Byte(m, x) == Byte(ApplyHooks(n, hs), x)
    {
      forall h | h in hs
        ensures !h.Covers(x)
      {
        assert HookClear(m, v, h);
      }
      HooksFrame(n, hs, x);
    }
  }

  lemma LookupAfter(m: Mem, n: Mem, v: Image, name: string)
    requires SymbolTableOk(m, v) && SameTables(m, n, v)
    ensures Elf.FindAddr(n, v, name) == Elf.FindAddr(m, v, name)
  {
    hide Byte;
    TablesAreParts(m, n, v);
    LookupStable(m, n, v, name);
  }

  /* Where a call through a slot lands */

  /** Entry j of section i is of the given type. */
  predicate IsEntry(m: Mem, v: Image, i: int, j: int, kind: int) {
    && 0 <= i < SectionCount(m, v) && 0 <= j < EntryCount(m, v, i)
    && Word(m, EntryAt(m, v, i, j) + 4) % 0x100 == kind
  }

  /** It is a GOT or PLT slot. */
  predicate IsSlot(m: Mem, v: Image, i: int, j: int) {
    IsEntry(m, v, i, j, R_ARM_GLOB_DAT) || IsEntry(m, v, i, j, R_ARM_JUMP_SLOT)
  }

  function SlotAddress(m: Mem, v: Image, i: int, j: int): word { Add(v.base, Word(m, EntryAt(m, v, i, j))) }

  function SlotSymbol(m: Mem, v: Image, i: int, j: int): int { Word(m, EntryAt(m, v, i, j) + 4) / 0x100 }

  /** No hook touches the slot. */
  ghost predicate SlotUnhooked(m: Mem, v: Image, hs: seq<Hook>, i: int, j: int) {
    forall h, x: int | h in hs && SlotAddress(m, v, i, j) <= x < SlotAddress(m, v, i, j) + 4 :: !h.Covers(x)
  }

  /** What the slot holds once the image is relocated: the address of a symbol of the image, or the
      first import of that name, or the value that is meant to crash. */
  function SlotValue(m: Mem, v: Image, fs: seq<DynLibFunction>, i: int, j: int): word {
    var sym := SlotSymbol(m, v, i, j);
    if SymDefined(m, v, sym) then Add(v.base, SymValue(m, v, sym))
    else ImportValue(fs, SymName(m, v, sym), Word(m, EntryAt(m, v, i, j)))
  }

  /** The word that an entry writes is what the entry makes of the word in place; no other entry and no
      hook changes it. */
  lemma {:induction false} TargetHolds(m: Mem, v: Image, fs: seq<DynLibFunction>, hs: seq<Hook>, i: int, j: int)
    requires WellFormed(m, v)
    requires TargetsClear(m, v, AllRelocs(m, v, fs)) && Disjoint(v.base, AllRelocs(m, v, fs))
    requires 0 <= i < SectionCount(m, v) && 0 <= j < EntryCount(m, v, i) && Entry(m, v, fs, i, j).Writes()
    requires Entry(m, v, fs, i, j).Target(v.base) == SlotAddress(m, v, i, j) && SlotUnhooked(m, v, hs, i, j)
    ensures var a := SlotAddress(m, v, i, j);
            Word(ApplyHooks(ApplyAll(m, v.base, AllRelocs(m, v, fs)), hs), a) ==
            Entry(m, v, fs, i, j).Effect(v.base, Word(m, a))
  {
    hide Word, Half, Byte, CString, Add, Protected, ApplyAll, ApplyHooks, AllRelocs, EntryAt, EntryCount, Entry;
    var rs := AllRelocs(m, v, fs);
    var n := ApplyAll(m, v.base, rs);
    EntryListed(m, v, fs, i, j);
    var k :| 0 <= k < |rs| && rs[k] == Entry(m, v, fs, i, j);
    ClearTargetsFit(m, v, rs);
    DisjointTargets(m, v.base, rs, k);
    HooksKeepWord(n, hs, SlotAddress(m, v, i, j));
  }

  lemma EntryListed(m: Mem, v: Image, fs: seq<DynLibFunction>, i: int, j: int)
    requires 0 <= i < SectionCount(m, v) && 0 <= j < EntryCount(m, v, i)
    ensures Entry(m, v, fs, i, j) in AllRelocs(m, v, fs)
  {
    hide Entry, EntryCount, SectionCount;
    EntryIsReloc(m, v, fs, SectionCount(m, v), i, j);
  }

  lemma SlotHolds(m: Mem, v: Image, fs: seq<DynLibFunction>, hs: seq<Hook>, i: int, j: int)
    requires WellFormed(m, v)
    requires TargetsClear(m, v, AllRelocs(m, v, fs)) && Disjoint(v.base, AllRelocs(m, v, fs))
    requires IsSlot(m, v, i, j) && SlotUnhooked(m, v, hs, i, j)
    ensures Word(ApplyHooks(ApplyAll(m, v.base, AllRelocs(m, v, fs)), hs), SlotAddress(m, v, i, j)) ==
            SlotValue(m, v, fs, i, j)
  {
    hide Word, Half, Byte, CString, Add, Protected, ApplyAll, ApplyHooks, AllRelocs, EntryAt, EntryCount, Entry;
    hide WellFormed, TargetsClear, Disjoint, SlotUnhooked, SlotAddress, SlotValue;
    SlotEntry(m, v, fs, i, j);
    TargetHolds(m, v, fs, hs, i, j);
  }

  /** The word in place of a slot is ignored: the outcome is its sum with the value of the slot exactly
      when it is 0. */
  lemma InPlaceIgnored(m: Mem, v: Image, fs: seq<DynLibFunction>, hs: seq<Hook>, i: int, j: int)
    requires WellFormed(m, v)
    requires TargetsClear(m, v, AllRelocs(m, v, fs)) && Disjoint(v.base, AllRelocs(m, v, fs))
    requires IsSlot(m, v, i, j) && SlotUnhooked(m, v, hs, i, j)
    ensures var a := SlotAddress(m, v, i, j);
            var n := ApplyHooks(ApplyAll(m, v.base, AllRelocs(m, v, fs)), hs);
            Word(n, a) == Add(Word(m, a), SlotValue(m, v, fs, i, j)) <==> Word(m, a) == 0
  {
    hide Word, Half, Byte, CString, Protected, ApplyAll, ApplyHooks, AllRelocs, EntryAt, EntryCount, Entry;
    hide WellFormed, TargetsClear, Disjoint, SlotUnhooked, SlotAddress, SlotValue, IsSlot;
    SlotHolds(m, v, fs, hs, i, j);
    AddIs(Word(m, SlotAddress(m, v, i, j)), SlotValue(m, v, fs, i, j));
  }

  lemma AddIs(x: word, y: word)
    ensures Add(x, y) == y <==> x == 0
  {
  }

  lemma SlotEntry(m: Mem, v: Image, fs: seq<DynLibFunction>, i: int, j: int)
    requires IsSlot(m, v, i, j)
    ensures var r := Entry(m, v, fs, i, j);
            && r in AllRelocs(m, v, fs) && r.Writes() && r.Target(v.base) == SlotAddress(m, v, i, j)
            && forall w: word :: r.Effect(v.base, w) == SlotValue(m, v, fs, i, j)
  {
    hide Word, Half, CString, Add;
    EntryIsReloc(m, v, fs, SectionCount(m, v), i, j);
  }

  /* Absolute words */

  /** Entry j of section i is an R_ARM_ABS32, for a word of data such as a table of function pointers. */
  predicate IsAbsolute(m: Mem, v: Image, i: int, j: int) {
    IsEntry(m, v, i, j, R_ARM_ABS32)
  }

  /** What a symbol stands for: its address if it is defined, the first import of its name, or else 0. */
  function SymbolAddress(m: Mem, v: Image, fs: seq<DynLibFunction>, sym: int): word {
    if SymDefined(m, v, sym) then Add(v.base, SymValue(m, v, sym))
    else match Bound(fs, SymName(m, v, sym)) case Some(func) => func case None => 0
  }

  /** The word of absolute entry (i, j) in memory n: the word in place plus the load address plus the value
      of the symbol, defined or not.  That is the word in place plus what the symbol stands for exactly
      when the symbol is defined, or stands for the load address plus its value by accident. */
  ghost predicate HoldsAbsolute(n: Mem, m: Mem, v: Image, fs: seq<DynLibFunction>, i: int, j: int) {
    var a, sym := SlotAddress(m, v, i, j), SlotSymbol(m, v, i, j);
    var moved, meant := Add(v.base, SymValue(m, v, sym)), SymbolAddress(m, v, fs, sym);
    && Word(n, a) == Add(Word(m, a), moved)
    && (Word(n, a) == Add(Word(m, a), meant) <==> SymDefined(m, v, sym) || moved == meant)
  }

  lemma AbsoluteEntry(m: Mem, v: Image, fs: seq<DynLibFunction>, i: int, j: int)
    requires IsAbsolute(m, v, i, j)
    ensures var r := Entry(m, v, fs, i, j);
            && r.Writes() && r.Target(v.base) == SlotAddress(m, v, i, j)
            && forall w: word :: r.Effect(v.base, w) == Add(w, Add(v.base, SymValue(m, v, SlotSymbol(m, v, i, j))))
  {
    hide Word, Half, CString, Add;
  }

  lemma AddCancels(x: word, y: word, z: word)
    ensures Add(x, y) == Add(x, z) <==> y == z
  {
  }

  /** Every absolute entry of the relocated and hooked image that no hook covers. */
  lemma AbsoluteWord(m: Mem, v: Image, fs: seq<DynLibFunction>, hs: seq<Hook>, i: int, j: int)
    requires WellFormed(m, v)
    requires TargetsClear(m, v, AllRelocs(m, v, fs)) && Disjoint(v.base, AllRelocs(m, v, fs))
    requires IsAbsolute(m, v, i, j) && SlotUnhooked(m, v, hs, i, j)
    ensures HoldsAbsolute(ApplyHooks(ApplyAll(m, v.base, AllRelocs(m, v, fs)), hs), m, v, fs, i, j)
  {
    hide Word, Half, Byte, CString, Add, Protected, ApplyAll, ApplyHooks, AllRelocs, EntryAt, EntryCount, Entry;
    hide WellFormed, TargetsClear, Disjoint, SlotUnhooked, SlotAddress, SymDefined, SymValue, SlotSymbol, SymName;
    AbsoluteEntry(m, v, fs, i, j);
    TargetHolds(m, v, fs, hs, i, j);
    var sym := SlotSymbol(m, v, i, j);
    AddCancels(Word(m, SlotAddress(m, v, i, j)), Add(v.base, SymValue(m, v, sym)), SymbolAddress(m, v, fs, sym));
  }

  /* Relative words */

  /** Entry j of section i is an R_ARM_RELATIVE, for a word that the linker left as a link-time address. */
  predicate IsRelative(m: Mem, v: Image, i: int, j: int) {
    IsEntry(m, v, i, j, R_ARM_RELATIVE)
  }

  /** The word of relative entry (i, j) in memory n: the link-time address plus the load address. */
  ghost predicate HoldsRelative(n: Mem, m: Mem, v: Image, i: int, j: int) {
    var a := SlotAddress(m, v, i, j);
    Word(n, a) == Add(Word(m, a), v.base)
  }

  lemma RelativeEntry(m: Mem, v: Image, fs: seq<DynLibFunction>, i: int, j: int)
    requires IsRelative(m, v, i, j)
    ensures var r := Entry(m, v, fs, i, j);
            && r.Writes() && r.Target(v.base) == SlotAddress(m, v, i, j)
            && forall w: word :: r.Effect(v.base, w) == Add(w, v.base)
  {
    hide Word, Half, CString;
    AddZero(v.base);
  }

  /** Every relative entry of the relocated and hooked image that no hook covers. */
  lemma RelativeWord(m: Mem, v: Image, fs: seq<DynLibFunction>, hs: seq<Hook>, i: int, j: int)
    requires WellFormed(m, v)
    requires TargetsClear(m, v, AllRelocs(m, v, fs)) && Disjoint(v.base, AllRelocs(m, v, fs))
    requires IsRelative(m, v, i, j) && SlotUnhooked(m, v, hs, i, j)
    ensures HoldsRelative(ApplyHooks(ApplyAll(m, v.base, AllRelocs(m, v, fs)), hs), m, v, i, j)
  {
    hide Word, Half, Byte, CString, Add, Protected, ApplyAll, ApplyHooks, AllRelocs, EntryAt, EntryCount, Entry;
    hide WellFormed, TargetsClear, Disjoint, SlotUnhooked, SlotAddress;
    RelativeEntry(m, v, fs, i, j);
    TargetHolds(m, v, fs, hs, i, j);
  }

  /* Branches */

  /** What an interworking branch through slot (i, j) of the loaded image m finds in memory n.  A defined
      symbol: its address in the image.  An undefined one: the first import of its name, or else the
      slot's own offset.  And from there, if it is Thumb code at the address of a hook, whatever the name
      it was hooked by, the destination of the hook. */
  ghost predicate Lands(n: Mem, m: Mem, v: Image, fs: seq<DynLibFunction>, reqs: seq<Request>, i: int, j: int) {
    var w, sym := Word(n, SlotAddress(m, v, i, j)), SlotSymbol(m, v, i, j);
    && (SymDefined(m, v, sym) ==> w == Add(v.base, SymValue(m, v, sym)))
    && (!SymDefined(m, v, sym) ==>
          match Bound(fs, SymName(m, v, sym))
          case Some(func) => w == func
          case None => w == Word(m, EntryAt(m, v, i, j)))
    && (w % 2 == 1 ==>
          forall k | 0 <= k < |reqs| && Elf.FindAddr(m, v, reqs[k].name) == Some(w) ::
            Reaches(n, BranchTo(w), BranchTo(reqs[k].dst)))
  }

  /** What the game's own code must leave alone for its slots and hooks to work: the tables, the
      .init_array sections, the slots, and the hooks. */
  ghost function Kept(m: Mem, v: Image, reqs: seq<Request>): iset<int> {
    iset x: int | Protected(m, v, x) || InInitArray(m, v, x) || InSlot(m, v, x) || InHook(m, v, reqs, x)
  }

  ghost predicate InSlot(m: Mem, v: Image, x: int) {
    exists i, j :: IsSlot(m, v, i, j) && SlotAddress(m, v, i, j) <= x < SlotAddress(m, v, i, j) + 4
  }

  ghost predicate InHook(m: Mem, v: Image, reqs: seq<Request>, x: int) {
    exists h :: h in HooksOf(m, v, reqs, |reqs|) && h.Covers(x)
  }

  /** The memories agree on those bytes of the image. */
  ghost predicate Agreeing(n: Mem, n': Mem, v: Image, keep: iset<int>) {
    forall x | v.base <= x < v.base + v.size && x in keep :: Byte(n, x) == Byte(n', x)
  }

  /** The end to end law, in any memory n where the slots and hooks of the relocated and hooked image are
      intact. */
  lemma {:induction false} BranchThroughSlot(m: Mem, v: Image, fs: seq<DynLibFunction>, reqs: seq<Request>,
                                             n: Mem, i: int, j: int)
    requires Ready(m, v, fs, reqs) && Agreeing(n, Final(m, v, fs, reqs), v, Kept(m, v, reqs))
    requires IsSlot(m, v, i, j) && SlotUnhooked(m, v, HooksOf(m, v, reqs, |reqs|), i, j)
    ensures Lands(n, m, v, fs, reqs, i, j)
  {
    hide Word, Half, Byte, CString, Add, Protected;
    hide ApplyAll, ApplyHooks, AllRelocs, EntryAt, EntryCount, BranchTo, SymDefined;
    hide SlotValue, Elf.FindAddr;
    var hs := HooksOf(m, v, reqs, |reqs|);
    SlotHolds(m, v, fs, hs, i, j);
    SlotEntry(m, v, fs, i, j);
    TargetInImage(m, v, fs, i, j);
    SlotKept(n, Final(m, v, fs, reqs), m, v, reqs, i, j);
    var w, sym := Word(n, SlotAddress(m, v, i, j)), SlotSymbol(m, v, i, j);
    assert w == SlotValue(m, v, fs, i, j);
    SlotValueIs(m, v, fs, i, j);
    forall k | 0 <= k < |reqs| && Elf.FindAddr(m, v, reqs[k].name) == Some(w) && w % 2 == 1
      ensures Reaches(n, BranchTo(w), BranchTo(reqs[k].dst))
    {
      HookAt(m, v, reqs, |reqs|, k);
      HookReached(m, v, fs, reqs, n, k, w);
    }
  }

  /** Both memories have the same image. */
  ghost predicate SameBytes(n: Mem, n': Mem, v: Image) {
    forall x | v.base <= x < v.base + v.size :: Byte(n, x) == Byte(n', x)
  }

  lemma SlotKept(n: Mem, n': Mem, m: Mem, v: Image, reqs: seq<Request>, i: int, j: int)
    requires Agreeing(n, n', v, Kept(m, v, reqs)) && IsSlot(m, v, i, j)
    requires v.base <= SlotAddress(m, v, i, j) && SlotAddress(m, v, i, j) + 4 <= v.base + v.size
    ensures Word(n, SlotAddress(m, v, i, j)) == Word(n', SlotAddress(m, v, i, j))
  {
    hide Byte, IsSlot, SlotAddress, Protected, InInitArray, InHook;
    var a := SlotAddress(m, v, i, j);
    forall x: int | a <= x < a + 4
      ensures Byte(n, x) == Byte(n', x)
    {
      assert InSlot(m, v, x);
      assert x in Kept(m, v, reqs);
    }
    SameWord(n, n', a);
  }

  lemma HookKept(n: Mem, n': Mem, m: Mem, v: Image, reqs: seq<Request>, h: Hook)
    requires Agreeing(n, n', v, Kept(m, v, reqs)) && h in HooksOf(m, v, reqs, |reqs|) && h.addr != 0
    requires v.base <= h.Start() && h.Start() + h.Length() <= v.base + v.size
    ensures forall x | h.Covers(x) :: Byte(n, x) == Byte(n', x)
  {
    hide Byte, Protected, InInitArray, InSlot, HooksOf;
    forall x | h.Covers(x)
      ensures Byte(n, x) == Byte(n', x)
    {
      assert InHook(m, v, reqs, x);
      assert x in Kept(m, v, reqs);
    }
  }

  lemma TargetInImage(m: Mem, v: Image, fs: seq<DynLibFunction>, i: int, j: int)
    requires WellFormed(m, v) && TargetsClear(m, v, AllRelocs(m, v, fs))
    requires 0 <= i < SectionCount(m, v) && 0 <= j < EntryCount(m, v, i) && Entry(m, v, fs, i, j).Writes()
    requires Entry(m, v, fs, i, j).Target(v.base) == SlotAddress(m, v, i, j)
    ensures v.base <= SlotAddress(m, v, i, j) && SlotAddress(m, v, i, j) + 4 <= v.base + v.size
  {
    hide Word, Half, Byte, CString, Protected, AllRelocs, EntryAt, EntryCount, Entry;
    EntryListed(m, v, fs, i, j);
    ClearTargetsFit(m, v, AllRelocs(m, v, fs));
  }

  lemma SlotValueIs(m: Mem, v: Image, fs: seq<DynLibFunction>, i: int, j: int)
    ensures var sym := SlotSymbol(m, v, i, j);
            SlotValue(m, v, fs, i, j) == if SymDefined(m, v, sym) then Add(v.base, SymValue(m, v, sym))
                                         else ImportValue(fs, SymName(m, v, sym), Word(m, EntryAt(m, v, i, j)))
  {
  }

  /** And an undefined slot of a name that update_imports has rebound holds the hook. */
  lemma ReboundSlot(n: Mem, m: Mem, v: Image, fs: seq<DynLibFunction>, reqs: seq<Request>, i: int, j: int, func: word)
    requires Lands(n, m, v, fs, reqs, i, j) && !SymDefined(m, v, SlotSymbol(m, v, i, j))
    requires Bound(fs, SymName(m, v, SlotSymbol(m, v, i, j))) == Some(func)
    ensures Word(n, SlotAddress(m, v, i, j)) == func
  {
    hide Word, SymDefined, SymName, SlotAddress, SlotSymbol, Elf.FindAddr, SymValue, BranchTo;
  }

  /** The code of every request is in place before the constructors run. */
  lemma HookWritten(m: Mem, v: Image, fs: seq<DynLibFunction>, reqs: seq<Request>, k: nat, a: word)
    requires Ready(m, v, fs, reqs) && k < |reqs| && Elf.FindAddr(m, v, reqs[k].name) == Some(a) && a != 0
    ensures Installed(Final(m, v, fs, reqs), ThumbHook(a, reqs[k].dst))
  {
    hide Word, Half, Byte, CString, Protected, ApplyAll, ApplyHooks, AllRelocs, Installed, Elf.FindAddr, HooksOf;
    var hs := HooksOf(m, v, reqs, |reqs|);
    HookAt(m, v, reqs, |reqs|, k);
    assert hs[k] in hs && HookClear(m, v, hs[k]);
    FinalInSpace(m, v, fs, reqs);
    HooksInstall(ApplyAll(m, v.base, AllRelocs(m, v, fs)), hs, k);
  }

  /** In particular a hook on the slot's own symbol, if that is the first of its name. */
  lemma NamedHook(n: Mem, m: Mem, v: Image, fs: seq<DynLibFunction>, reqs: seq<Request>, i: int, j: int, k: nat)
    requires Lands(n, m, v, fs, reqs, i, j) && k < |reqs|
    requires var sym := SlotSymbol(m, v, i, j);
             && SymDefined(m, v, sym) && FindSym(m, v, reqs[k].name, 0) == sym && SymValue(m, v, sym) % 2 == 1
    requires v.base % 2 == 0
    ensures var w := Word(n, SlotAddress(m, v, i, j));
            w % 2 == 1 && Reaches(n, BranchTo(w), BranchTo(reqs[k].dst))
  {
    hide Word, Half, SymDefined, BranchTo, Reaches, SlotAddress, SymValue, Add, Elf.FindAddr;
    FoundAddr(m, v, reqs[k].name, SlotSymbol(m, v, i, j));
    AddOdd(v.base, SymValue(m, v, SlotSymbol(m, v, i, j)));
  }

  lemma FoundAddr(m: Mem, v: Image, name: string, sym: int)
    requires FindSym(m, v, name, 0) == sym && 0 <= sym
    ensures Elf.FindAddr(m, v, name) == Some(Add(v.base, SymValue(m, v, sym)))
  {
  }

  lemma AddOdd(a: word, b: word)
    requires a % 2 == 0 && b % 2 == 1
    ensures Add(a, b) % 2 == 1
  {
  }

  /** A branch to the address of hook k reaches its destination. */
  lemma HookReached(m: Mem, v: Image, fs: seq<DynLibFunction>, reqs: seq<Request>, n: Mem, k: nat, w: word)
    requires Ready(m, v, fs, reqs) && Agreeing(n, Final(m, v, fs, reqs), v, Kept(m, v, reqs))
    requires k < |reqs| && HooksOf(m, v, reqs, |reqs|)[k] == ThumbHook(w, reqs[k].dst) && w % 2 == 1
    ensures Reaches(n, BranchTo(w), BranchTo(reqs[k].dst))
  {
    hide Word, Half, Byte, CString, Protected, ApplyAll, ApplyHooks, AllRelocs, BranchTo, Installed;
    var hs := HooksOf(m, v, reqs, |reqs|);
    var h := hs[k];
    assert h in hs && HookClear(m, v, h);
    HookSound(h);
    HooksInstall(ApplyAll(m, v.base, AllRelocs(m, v, fs)), hs, k);
    HookKept(n, Final(m, v, fs, reqs), m, v, reqs, h);
    InstalledByBytes(Final(m, v, fs, reqs), n, h);
    InstalledRuns(n, h);
    ThumbEntry(w, h);
  }

  /** Some number of instructions leads from one state to the other. */
  ghost predicate Reaches(m: Mem, c: Cpu, d: Cpu) {
    exists steps: nat :: Run(m, c, steps) == d
  }

  lemma {:induction false} HookAt(m: Mem, v: Image, reqs: seq<Request>, n: nat, k: nat)
    requires k < n <= |reqs|
    ensures HooksOf(m, v, reqs, n)[k] ==
      ThumbHook(match Elf.FindAddr(m, v, reqs[k].name) case Some(a) => a case None => 0, reqs[k].dst)
  {
    hide Word, Elf.FindAddr;
    if k < n - 1 {
      HookAt(m, v, reqs, n - 1, k);
    }
  }

  lemma HookSound(h: Hook)
    requires h.ThumbHook? && h.addr % 2 == 1 && h.Start() + h.Length() <= SPACE
    ensures h.Sound()
  {
  }

  lemma ThumbEntry(w: word, h: Hook)
    requires h.ThumbHook? && h.addr == w && w % 2 == 1
    ensures BranchTo(w) == h.Entry()
  {
  }

  /* The run */

  /** What startup asks of the loaded image m: tables in place; relocation targets that are disjoint
      words outside the tables; hooks that are disjoint and stay off the tables. */
  ghost predicate Ready(m: Mem, v: Image, fs: seq<DynLibFunction>, reqs: seq<Request>) {
    && WellFormed(m, v) && SymbolsExist(m, v)
    && TargetsClear(m, v, AllRelocs(m, v, fs)) && Disjoint(v.base, AllRelocs(m, v, fs))
    && var hs := HooksOf(m, v, reqs, |reqs|); HooksClear(m, v, hs) && DisjointHooks(hs)
  }

  /** The image after relocation and hooking. */
  function Final(m: Mem, v: Image, fs: seq<DynLibFunction>, reqs: seq<Request>): Mem {
    ApplyHooks(ApplyAll(m, v.base, AllRelocs(m, v, fs)), HooksOf(m, v, reqs, |reqs|))
  }

  lemma {:induction false} HooksStep(n: Mem, m: Mem, v: Image, reqs: seq<Request>, k: nat)
    requires k < |reqs|
    ensures ApplyHooks(n, HooksOf(m, v, reqs, k + 1)) ==
            ApplyHook(ApplyHooks(n, HooksOf(m, v, reqs, k)), HooksOf(m, v, reqs, k + 1)[k])
  {
    hide Word, ApplyHook, Elf.FindAddr;
    var hs := HooksOf(m, v, reqs, k + 1);
    assert hs[..|hs| - 1] == HooksOf(m, v, reqs, k);
  }

  lemma {:induction false} HooksPrefix(m: Mem, v: Image, reqs: seq<Request>, k: nat, n: nat)
    requires k <= n <= |reqs|
    ensures HooksOf(m, v, reqs, k) == HooksOf(m, v, reqs, n)[..k]
  {
    hide Word, Elf.FindAddr;
    if k < n {
      HooksPrefix(m, v, reqs, k, n - 1);
    }
  }

  /** The first k hooks leave the tables alone, and hook k is in the image. */
  lemma HooksSoFar(m: Mem, v: Image, fs: seq<DynLibFunction>, reqs: seq<Request>, k: nat)
    requires Ready(m, v, fs, reqs) && k <= |reqs|
    ensures var n := ApplyHooks(ApplyAll(m, v.base, AllRelocs(m, v, fs)), HooksOf(m, v, reqs, k));
            SameTables(m, n, v) && SectionsOk(n, v) && SymbolTableOk(n, v)
    ensures k < |reqs| ==> HookClear(m, v, HooksOf(m, v, reqs, k + 1)[k])
  {
    hide Word, Half, Byte, CString, ApplyAll, ApplyHooks;
    hide AllRelocs, SectionsOk, SymbolTableOk, SameTables, TargetsClear, Elf.FindAddr;
    hide SymbolsExist, HookClear;
    var rs, hs := AllRelocs(m, v, fs), HooksOf(m, v, reqs, k);
    RelocationKeepsTables(m, v, rs);
    HooksPrefix(m, v, reqs, k, |reqs|);
    assert forall h | h in hs :: h in HooksOf(m, v, reqs, |reqs|);
    HooksKeepTables(m, ApplyAll(m, v.base, rs), v, hs);
    TablesAreParts(m, ApplyHooks(ApplyAll(m, v.base, rs), hs), v);
    SectionsStable(m, ApplyHooks(ApplyAll(m, v.base, rs), hs), v);
    SymbolsStable(m, ApplyHooks(ApplyAll(m, v.base, rs), hs), v);
    if k < |reqs| {
      HooksPrefix(m, v, reqs, k + 1, |reqs|);
      assert HooksOf(m, v, reqs, |reqs|)[k] in HooksOf(m, v, reqs, |reqs|);
    }
  }

  /** Constructor j of section i, which the linker left as a link-time address with the R_ARM_RELATIVE
      entry (ri, rj), and which no hook overwrites, is called at the load address plus that. */
  lemma {:induction false} RelativeConstructor(m: Mem, v: Image, fs: seq<DynLibFunction>, reqs: seq<Request>,
                                               i: nat, j: nat, ri: int, rj: int)
    requires Ready(m, v, fs, reqs)
    requires i < SectionCount(m, v) && IsInitArray(m, v, i) && j < SectionSize(m, v, i) / 4
    requires IsRelative(m, v, ri, rj) && SlotAddress(m, v, ri, rj) == SectionAddr(m, v, i) + 4 * j
    requires SlotUnhooked(m, v, HooksOf(m, v, reqs, |reqs|), ri, rj)
    ensures var n := Final(m, v, fs, reqs);
            && InitEntry(n, v, i, j) == Add(InitEntry(m, v, i, j), v.base)
            && (InitEntry(n, v, i, j) != 0 ==>
                  && ConstructorsBefore(n, v, i) + CountNonNull(n, v, i, j) < |Constructors(n, v)|
                  && Constructors(n, v)[ConstructorsBefore(n, v, i) + CountNonNull(n, v, i, j)] ==
                     InitEntry(n, v, i, j))
  {
    hide Word, Half, Byte, CString, Add, Protected, ApplyAll, ApplyHooks, AllRelocs, HooksOf, HooksClear, SymbolTableOk;
    hide SlotUnhooked, IsRelative, SlotAddress;
    var n := Final(m, v, fs, reqs);
    RelativeWord(m, v, fs, HooksOf(m, v, reqs, |reqs|), ri, rj);
    HooksSoFar(m, v, fs, reqs, |reqs|);
    TablesAreParts(m, n, v);
    SameSection(m, n, v, i);
    SameCount(m, n, v);
    if InitEntry(n, v, i, j) != 0 {
      ConstructorAt(n, v, SectionCount(n, v), i, j);
    }
  }

  lemma HooksKeepWord(m: Mem, hs: seq<Hook>, a: int)
    requires forall h, x: int | h in hs && a <= x < a + 4 :: !h.Covers(x)
    ensures Word(ApplyHooks(m, hs), a) == Word(m, a)
  {
    hide Byte, ApplyHooks;
    forall x: int | a <= x < a + 4
      ensures Byte(ApplyHooks(m, hs), x) == Byte(m, x)
    {
      HooksFrame(m, hs, x);
    }
    SameWord(ApplyHooks(m, hs), m, a);
  }

  /** patch_openal, patch_opengl and patch_game: every request in order.  False is the fatal error of
      so_find_addr. */
  method PatchAll(l: Loader, reqs: seq<Request>, ghost m: Mem, ghost v: Image, ghost fs: seq<DynLibFunction>)
    returns (ok: bool)
    requires l.Loaded(v) && Ready(m, v, fs, reqs)
    requires l.Memory() == ApplyAll(m, v.base, AllRelocs(m, v, fs))
    modifies l.os.mem
    ensures l.Loaded(v)
    ensures ok ==> l.Memory() == Final(m, v, fs, reqs)
    ensures ok <==> forall k | 0 <= k < |reqs| :: Elf.FindAddr(m, v, reqs[k].name).Some?
  {
    hide Word, Half, Byte, CString, ApplyAll;
    hide ApplyHooks, AllRelocs, SectionsOk, SymbolTableOk, TargetsClear, Elf.FindAddr;
    hide Ready, HooksOf, ApplyHook;
    ghost var n0 := l.Memory();
    NoHooks(n0, m, v, reqs);
    for k := 0 to |reqs|
      invariant l.Loaded(v) && l.Memory() == ApplyHooks(n0, HooksOf(m, v, reqs, k))
      invariant forall i | 0 <= i < k :: Elf.FindAddr(m, v, reqs[i].name).Some?
    {
      HooksSoFar(m, v, fs, reqs, k);
      ReadySymbols(m, v, fs, reqs);
      LookupAfter(m, l.Memory(), v, reqs[k].name);
      var addr := l.FindAddr(reqs[k].name, v);
      if addr.None? {
        return false;
      }
      HookAt(m, v, reqs, k + 1, k);
      HooksStep(n0, m, v, reqs, k);
      l.os.HookThumb(addr.value, reqs[k].dst);
    }
    ok := true;
  }

  lemma NoHooks(n: Mem, m: Mem, v: Image, reqs: seq<Request>)
    ensures ApplyHooks(n, HooksOf(m, v, reqs, 0)) == n
  {
  }

  lemma ReadySymbols(m: Mem, v: Image, fs: seq<DynLibFunction>, reqs: seq<Request>)
    requires Ready(m, v, fs, reqs)
    ensures SymbolTableOk(m, v)
  {
  }

  lemma ReadyForAnyTable(m: Mem, v: Image, fs: seq<DynLibFunction>, gs: seq<DynLibFunction>, reqs: seq<Request>)
    requires Ready(m, v, fs, reqs)
    ensures Ready(m, v, gs, reqs)
  {
    ClearForAnyTable(m, v, fs, gs);
  }

  /** main after so_load.  ok is false when a hooked symbol does not exist, which is fatal. */
  method Start(l: Loader, funcs: array<DynLibFunction>, mipmapsOff: bool, trilinear: bool,
               imageHook: word, parameterHook: word, reqs: seq<Request>, effect: Effect, ghost v: Image)
    returns (ok: bool)
    requires l.Loaded(v) && l.HeadersLive(v) && Ready(l.Memory(), v, funcs[..], reqs)
    requires Harmless(effect, Kept(l.Memory(), v, reqs))
    requires forall x | v.base <= x < v.base + v.size :: !l.os.blocks[l.tempBlock].Has(x)
    requires mipmapsOff ==> FirstMatch(funcs[..], GL_COMPRESSED_TEX_IMAGE) >= 0
    requires trilinear ==> FirstMatch(funcs[..], GL_TEX_PARAMETER) >= 0
    modifies l.os`blocks, l.os`frees, l.os`calls, l.os.mem, funcs
    ensures mipmapsOff ==> Bound(funcs[..], GL_COMPRESSED_TEX_IMAGE) == Some(imageHook)
    ensures trilinear ==> Bound(funcs[..], GL_TEX_PARAMETER) == Some(parameterHook)
    ensures forall name |
              (mipmapsOff ==> name != GL_COMPRESSED_TEX_IMAGE) && (trilinear ==> name != GL_TEX_PARAMETER) ::
              Bound(funcs[..], name) == Bound(old(funcs[..]), name)
    ensures ok <==> forall k | 0 <= k < |reqs| :: Elf.FindAddr(old(l.Memory()), v, reqs[k].name).Some?
    ensures ok ==>
      var n := Final(old(l.Memory()), v, funcs[..], reqs);
      // the image is relocated against the overridden table, hooked, and then the constructors have run
      && SameBytes(l.Memory(), RunAll(effect, n, Constructors(n, v)), v)
      && Agreeing(l.Memory(), n, v, Kept(old(l.Memory()), v, reqs))
      && l.os.calls == old(l.os.calls) + Constructors(n, v)
      // the temporary copy is gone; lookups may still be made, and give the addresses they gave before
      && l.Loaded(v) && SymbolTableOk(l.Memory(), v) && l.os.blocks == old(l.os.blocks) - {l.tempBlock}
      && l.os.frees == old(l.os.frees) + [l.tempBlock]
      && forall name :: Elf.FindAddr(l.Memory(), v, name) == Elf.FindAddr(old(l.Memory()), v, name)
  {
    hide Word, Half, Byte, CString, ApplyAll, ApplyHooks, AllRelocs;
    hide Elf.FindAddr, HooksOf, Constructors, Kept, Harmless;
    hide KeepsArrays, RunAll;
    ghost var m := l.Memory();
    UpdateImports(funcs, mipmapsOff, trilinear, imageHook, parameterHook);
    ghost var fs := funcs[..];
    ReadyForAnyTable(m, v, old(funcs[..]), fs, reqs);
    l.Resolve(funcs, v);
    ok := PatchAll(l, reqs, m, v, fs);
    if !ok {
      return;
    }
    ghost var n := l.Memory();
    HooksSoFar(m, v, fs, reqs, |reqs|);
    TablesAreParts(m, n, v);
    ArraysKept(m, n, v, reqs);
    InSpace(n, v);
    l.ExecuteInitArray(effect, Kept(m, v, reqs), v);
    RunKeeps(effect, Kept(m, v, reqs), n, Constructors(n, v));
    l.FreeTemp(v);
    ImageKept(m, n, l.Memory(), v, reqs);
    forall name
      ensures Elf.FindAddr(l.Memory(), v, name) == Elf.FindAddr(m, v, name)
    {
      LookupStable(m, n, v, name);
      LookupStable(n, l.Memory(), v, name);
    }
  }

  /** The arrays are where they were before relocation and hooking. */
  lemma ArraysKept(m: Mem, n: Mem, v: Image, reqs: seq<Request>)
    requires SectionsOk(m, v) && SameCopy(m, n, v)
    ensures KeepsArrays(n, v, Kept(m, v, reqs))
  {
    hide Byte, Word, Half, CString, InSlot, InHook, SectionsOk, SameCopy;
    SameCount(m, n, v);
    forall x | v.elf <= x < v.elf + v.fileSize || InInitArray(n, v, x)
      ensures x in Kept(m, v, reqs)
    {
      if InInitArray(n, v, x) {
        var i :| 0 <= i < SectionCount(n, v) && IsInitArray(n, v, i)
                 && SectionAddr(n, v, i) <= x < SectionAddr(n, v, i) + SectionSize(n, v, i);
        SameSection(m, n, v, i);
        assert IsInitArray(m, v, i);
        assert InInitArray(m, v, x);
      }
    }
  }

  lemma InSpace(n: Mem, v: Image)
    requires SectionsOk(n, v)
    ensures |n| == SPACE
  {
  }

  lemma ImageKept(m: Mem, n: Mem, n': Mem, v: Image, reqs: seq<Request>)
    requires SymbolTableOk(n, v) && |n'| == |n| && Agreeing(n', n, v, Kept(m, v, reqs))
    ensures SameSymbols(n, n', v) && SymbolTableOk(n', v)
  {
    hide Byte, Word, CString, InSlot, InHook, InInitArray;
    assert forall x | InSymbols(v, x) :: v.base <= x < v.base + v.size && Protected(m, v, x);
    SymbolsStable(n, n', v);
  }

  /* From the file */

  /** The temporary copy of f can come to lie at t: clear of the image, and of the blocks that are live. */
  ghost predicate CopyFits(m: Mem, t: word, f: Mem, live: map<int, Block>) {
    && |m| == SPACE && ClearOfImage(t, |f|, ImageOf(f, t, LOAD_ADDRESS))
    && forall u | u in live :: !Overlap(live[u], Block(t, |f|))
  }

  /** Wherever that is, the image that so_load makes of the file is ready. */
  ghost predicate ReadyFile(f: Mem, fs: seq<DynLibFunction>, reqs: seq<Request>, live: map<int, Block>) {
    forall m: Mem, t: word | CopyFits(m, t, f, live) :: ReadyAt(m, t, f, fs, reqs)
  }

  ghost predicate ReadyAt(m: Mem, t: word, f: Mem, fs: seq<DynLibFunction>, reqs: seq<Request>) {
    Ready(MapAll(m, t, f, AllLoads(f)), ImageOf(f, t, LOAD_ADDRESS), fs, reqs)
  }

  /** Likewise, the constructors leave alone what they must.  That includes the temporary copy, which can
      lie anywhere but in a live block, so they may write to every block that is live before so_load, such
      as stack and heap. */
  ghost predicate HarmlessFile(effect: Effect, f: Mem, reqs: seq<Request>, live: map<int, Block>) {
    forall m: Mem, t: word | CopyFits(m, t, f, live) :: HarmlessAt(effect, m, t, f, reqs)
  }

  ghost predicate HarmlessAt(effect: Effect, m: Mem, t: word, f: Mem, reqs: seq<Request>) {
    Harmless(effect, Kept(MapAll(m, t, f, AllLoads(f)), ImageOf(f, t, LOAD_ADDRESS), reqs))
  }

  /** Every slot that no hook overwrites leads where it should. */
  ghost predicate AllLand(n: Mem, m: Mem, v: Image, fs: seq<DynLibFunction>, reqs: seq<Request>) {
    forall i, j | IsSlot(m, v, i, j) && SlotUnhooked(m, v, HooksOf(m, v, reqs, |reqs|), i, j) ::
      Lands(n, m, v, fs, reqs, i, j)
  }

  lemma EverySlotLands(m: Mem, v: Image, fs: seq<DynLibFunction>, reqs: seq<Request>, n: Mem)
    requires Ready(m, v, fs, reqs) && Agreeing(n, Final(m, v, fs, reqs), v, Kept(m, v, reqs))
    ensures AllLand(n, m, v, fs, reqs)
  {
    hide Ready, Agreeing, Final, Lands, IsSlot, SlotUnhooked;
    forall i, j | IsSlot(m, v, i, j) && SlotUnhooked(m, v, HooksOf(m, v, reqs, |reqs|), i, j)
      ensures Lands(n, m, v, fs, reqs, i, j)
    {
      BranchThroughSlot(m, v, fs, reqs, n, i, j);
    }
  }

  /** The four bytes that an entry writes. */
  ghost function TargetBytes(m: Mem, v: Image, i: int, j: int): iset<int> {
    iset x: int | InTarget(m, v, i, j, x)
  }

  predicate InTarget(m: Mem, v: Image, i: int, j: int, x: int) {
    SlotAddress(m, v, i, j) <= x < SlotAddress(m, v, i, j) + 4
  }

  /** Every absolute word that neither a hook nor the game's own code overwrites. */
  ghost predicate AllAbsolute(n: Mem, m: Mem, v: Image, fs: seq<DynLibFunction>, reqs: seq<Request>, effect: Effect) {
    forall i, j | IsAbsolute(m, v, i, j) && SlotUnhooked(m, v, HooksOf(m, v, reqs, |reqs|), i, j)
                  && Harmless(effect, TargetBytes(m, v, i, j)) ::
      HoldsAbsolute(n, m, v, fs, i, j)
  }

  /** And every relative word. */
  ghost predicate AllRelative(n: Mem, m: Mem, v: Image, reqs: seq<Request>, effect: Effect) {
    forall i, j | IsRelative(m, v, i, j) && SlotUnhooked(m, v, HooksOf(m, v, reqs, |reqs|), i, j)
                  && Harmless(effect, TargetBytes(m, v, i, j)) ::
      HoldsRelative(n, m, v, i, j)
  }

  lemma EveryDataWord(m: Mem, v: Image, fs: seq<DynLibFunction>, reqs: seq<Request>, effect: Effect,
                      ws: seq<word>, n: Mem)
    requires Ready(m, v, fs, reqs) && SameBytes(n, RunAll(effect, Final(m, v, fs, reqs), ws), v)
    ensures AllAbsolute(n, m, v, fs, reqs, effect) && AllRelative(n, m, v, reqs, effect)
  {
    hide Word, Half, Byte, CString, Add, Protected, ApplyAll, ApplyHooks, AllRelocs, EntryAt, EntryCount, Entry;
    hide SlotUnhooked, SlotAddress, HooksOf, Harmless, RunAll, WellFormed, TargetsClear, Disjoint, SymbolsExist;
    hide HooksClear, DisjointHooks, SlotSymbol, SymValue, SymDefined, SymbolAddress, IsAbsolute, IsRelative, SameBytes;
    var hs, n0 := HooksOf(m, v, reqs, |reqs|), Final(m, v, fs, reqs);
    FinalInSpace(m, v, fs, reqs);
    forall i, j | IsAbsolute(m, v, i, j) && SlotUnhooked(m, v, hs, i, j) && Harmless(effect, TargetBytes(m, v, i, j))
      ensures HoldsAbsolute(n, m, v, fs, i, j)
    {
      AbsoluteWord(m, v, fs, hs, i, j);
      AbsoluteEntry(m, v, fs, i, j);
      DataInTable(m, v, i, j);
      TargetKept(m, v, fs, effect, ws, n0, n, i, j);
    }
    forall i, j | IsRelative(m, v, i, j) && SlotUnhooked(m, v, hs, i, j) && Harmless(effect, TargetBytes(m, v, i, j))
      ensures HoldsRelative(n, m, v, i, j)
    {
      RelativeWord(m, v, fs, hs, i, j);
      RelativeEntry(m, v, fs, i, j);
      DataInTable(m, v, i, j);
      TargetKept(m, v, fs, effect, ws, n0, n, i, j);
    }
  }

  lemma DataInTable(m: Mem, v: Image, i: int, j: int)
    requires IsAbsolute(m, v, i, j) || IsRelative(m, v, i, j)
    ensures 0 <= i < SectionCount(m, v) && 0 <= j < EntryCount(m, v, i)
  {
    hide Word, EntryAt, EntryCount;
  }

  lemma FinalInSpace(m: Mem, v: Image, fs: seq<DynLibFunction>, reqs: seq<Request>)
    requires Ready(m, v, fs, reqs)
    ensures |Final(m, v, fs, reqs)| == SPACE
  {
  }

  lemma TargetKept(m: Mem, v: Image, fs: seq<DynLibFunction>, effect: Effect, ws: seq<word>, n0: Mem, n: Mem,
                   i: int, j: int)
    requires WellFormed(m, v) && TargetsClear(m, v, AllRelocs(m, v, fs))
    requires 0 <= i < SectionCount(m, v) && 0 <= j < EntryCount(m, v, i) && Entry(m, v, fs, i, j).Writes()
    requires Entry(m, v, fs, i, j).Target(v.base) == SlotAddress(m, v, i, j)
    requires |n0| == SPACE && Harmless(effect, TargetBytes(m, v, i, j)) && SameBytes(n, RunAll(effect, n0, ws), v)
    ensures Word(n, SlotAddress(m, v, i, j)) == Word(n0, SlotAddress(m, v, i, j))
  {
    hide Word, Half, Byte, CString, Protected, AllRelocs, EntryAt, EntryCount, Entry, SlotAddress, Harmless, RunAll;
    hide WellFormed, TargetsClear;
    var a := SlotAddress(m, v, i, j);
    TargetInImage(m, v, fs, i, j);
    RunKeeps(effect, TargetBytes(m, v, i, j), n0, ws);
    forall x: int | a <= x < a + 4
      ensures Byte(n, x) == Byte(n0, x)
    {
      assert InTarget(m, v, i, j, x);
    }
    SameWord(n, n0, a);
  }

  lemma FileSize(f: Mem)
    requires FileOk(f)
    ensures 4 <= |f| < SPACE
  {
  }

  /** What main asks of the file.  One that so_load refuses, for whatever reason, asks for nothing. */
  ghost predicate Bootable(f: Mem, fs: seq<DynLibFunction>, reqs: seq<Request>, effect: Effect,
                           live: map<int, Block>) {
    HasMagic(f) && Supported(f) ==>
      AllLoads(f) != [] && ReadyFile(f, fs, reqs, live) && HarmlessFile(effect, f, reqs, live)
  }

  /** main from so_load to so_free_temp.  res is what so_load returns; ok is false when main ends in a
      fatal error; fault means that so_load reported success with nothing loaded, so that so_resolve
      reads memory that has been freed.  m is the memory that so_load left behind. */
  method Boot(l: Loader, fd: int, file: Mem, funcs: array<DynLibFunction>, mipmapsOff: bool, trilinear: bool,
              imageHook: word, parameterHook: word, reqs: seq<Request>, effect: Effect)
    returns (res: int, ok: bool, fault: bool)
    requires l.os.Valid() && FileOk(file) && fd !in l.os.openFiles && l.textBlock == 0 && l.dataBlock == 0
    requires Bootable(file, funcs[..], reqs, effect, l.os.blocks)
    requires mipmapsOff ==> FirstMatch(funcs[..], GL_COMPRESSED_TEX_IMAGE) >= 0
    requires trilinear ==> FirstMatch(funcs[..], GL_TEX_PARAMETER) >= 0
    modifies l, l.os, l.os.mem, funcs
    // loading succeeds exactly when the kernel grants every block and the file has both tables, in segments
    // of a supported order, or starts with a data segment
    ensures res >= 0 <==>
      && 0 <= fd && HasMagic(file) && l.os.refusals == old(l.os.refusals)
      && (FirstIsData(file) || (Supported(file) && HasTables(file, LOAD_ADDRESS)))
    ensures res < 0 ==> !ok && l.LoadFailed(old(l.os.blocks), old(l.os.frees), old(l.os.refusals), fd, file, res)
    ensures fault <==> res >= 0 && FirstIsData(file)
    ensures fault ==> !ok && l.tempBlock !in l.os.blocks && l.os.blocks == old(l.os.blocks)
    // and then startup does exactly when every hooked name exists
    ensures res >= 0 && !fault ==>
      var m, v := MapAll(old(l.Memory()), l.elfHdr, file, AllLoads(file)), ImageOf(file, l.elfHdr, LOAD_ADDRESS);
      ok <==> forall k | 0 <= k < |reqs| :: Elf.FindAddr(m, v, reqs[k].name).Some?
    // slots lead where they should, absolute words hold what they should, constructors are called, the
    // blocks of the segments are left, lookups may go on
    ensures ok ==>
      var m, v := MapAll(old(l.Memory()), l.elfHdr, file, AllLoads(file)), ImageOf(file, l.elfHdr, LOAD_ADDRESS);
      && AllLand(l.Memory(), m, v, funcs[..], reqs)
      && AllAbsolute(l.Memory(), m, v, funcs[..], reqs, effect)
      && Agreeing(l.Memory(), Final(m, v, funcs[..], reqs), v, Kept(m, v, reqs))
      && AllRelative(l.Memory(), m, v, reqs, effect)
      && (mipmapsOff ==> Bound(funcs[..], GL_COMPRESSED_TEX_IMAGE) == Some(imageHook))
      && (trilinear ==> Bound(funcs[..], GL_TEX_PARAMETER) == Some(parameterHook))
      && (forall name | (mipmapsOff ==> name != GL_COMPRESSED_TEX_IMAGE) && (trilinear ==> name != GL_TEX_PARAMETER) ::
            Bound(funcs[..], name) == Bound(old(funcs[..]), name))
      && l.os.calls == old(l.os.calls) + Constructors(Final(m, v, funcs[..], reqs), v)
      && l.os.blocks == LiveBlocks(old(l.os.blocks), file, AllLoads(file), l.textBlock, l.dataBlock)
      && l.Loaded(v) && SymbolTableOk(l.Memory(), v) && CopyFits(old(l.Memory()), l.elfHdr, file, old(l.os.blocks))
      && forall name :: Elf.FindAddr(l.Memory(), v, name) == Elf.FindAddr(m, v, name)
  {
    hide Word, Half, Byte, CString, Elf.FindAddr, HooksOf, Constructors, Ready, MapAll, AllLand, AllLoads, LiveBlocks;
    hide Supported, FileOk, HasMagic, SegmentAt, Final, AlignMem, SymbolTableOk, FirstIsData, AllAbsolute, AllRelative;
    hide HasTables, ImageOf, SameBytes, Kept, Agreeing, Harmless, RunAll;
    hide Loader.Progress, Loader.TablesFound, Loader.Loaded, Loader.HeadersLive, Loader.LoadFailed;
    ghost var before, blocks, frees, refusals := l.Memory(), l.os.blocks, l.os.frees, l.os.refusals;
    ok, fault := false, false;
    res := l.Load(fd, file);
    if res < 0 {
      l.FailureCause(blocks, frees, refusals, fd, file, res);
      return;
    }
    ghost var m, v := MapAll(before, l.elfHdr, file, AllLoads(file)), ImageOf(file, l.elfHdr, LOAD_ADDRESS);
    if Supported(file) {
      SupportedIsNotData(file);
      FileSize(file);
      ghost var live := blocks[l.tempBlock := Block(l.elfHdr, AlignMem(|file|, 0x1000))];
      l.AfterLoad(file, before, blocks, live);
    }
    fault := l.tempBlock !in l.os.blocks;
    if fault {
      return;
    }
    assert CopyFits(before, l.elfHdr, file, blocks);
    assert ReadyAt(before, l.elfHdr, file, funcs[..], reqs) && HarmlessAt(effect, before, l.elfHdr, file, reqs);
    ghost var fs := funcs[..];
    ok := Start(l, funcs, mipmapsOff, trilinear, imageHook, parameterHook, reqs, effect, v);
    if ok {
      ReadyForAnyTable(m, v, fs, funcs[..], reqs);
      EverySlotLands(m, v, funcs[..], reqs, l.Memory());
      EveryDataWord(m, v, funcs[..], reqs, effect, Constructors(Final(m, v, funcs[..], reqs), v), l.Memory());
    }
  }

  /* After startup */

  /** memcpy(so_find_addr(name), bytes): main sets a few variables of the game. */
  datatype Store = Store(name: string, bytes: seq<byte>)

  /** The bytes go to the image, and not to its symbol or string table. */
  ghost predicate StoreClear(m: Mem, v: Image, s: Store) {
    match Elf.FindAddr(m, v, s.name)
    case None => true
    case Some(a) =>
      v.base <= a && a + |s.bytes| <= v.base + v.size && forall x | a <= x < a + |s.bytes| :: !InSymbols(v, x)
  }

  /** The stores, at the addresses that m gives. */
  function ApplyStores(m: Mem, v: Image, ss: seq<Store>): (n: Mem)
    ensures |n| == |m|
  {
    if ss == [] then m
    else
      var s, before := ss[|ss| - 1], ApplyStores(m, v, ss[..|ss| - 1]);
      match Elf.FindAddr(m, v, s.name) case Some(a) => Splice(before, a, s.bytes) case None => before
  }

  lemma StoreKeepsSymbols(m: Mem, n: Mem, v: Image, a: int, bytes: seq<byte>)
    requires SameSymbols(m, n, v) && forall x | a <= x < a + |bytes| :: !InSymbols(v, x)
    ensures SameSymbols(m, Splice(n, a, bytes), v)
  {
    hide Byte, InSymbols;
    forall x | InSymbols(v, x)
      ensures Byte(m, x) == Byte(Splice(n, a, bytes), x)
    {
      SpliceFrame(n, a, bytes, x);
    }
  }

  lemma StoreStep(m: Mem, v: Image, ss: seq<Store>, k: nat)
    requires k < |ss|
    ensures ApplyStores(m, v, ss[..k + 1]) ==
      match Elf.FindAddr(m, v, ss[k].name)
      case Some(a) => Splice(ApplyStores(m, v, ss[..k]), a, ss[k].bytes)
      case None => ApplyStores(m, v, ss[..k])
  {
    hide Elf.FindAddr, Splice;
    assert ss[..k + 1][..k] == ss[..k];
  }

  /** The lookups that main makes once the temporary copy is gone, between stores to the image: each gives
      the address it gave before all of them.  False is the fatal error of so_find_addr. */
  method LookUpAll(l: Loader, ss: seq<Store>, names: seq<string>, ghost v: Image) returns (ok: bool, addrs: seq<word>)
    requires l.Loaded(v) && SymbolTableOk(l.Memory(), v) && forall s | s in ss :: StoreClear(l.Memory(), v, s)
    modifies l.os.mem
    ensures l.Loaded(v)
    ensures ok <==>
      && (forall s | s in ss :: Elf.FindAddr(old(l.Memory()), v, s.name).Some?)
      && (forall k | 0 <= k < |names| :: Elf.FindAddr(old(l.Memory()), v, names[k]).Some?)
    ensures ok ==>
      && l.Memory() == ApplyStores(old(l.Memory()), v, ss)
      && |addrs| == |names|
      && forall k | 0 <= k < |names| :: Elf.FindAddr(old(l.Memory()), v, names[k]) == Some(addrs[k])
  {
    hide Word, Half, Byte, CString, Elf.FindAddr, SymbolTableOk, Splice, SameSymbols;
    ghost var m := l.Memory();
    addrs := [];
    SymbolsAreSame(m, v);
    assert ss[..0] == [];
    for k := 0 to |ss|
      invariant l.Loaded(v) && l.Memory() == ApplyStores(m, v, ss[..k]) && SameSymbols(m, l.Memory(), v)
      invariant forall i | 0 <= i < k :: Elf.FindAddr(m, v, ss[i].name).Some?
    {
      var s := ss[k];
      assert s in ss && StoreClear(m, v, s);
      SymbolsStable(m, l.Memory(), v);
      LookupStable(m, l.Memory(), v, s.name);
      var addr := l.FindAddr(s.name, v);
      if addr.None? {
        return false, [];
      }
      StoreStep(m, v, ss, k);
      StoreKeepsSymbols(m, l.Memory(), v, addr.value, s.bytes);
      l.os.Memcpy(addr.value, s.bytes);
    }
    assert ss[..|ss|] == ss;
    ghost var n := l.Memory();
    SymbolsStable(m, n, v);
    for k := 0 to |names|
      invariant l.Loaded(v) && l.Memory() == n
      invariant |addrs| == k && forall i | 0 <= i < k :: Elf.FindAddr(m, v, names[i]) == Some(addrs[i])
    {
      LookupStable(m, n, v, names[k]);
      var addr := l.FindAddr(names[k], v);
      if addr.None? {
        return false, [];
      }
      addrs := addrs + [addr.value];
    }
    ok := true;
  }

  lemma SymbolsAreSame(m: Mem, v: Image)
    ensures SameSymbols(m, m, v)
  {
  }

  /** The stores keep off the bytes in keep. */
  ghost predicate StoresOff(m: Mem, v: Image, ss: seq<Store>, keep: iset<int>) {
    forall s, x: int | s in ss && InStore(m, v, s, x) :: x !in keep
  }

  predicate InStore(m: Mem, v: Image, s: Store, x: int) {
    match Elf.FindAddr(m, v, s.name) case Some(a) => a <= x < a + |s.bytes| case None => false
  }

  lemma {:induction false} StoresAgree(m: Mem, n: Mem, v: Image, ss: seq<Store>, keep: iset<int>)
    requires Agreeing(m, n, v, keep) && StoresOff(m, v, ss, keep)
    ensures Agreeing(ApplyStores(m, v, ss), n, v, keep)
  {
    hide Byte, Elf.FindAddr, Splice;
    forall x | v.base <= x < v.base + v.size && x in keep
      ensures Byte(ApplyStores(m, v, ss), x) == Byte(n, x)
    {
      StoresFrame(m, v, ss, x);
    }
  }

  lemma {:induction false} StoresFrame(m: Mem, v: Image, ss: seq<Store>, x: int)
    requires forall s | s in ss :: !InStore(m, v, s, x)
    ensures Byte(ApplyStores(m, v, ss), x) == Byte(m, x)
  {
    hide Byte, Elf.FindAddr, Splice;
    if ss != [] {
      var rest, s := ss[..|ss| - 1], ss[|ss| - 1];
      StoresFrame(m, v, rest, x);
      assert !InStore(m, v, s, x);
      match Elf.FindAddr(m, v, s.name)
      case Some(a) => SpliceFrame(ApplyStores(m, v, rest), a, s.bytes, x);
      case None =>
    }
  }

  /** Lookups that agree put the stores at the same places. */
  lemma SameStores(m: Mem, n: Mem, v: Image, ss: seq<Store>, keep: iset<int>)
    requires StoresOff(m, v, ss, keep) && forall name :: Elf.FindAddr(n, v, name) == Elf.FindAddr(m, v, name)
    ensures StoresOff(n, v, ss, keep)
  {
    hide Elf.FindAddr;
    assert forall s, x: int | InStore(n, v, s, x) :: InStore(m, v, s, x);
  }

  /** main from so_load to its last lookup.  The stores are clear in the loaded image, wherever the
      temporary copy lies. */
  method RunMain(l: Loader, fd: int, file: Mem, funcs: array<DynLibFunction>, mipmapsOff: bool, trilinear: bool,
                 imageHook: word, parameterHook: word, reqs: seq<Request>, effect: Effect,
                 ss: seq<Store>, names: seq<string>)
    returns (res: int, ok: bool, fault: bool, addrs: seq<word>)
    requires l.os.Valid() && FileOk(file) && fd !in l.os.openFiles && l.textBlock == 0 && l.dataBlock == 0
    requires Bootable(file, funcs[..], reqs, effect, l.os.blocks)
    requires HasMagic(file) && Supported(file) ==> StoresClear(file, ss, l.os.blocks)
    requires mipmapsOff ==> FirstMatch(funcs[..], GL_COMPRESSED_TEX_IMAGE) >= 0
    requires trilinear ==> FirstMatch(funcs[..], GL_TEX_PARAMETER) >= 0
    modifies l, l.os, l.os.mem, funcs
    ensures res >= 0 <==>
      && 0 <= fd && HasMagic(file) && l.os.refusals == old(l.os.refusals)
      && (FirstIsData(file) || (Supported(file) && HasTables(file, LOAD_ADDRESS)))
    ensures res < 0 ==> !ok
    ensures fault <==> res >= 0 && FirstIsData(file)
    ensures fault ==> !ok
    ensures res >= 0 && !fault ==>
      var m, v := MapAll(old(l.Memory()), l.elfHdr, file, AllLoads(file)), ImageOf(file, l.elfHdr, LOAD_ADDRESS);
      ok <==> AllNamed(m, v, reqs, ss, names)
    ensures ok ==>
      var m, v := MapAll(old(l.Memory()), l.elfHdr, file, AllLoads(file)), ImageOf(file, l.elfHdr, LOAD_ADDRESS);
      |addrs| == |names| && forall k | 0 <= k < |names| :: Elf.FindAddr(m, v, names[k]) == Some(addrs[k])
    // after stores that keep off slots and hooks, slots still lead where they should
    ensures ok ==>
      var m, v := MapAll(old(l.Memory()), l.elfHdr, file, AllLoads(file)), ImageOf(file, l.elfHdr, LOAD_ADDRESS);
      StoresOff(m, v, ss, Kept(m, v, reqs)) ==> AllLand(l.Memory(), m, v, funcs[..], reqs)
  {
    hide Word, Half, Byte, CString, Elf.FindAddr, HooksOf, MapAll, AllLand, AllLoads, LiveBlocks, ImageOf, Supported;
    hide FileOk, HasMagic, Final, SymbolTableOk, HasTables, ReadyFile;
    hide HarmlessFile, FirstIsData, AllAbsolute, AllRelative;
    hide Constructors, Loader.Loaded, Loader.LoadFailed, Bootable, CopyFits, Kept, Agreeing, StoresOff, Ready;
    ghost var before, blocks, fs := l.Memory(), l.os.blocks, funcs[..];
    addrs := [];
    res, ok, fault := Boot(l, fd, file, funcs, mipmapsOff, trilinear, imageHook, parameterHook, reqs, effect);
    if ok {
      ghost var m, v := MapAll(before, l.elfHdr, file, AllLoads(file)), ImageOf(file, l.elfHdr, LOAD_ADDRESS);
      ghost var n := l.Memory();
      assert StoresClearAt(before, l.elfHdr, file, ss);
      ok, addrs := LookUpAll(l, ss, names, v);
      if ok && StoresOff(m, v, ss, Kept(m, v, reqs)) {
        SameStores(m, n, v, ss, Kept(m, v, reqs));
        StoresAgree(n, Final(m, v, funcs[..], reqs), v, ss, Kept(m, v, reqs));
        ReadyOnce(file, fs, reqs, effect, blocks, before, l.elfHdr);
        ReadyForAnyTable(m, v, fs, funcs[..], reqs);
        EverySlotLands(m, v, funcs[..], reqs, l.Memory());
      }
    }
  }

  lemma ReadyOnce(f: Mem, fs: seq<DynLibFunction>, reqs: seq<Request>, effect: Effect, live: map<int, Block>,
                  m: Mem, t: word)
    requires Bootable(f, fs, reqs, effect, live) && HasMagic(f) && Supported(f) && CopyFits(m, t, f, live)
    ensures Ready(MapAll(m, t, f, AllLoads(f)), ImageOf(f, t, LOAD_ADDRESS), fs, reqs)
  {
    hide HasMagic, Supported, AllLoads, HarmlessFile, CopyFits, Ready, MapAll, ImageOf;
    assert ReadyAt(m, t, f, fs, reqs);
  }

  ghost predicate StoresClear(f: Mem, ss: seq<Store>, live: map<int, Block>) {
    forall m: Mem, t: word | CopyFits(m, t, f, live) :: StoresClearAt(m, t, f, ss)
  }

  ghost predicate StoresClearAt(m: Mem, t: word, f: Mem, ss: seq<Store>) {
    forall s | s in ss :: StoreClear(MapAll(m, t, f, AllLoads(f)), ImageOf(f, t, LOAD_ADDRESS), s)
  }

  predicate AllNamed(m: Mem, v: Image, reqs: seq<Request>, ss: seq<Store>, names: seq<string>) {
    && (forall k | 0 <= k < |reqs| :: Elf.FindAddr(m, v, reqs[k].name).Some?)
    && (forall s | s in ss :: Elf.FindAddr(m, v, s.name).Some?)
    && (forall k | 0 <= k < |names| :: Elf.FindAddr(m, v, names[k]).Some?)
  }
}
