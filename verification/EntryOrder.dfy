/** Two images that differ in the order of their relocation entries only. */
module EntryOrder {
  import opened Memory
  import opened Imports
  import opened Relocs
  import opened Elf

  /** Address x belongs to a relocation section. */
  ghost predicate InEntries(m: Mem, v: Image, x: int) {
    exists i :: 0 <= i < SectionCount(m, v) && IsRelSection(m, v, i)
                && SectionAddr(m, v, i) <= x < SectionAddr(m, v, i) + SectionSize(m, v, i)
  }

  /** The memories agree outside the relocation sections of m. */
  ghost predicate SameButEntries(m: Mem, v: Image, n: Mem, n': Mem) {
    |n| == |n'| && forall x | !InEntries(m, v, x) :: Byte(n, x) == Byte(n', x)
  }

  lemma EntriesAreProtected(m: Mem, v: Image, x: int)
    requires InEntries(m, v, x)
    ensures Protected(m, v, x)
    ensures WellFormed(m, v) ==> v.base <= x < v.base + v.size
  {
    hide Word, Half, Byte, CString;
    var i :| 0 <= i < SectionCount(m, v) && IsRelSection(m, v, i)
             && SectionAddr(m, v, i) <= x < SectionAddr(m, v, i) + SectionSize(m, v, i);
    if WellFormed(m, v) {
      assert IsLoadedSection(m, v, i);
      assert SectionAddr(m, v, i) == v.base + Word(m, SectionHeader(v, i) + 12);
    }
  }

  lemma CopyIsSame(m: Mem, m': Mem, v: Image)
    requires WellFormed(m, v) && SameButEntries(m, v, m, m')
    ensures SameCopy(m, m', v)
  {
    hide Word, Half, Byte, CString, InEntries, Protected;
    forall x | v.elf <= x < v.elf + v.fileSize
      ensures Byte(m, x) == Byte(m', x)
    {
      if InEntries(m, v, x) {
        EntriesAreProtected(m, v, x);
        assert false;
      }
    }
  }

  lemma SameProtected(m: Mem, m': Mem, v: Image, x: int)
    requires SectionsOk(m, v) && SameCopy(m, m', v)
    ensures Protected(m', v, x) ==> Protected(m, v, x)
  {
    hide Word, Half, Byte, CString, SectionsOk, SameCopy;
    SameCount(m, m', v);
    forall i | 0 <= i < SectionCount(m, v)
      ensures SectionName(m', v, i) == SectionName(m, v, i)
      ensures SectionAddr(m', v, i) == SectionAddr(m, v, i) && SectionSize(m', v, i) == SectionSize(m, v, i)
    {
      SameSection(m, m', v, i);
    }
  }

  /** Disjoint targets that read the same before read the same after. */
  lemma SameTarget(m: Mem, m': Mem, base: word, rs: seq<Reloc>, r: Reloc, x: int)
    requires |m| == SPACE && |m'| == SPACE && AllFit(base, rs) && Disjoint(base, rs)
    requires r in rs && r.Covers(base, x) && Word(m, r.Target(base)) == Word(m', r.Target(base))
    ensures Byte(ApplyAll(m, base, rs), x) == Byte(ApplyAll(m', base, rs), x)
  {
    hide Word, Byte;
    var i :| 0 <= i < |rs| && rs[i] == r;
    DisjointTargets(m, base, rs, i);
    DisjointTargets(m', base, rs, i);
    WordInjective(ApplyAll(m, base, rs), ApplyAll(m', base, rs), r.Target(base));
  }

  lemma SameResult(m: Mem, m': Mem, v: Image, rs: seq<Reloc>, x: int)
    requires WellFormed(m, v) && |m'| == SPACE && SameButEntries(m, v, m, m') && !InEntries(m, v, x)
    requires TargetsClear(m, v, rs) && Disjoint(v.base, rs)
    ensures Byte(ApplyAll(m, v.base, rs), x) == Byte(ApplyAll(m', v.base, rs), x)
  {
    hide Word, Half, Byte, CString, Protected, InEntries, ApplyAll, WellFormed, SameButEntries;
    ClearTargetsFit(m, v, rs);
    assert SameButEntries(m, v, m, m') && |m| == SPACE by {
      FullMemory(m, v);
    }
    if r :| r in rs && r.Covers(v.base, x) {
      TargetIsSame(m, m', v, r);
      SameTarget(m, m', v.base, rs, r, x);
    } else {
      Untouched(m, v.base, rs, x);
      Untouched(m', v.base, rs, x);
      ByteIsSame(m, m', v, x);
    }
  }

  lemma FullMemory(m: Mem, v: Image)
    requires WellFormed(m, v)
    ensures |m| == SPACE
  {
  }

  lemma ByteIsSame(m: Mem, m': Mem, v: Image, x: int)
    requires SameButEntries(m, v, m, m') && !InEntries(m, v, x)
    ensures Byte(m, x) == Byte(m', x)
  {
  }

  lemma TargetIsSame(m: Mem, m': Mem, v: Image, r: Reloc)
    requires SameButEntries(m, v, m, m') && r.Writes()
    requires forall x | r.Covers(v.base, x) :: !Protected(m, v, x)
    ensures Word(m, r.Target(v.base)) == Word(m', r.Target(v.base))
  {
    hide Byte, Protected, InEntries, SameButEntries;
    forall x: int | r.Target(v.base) <= x < r.Target(v.base) + 4
      ensures Byte(m, x) == Byte(m', x)
    {
      assert r.Covers(v.base, x);
      if InEntries(m, v, x) {
        EntriesAreProtected(m, v, x);
        assert false;
      }
      ByteIsSame(m, m', v, x);
    }
    SameWord(m, m', r.Target(v.base));
  }

  /** The same relocations in another order, in a second well-formed image that agrees with the first
      outside the relocation sections. */
  lemma {:induction false} PermutedRelocs(m: Mem, m': Mem, v: Image, fs: seq<DynLibFunction>)
    requires WellFormed(m, v) && |m'| == SPACE && SameButEntries(m, v, m, m')
    requires multiset(AllRelocs(m, v, fs)) == multiset(AllRelocs(m', v, fs))
    requires TargetsClear(m, v, AllRelocs(m, v, fs)) && Disjoint(v.base, AllRelocs(m, v, fs))
    ensures TargetsClear(m', v, AllRelocs(m', v, fs)) && Disjoint(v.base, AllRelocs(m', v, fs))
    ensures SameButEntries(m, v, ApplyAll(m, v.base, AllRelocs(m, v, fs)), ApplyAll(m', v.base, AllRelocs(m', v, fs)))
  {
    hide Word, Half, Byte, CString, Protected, InEntries, ApplyAll, AllRelocs, WellFormed;
    var rs, rs' := AllRelocs(m, v, fs), AllRelocs(m', v, fs);
    FullMemory(m, v);
    SameMembers(rs, rs');
    DisjointPermuted(v.base, rs, rs');
    PermutedClear(m, m', v, rs, rs');
    ClearTargetsFit(m, v, rs);
    OrderIndependent(m', v.base, rs, rs');
    forall x | !InEntries(m, v, x)
      ensures Byte(ApplyAll(m, v.base, rs), x) == Byte(ApplyAll(m', v.base, rs'), x)
    {
      SameResult(m, m', v, rs, x);
    }
  }

  lemma PermutedClear(m: Mem, m': Mem, v: Image, rs: seq<Reloc>, rs': seq<Reloc>)
    requires WellFormed(m, v) && SameButEntries(m, v, m, m') && TargetsClear(m, v, rs)
    requires forall r :: r in rs <==> r in rs'
    ensures TargetsClear(m', v, rs')
  {
    hide Word, Half, Byte, CString, Protected, SymbolTableOk, SectionsOk;
    CopyIsSame(m, m', v);
    forall r, x: int | r in rs' && r.Writes() && r.Covers(v.base, x)
      ensures !Protected(m', v, x)
    {
      SameProtected(m, m', v, x);
    }
  }

  /* The entries as they stand in the sections */

  datatype Rel = Rel(offset: word, info: word)

  function SectionRels(m: Mem, v: Image, i: int, n: nat): seq<Rel> {
    if n == 0 then []
    else SectionRels(m, v, i, n - 1) + [RelAt(m, v, i, n - 1)]
  }

  function RelsUpTo(m: Mem, v: Image, n: nat): seq<Rel> {
    if n == 0 then [] else RelsUpTo(m, v, n - 1) + SectionRels(m, v, n - 1, EntryCount(m, v, n - 1))
  }

  function DecodeAll(m: Mem, v: Image, fs: seq<DynLibFunction>, es: seq<Rel>): (rs: seq<Reloc>)
    ensures |rs| == |es| && forall k | 0 <= k < |es| :: rs[k] == Decode(m, v, fs, es[k].offset, es[k].info)
  {
    if es == [] then []
    else DecodeAll(m, v, fs, es[..|es| - 1]) + [Decode(m, v, fs, es[|es| - 1].offset, es[|es| - 1].info)]
  }

  function RelAt(m: Mem, v: Image, i: int, j: int): Rel {
    Rel(Word(m, EntryAt(m, v, i, j)), Word(m, EntryAt(m, v, i, j) + 4))
  }

  lemma {:induction false} SectionHas(m: Mem, v: Image, i: int, n: nat)
    ensures |SectionRels(m, v, i, n)| == n
    ensures forall j | 0 <= j < n :: SectionRels(m, v, i, n)[j] == RelAt(m, v, i, j)
  {
    hide Word, EntryAt;
    if n > 0 {
      SectionHas(m, v, i, n - 1);
    }
  }

  /** Every entry is listed. */
  lemma {:induction false} RelListed(m: Mem, v: Image, n: nat, i: int, j: int)
    requires 0 <= i < n && 0 <= j < EntryCount(m, v, i)
    ensures RelAt(m, v, i, j) in RelsUpTo(m, v, n)
  {
    hide RelAt, EntryCount;
    if i < n - 1 {
      RelListed(m, v, n - 1, i, j);
    } else {
      SectionHas(m, v, i, EntryCount(m, v, i));
      assert SectionRels(m, v, i, EntryCount(m, v, i))[j] == RelAt(m, v, i, j);
    }
  }

  /** And nothing else is. */
  lemma {:induction false} ListedRel(m: Mem, v: Image, n: nat, e: Rel) returns (i: int, j: int)
    requires e in RelsUpTo(m, v, n)
    ensures 0 <= i < n && 0 <= j < EntryCount(m, v, i) && RelAt(m, v, i, j) == e
  {
    hide RelAt, EntryCount, SectionRels;
    if e in RelsUpTo(m, v, n - 1) {
      i, j := ListedRel(m, v, n - 1, e);
    } else {
      i := n - 1;
      SectionHas(m, v, i, EntryCount(m, v, i));
      j :| 0 <= j < EntryCount(m, v, i) && SectionRels(m, v, i, EntryCount(m, v, i))[j] == e;
    }
  }

  lemma DecodeJoined(m: Mem, v: Image, fs: seq<DynLibFunction>, es: seq<Rel>, es': seq<Rel>)
    ensures DecodeAll(m, v, fs, es + es') == DecodeAll(m, v, fs, es) + DecodeAll(m, v, fs, es')
  {
    hide Decode;
  }

  lemma {:induction false} SectionDecodes(m: Mem, v: Image, fs: seq<DynLibFunction>, i: int, n: nat)
    ensures SectionRelocs(m, v, fs, i, n) == DecodeAll(m, v, fs, SectionRels(m, v, i, n))
  {
    hide Word, Decode, EntryAt;
    if n > 0 {
      SectionDecodes(m, v, fs, i, n - 1);
      assert SectionRels(m, v, i, n)[..|SectionRels(m, v, i, n)| - 1] == SectionRels(m, v, i, n - 1);
    }
  }

  lemma {:induction false} AllDecode(m: Mem, v: Image, fs: seq<DynLibFunction>, n: nat)
    ensures RelocsUpTo(m, v, fs, n) == DecodeAll(m, v, fs, RelsUpTo(m, v, n))
  {
    hide Word, Decode, DecodeAll, SectionRelocs, SectionRels, EntryCount;
    if n > 0 {
      AllDecode(m, v, fs, n - 1);
      SectionDecodes(m, v, fs, n - 1, EntryCount(m, v, n - 1));
      DecodeJoined(m, v, fs, RelsUpTo(m, v, n - 1), SectionRels(m, v, n - 1, EntryCount(m, v, n - 1)));
    } else {
      assert DecodeAll(m, v, fs, []) == [];
    }
  }

  function Without<T>(s: seq<T>, k: nat): seq<T>
    requires k < |s|
  {
    s[..k] + s[k + 1..]
  }

  lemma TakeOut<T>(s: seq<T>, k: nat)
    requires k < |s|
    ensures multiset(s) == multiset{s[k]} + multiset(Without(s, k))
    ensures multiset(Without(s, k)) == multiset(s) - multiset{s[k]}
  {
    assert s == s[..k] + ([s[k]] + s[k + 1..]);
  }

  lemma DecodeWithout(m: Mem, v: Image, fs: seq<DynLibFunction>, es: seq<Rel>, k: nat)
    requires k < |es|
    ensures DecodeAll(m, v, fs, Without(es, k)) == Without(DecodeAll(m, v, fs, es), k)
  {
    hide Decode;
  }

  /** Decoding carries a permutation over. */
  lemma {:induction false} DecodePermuted(m: Mem, v: Image, fs: seq<DynLibFunction>, es: seq<Rel>, es': seq<Rel>)
    requires multiset(es) == multiset(es')
    ensures multiset(DecodeAll(m, v, fs, es)) == multiset(DecodeAll(m, v, fs, es'))
    decreases |es|
  {
    hide Decode, Without;
    if es == [] {
      assert |multiset(es')| == 0;
    } else {
      assert es[0] in multiset(es');
      var k :| 0 <= k < |es'| && es'[k] == es[0];
      TakeOut(es, 0);
      TakeOut(es', k);
      WithoutShorter(es);
      DecodePermuted(m, v, fs, Without(es, 0), Without(es', k));
      DecodeWithout(m, v, fs, es, 0);
      DecodeWithout(m, v, fs, es', k);
      TakeOut(DecodeAll(m, v, fs, es), 0);
      TakeOut(DecodeAll(m, v, fs, es'), k);
    }
  }

  lemma WithoutShorter<T>(s: seq<T>)
    requires s != []
    ensures |Without(s, 0)| < |s|
  {
  }

  /** Sections that hold the same entries in another order decode to the same relocations in another
      order. */
  lemma PermutedSections(m: Mem, m': Mem, v: Image, fs: seq<DynLibFunction>)
    requires SymbolTableOk(m, v) && SameSymbols(m, m', v)
    requires multiset(AllRels(m, v)) == multiset(AllRels(m', v))
    requires forall e | e in AllRels(m, v) :: SymbolExists(v, e.info)
    ensures multiset(AllRelocs(m, v, fs)) == multiset(AllRelocs(m', v, fs))
  {
    hide Word, Half, Byte, CString, Decode, RelsUpTo, SymbolTableOk, SameSymbols, SymbolExists;
    var es, es' := AllRels(m, v), AllRels(m', v);
    AllDecode(m, v, fs, SectionCount(m, v));
    AllDecode(m', v, fs, SectionCount(m', v));
    DecodePermuted(m, v, fs, es, es');
    assert DecodeAll(m, v, fs, es') == DecodeAll(m', v, fs, es') by {
      forall k | 0 <= k < |es'|
        ensures Decode(m, v, fs, es'[k].offset, es'[k].info) == Decode(m', v, fs, es'[k].offset, es'[k].info)
      {
        assert es'[k] in multiset(es);
        DecodeIsSame(m, m', v, fs, es'[k]);
      }
    }
  }

  lemma DecodeIsSame(m: Mem, m': Mem, v: Image, fs: seq<DynLibFunction>, e: Rel)
    requires SymbolTableOk(m, v) && SameSymbols(m, m', v) && SymbolExists(v, e.info)
    ensures Decode(m, v, fs, e.offset, e.info) == Decode(m', v, fs, e.offset, e.info)
  {
    SameDecode(m, m', v, fs, e.offset, e.info);
  }

  /** The entries as they stand, in the order in which so_resolve visits them. */
  function AllRels(m: Mem, v: Image): seq<Rel> { RelsUpTo(m, v, SectionCount(m, v)) }

  /** Permuted entries name the same symbols. */
  lemma PermutedSymbols(m: Mem, m': Mem, v: Image)
    requires SymbolsExist(m, v) && multiset(AllRels(m, v)) == multiset(AllRels(m', v))
    ensures SymbolsExist(m', v)
    ensures forall e | e in AllRels(m, v) :: SymbolExists(v, e.info)
  {
    hide Word, EntryCount, EntryAt, SectionCount, RelsUpTo, SymbolExists;
    forall e | e in AllRels(m, v)
      ensures SymbolExists(v, e.info)
    {
      var i, j := ListedRel(m, v, SectionCount(m, v), e);
    }
    forall i, j | 0 <= i < SectionCount(m', v) && 0 <= j < EntryCount(m', v, i)
      ensures SymbolExists(v, Word(m', EntryAt(m', v, i, j) + 4))
    {
      RelListed(m', v, SectionCount(m', v), i, j);
      assert RelAt(m', v, i, j) in multiset(AllRels(m, v));
    }
  }

  /** Two images that agree outside their relocation sections, where the second holds the entries of the
      first in any other order, also across sections.  If the first meets what so_resolve asks, so does
      the second, and so_resolve leaves both the same outside those sections. */
  lemma {:induction false} PermutedEntries(m: Mem, m': Mem, v: Image, fs: seq<DynLibFunction>)
    requires WellFormed(m, v) && SymbolsExist(m, v)
    requires |m'| == SPACE && SameButEntries(m, v, m, m') && SameSymbols(m, m', v)
    requires multiset(AllRels(m, v)) == multiset(AllRels(m', v))
    requires TargetsClear(m, v, AllRelocs(m, v, fs)) && Disjoint(v.base, AllRelocs(m, v, fs))
    ensures WellFormed(m', v) && SymbolsExist(m', v)
    ensures TargetsClear(m', v, AllRelocs(m', v, fs)) && Disjoint(v.base, AllRelocs(m', v, fs))
    ensures SameButEntries(m, v, ApplyAll(m, v.base, AllRelocs(m, v, fs)), ApplyAll(m', v.base, AllRelocs(m', v, fs)))
  {
    hide Word, Half, Byte, CString, Protected, InEntries, ApplyAll, AllRelocs, RelsUpTo, SectionsOk, SymbolTableOk;
    hide SymbolsExist, SameButEntries, SameSymbols, TargetsClear, Disjoint, SymbolExists, SectionCount;
    CopyIsSame(m, m', v);
    SectionsStable(m, m', v);
    SymbolsStable(m, m', v);
    PermutedSymbols(m, m', v);
    PermutedSections(m, m', v, fs);
    PermutedRelocs(m, m', v, fs);
  }
}
