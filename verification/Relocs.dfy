/** What a list of decoded relocations does to memory, and the laws of that transformation.
    Decoding is in module Elf, the loops that run it in module SoUtil. */
module Relocs {
  import opened Memory

  /** A relocation after symbol lookup, independent of the load address:
      R_ARM_RELATIVE and R_ARM_ABS32 add to the word in place, R_ARM_GLOB_DAT and R_ARM_JUMP_SLOT
      overwrite it, with a symbol of this image or with an import. */
  datatype Reloc =
    | AddBase(offset: word, addend: word)
    | SetBase(offset: word, value: word)
    | SetImport(offset: word, value: word)
    | Ignored(offset: word)
  {
    predicate Writes() { !Ignored? }

    predicate Overwrites() { SetBase? || SetImport? }

    function Target(base: word): word { Add(base, offset) }

    /** The new value of the target word. */
    function Effect(base: word, was: word): word {
      match this
      case AddBase(_, addend) => Add(was, Add(base, addend))
      case SetBase(_, value) => Add(base, value)
      case SetImport(_, value) => value
      case Ignored(_) => was
    }

    /** The target word starts in the address space and does not run over its end. */
    predicate Fits(base: word) {
      Writes() ==> Target(base) + 4 <= SPACE
    }

    predicate Covers(base: word, x: int) {
      Writes() && Target(base) <= x < Target(base) + 4
    }
  }

  function ApplyReloc(m: Mem, base: word, r: Reloc): (n: Mem)
    ensures |n| == |m|
  {
    if r.Writes() then SetWord(m, r.Target(base), r.Effect(base, Word(m, r.Target(base)))) else m
  }

  function ApplyAll(m: Mem, base: word, rs: seq<Reloc>): (n: Mem)
    ensures |n| == |m|
  {
    if rs == [] then m else ApplyReloc(ApplyAll(m, base, rs[..|rs| - 1]), base, rs[|rs| - 1])
  }

  ghost predicate AllFit(base: word, rs: seq<Reloc>) {
    forall r | r in rs :: r.Fits(base)
  }

  /** Two targets that do not share a byte. */
  predicate Apart(base: word, r: Reloc, s: Reloc) {
    r.Writes() && s.Writes() ==>
      r.Target(base) + 4 <= s.Target(base) || s.Target(base) + 4 <= r.Target(base)
  }

  predicate Disjoint(base: word, rs: seq<Reloc>) {
    forall i, j | 0 <= i < j < |rs| :: Apart(base, rs[i], rs[j])
  }

  /* Frame */

  lemma {:induction false} Untouched(m: Mem, base: word, rs: seq<Reloc>, x: int)
    requires forall r | r in rs :: !r.Covers(base, x)
    ensures Byte(ApplyAll(m, base, rs), x) == Byte(m, x)
  {
    if rs != [] {
      var r := rs[|rs| - 1];
      assert r in rs;
      var n := ApplyAll(m, base, rs[..|rs| - 1]);
      Untouched(m, base, rs[..|rs| - 1], x);
      if r.Writes() {
        SpliceFrame(n, r.Target(base), WordBytes(r.Effect(base, Word(n, r.Target(base)))), x);
      }
    }
  }

  lemma UntouchedWord(m: Mem, base: word, rs: seq<Reloc>, a: int)
    requires forall r | r in rs && r.Writes() :: a + 4 <= r.Target(base) || r.Target(base) + 4 <= a
    ensures Word(ApplyAll(m, base, rs), a) == Word(m, a)
  {
    forall x | a <= x < a + 4
      ensures Byte(ApplyAll(m, base, rs), x) == Byte(m, x)
    {
      Untouched(m, base, rs, x);
    }
    SameWord(m, ApplyAll(m, base, rs), a);
  }

  lemma ApplyOne(m: Mem, base: word, r: Reloc, a: int)
    requires |m| == SPACE && r.Fits(base)
    ensures r.Writes() ==>
      Word(ApplyReloc(m, base, r), r.Target(base)) == r.Effect(base, Word(m, r.Target(base)))
    ensures !r.Writes() || a + 4 <= r.Target(base) || r.Target(base) + 4 <= a ==>
      Word(ApplyReloc(m, base, r), a) == Word(m, a)
  {
    if r.Writes() {
      WordAfterSet(m, r.Target(base), r.Effect(base, Word(m, r.Target(base))), a);
    }
  }

  /* Pairwise disjoint targets: every target word becomes a function of its original value. */

  lemma {:induction false} DisjointTargets(m: Mem, base: word, rs: seq<Reloc>, i: int)
    requires |m| == SPACE && AllFit(base, rs) && Disjoint(base, rs)
    requires 0 <= i < |rs| && rs[i].Writes()
    ensures Word(ApplyAll(m, base, rs), rs[i].Target(base)) == rs[i].Effect(base, Word(m, rs[i].Target(base)))
  {
    var rest, last := rs[..|rs| - 1], rs[|rs| - 1];
    var n := ApplyAll(m, base, rest);
    ApplyOne(n, base, last, rs[i].Target(base));
    if i == |rs| - 1 {
      forall r | r in rest && r.Writes()
        ensures Apart(base, r, last)
      {
      }
      UntouchedWord(m, base, rest, last.Target(base));
    } else {
      assert Apart(base, rs[i], last);
      assert rest[i] == rs[i];
      DisjointTargets(m, base, rest, i);
    }
  }

  /** The same list in any order, within one relocation section or across sections, leaves the
      same memory. */
  lemma OrderIndependent(m: Mem, base: word, rs: seq<Reloc>, qs: seq<Reloc>)
    requires |m| == SPACE && AllFit(base, rs) && Disjoint(base, rs)
    requires multiset(rs) == multiset(qs)
    ensures ApplyAll(m, base, rs) == ApplyAll(m, base, qs)
  {
    SameMembers(rs, qs);
    DisjointPermuted(base, rs, qs);
    var n, n' := ApplyAll(m, base, rs), ApplyAll(m, base, qs);
    forall x | 0 <= x < |m|
      ensures Byte(n, x) == Byte(n', x)
    {
      if r :| r in rs && r.Covers(base, x) {
        var i :| 0 <= i < |rs| && rs[i] == r;
        assert r in qs;
        var j :| 0 <= j < |qs| && qs[j] == r;
        DisjointTargets(m, base, rs, i);
        DisjointTargets(m, base, qs, j);
        WordInjective(n, n', r.Target(base));
      } else {
        Untouched(m, base, rs, x);
        Untouched(m, base, qs, x);
      }
    }
    SameMem(n, n');
  }

  lemma SameMembers(rs: seq<Reloc>, qs: seq<Reloc>)
    requires multiset(rs) == multiset(qs)
    ensures forall r :: r in rs <==> r in qs
  {
    forall r
      ensures r in rs <==> r in qs
    {
      assert r in rs <==> r in multiset(rs);
      assert r in qs <==> r in multiset(qs);
    }
  }

  lemma DisjointPermuted(base: word, rs: seq<Reloc>, qs: seq<Reloc>)
    requires Disjoint(base, rs) && multiset(rs) == multiset(qs)
    ensures Disjoint(base, qs)
  {
    forall i, j | 0 <= i < j < |qs|
      ensures Apart(base, qs[i], qs[j])
    {
      SameMembers(rs, qs);
      assert qs[i] in rs && qs[j] in rs;
      if qs[i] == qs[j] {
        CountTwice(qs, i, j);
        var i', j' := FindTwo(rs, qs[i]);
        assert Apart(base, rs[i'], rs[j']);
      } else {
        var i' :| 0 <= i' < |rs| && rs[i'] == qs[i];
        var j' :| 0 <= j' < |rs| && rs[j'] == qs[j];
        assert Apart(base, rs[i'], rs[j']) || Apart(base, rs[j'], rs[i']);
      }
    }
  }

  lemma CountTwice(s: seq<Reloc>, i: int, j: int)
    requires 0 <= i < j < |s| && s[i] == s[j]
    ensures multiset(s)[s[i]] >= 2
  {
    assert s == s[..j] + s[j..];
    assert s[i] == s[..j][i] && s[j] == s[j..][0];
    assert s[i] in multiset(s[..j]) && s[i] in multiset(s[j..]);
  }

  lemma {:induction false} FindTwo(s: seq<Reloc>, r: Reloc) returns (i: int, j: int)
    requires multiset(s)[r] >= 2
    ensures 0 <= i < j < |s| && s[i] == r && s[j] == r
  {
    assert s == s[..|s| - 1] + [s[|s| - 1]];
    if s[|s| - 1] == r {
      j := |s| - 1;
      assert r in multiset(s[..j]);
      i :| 0 <= i < j && s[..j][i] == r;
    } else {
      i, j := FindTwo(s[..|s| - 1], r);
    }
  }

  /* Repeated targets */

  predicate Hits(base: word, r: Reloc, a: int) {
    r.Writes() && r.Target(base) == a
  }

  /** An entry that writes exactly the word at a, or none of its bytes. */
  predicate CleanAt(base: word, r: Reloc, a: int) {
    !r.Writes() || r.Target(base) == a || a + 4 <= r.Target(base) || r.Target(base) + 4 <= a
  }

  /** The last entry that overwrites address a, or -1. */
  function LastOverwrite(base: word, rs: seq<Reloc>, a: int): (k: int)
    ensures -1 <= k < |rs|
    ensures k >= 0 ==> Hits(base, rs[k], a) && rs[k].Overwrites()
    ensures forall i | k < i < |rs| :: !(Hits(base, rs[i], a) && rs[i].Overwrites())
  {
    if rs == [] then -1
    else if Hits(base, rs[|rs| - 1], a) && rs[|rs| - 1].Overwrites() then |rs| - 1
    else LastOverwrite(base, rs[..|rs| - 1], a)
  }

  /** The sum, in unbounded integers, of what the additive entries of rs add at address a. */
  function Additions(base: word, rs: seq<Reloc>, a: int): int {
    if rs == [] then 0
    else
      var r := rs[|rs| - 1];
      Additions(base, rs[..|rs| - 1], a) +
        (if Hits(base, r, a) && r.AddBase? then base + r.addend else 0)
  }

  lemma AddAssociates(x: int, y: int, z: int)
    ensures Add(Add(x, y), z) == Add(x, y + z) && Add(x, Add(y, z)) == Add(x, y + z)
  {
  }

  /** The effects of the entries that hit address a, one after the other. */
  function SlotAfter(w: word, base: word, rs: seq<Reloc>, a: word): word {
    if rs == [] then w
    else
      var r := rs[|rs| - 1];
      var before := SlotAfter(w, base, rs[..|rs| - 1], a);
      if Hits(base, r, a) then r.Effect(base, before) else before
  }

  /** The value RepeatedTargets promises for a word that is w at the start. */
  function FinalWord(w: word, base: word, rs: seq<Reloc>, a: word): word {
    var k := LastOverwrite(base, rs, a);
    Add(if k < 0 then w else rs[k].Effect(base, 0), Additions(base, rs[k + 1..], a))
  }

  lemma LastOverwriteStep(base: word, rs: seq<Reloc>, a: int)
    requires rs != []
    ensures var r := rs[|rs| - 1];
            LastOverwrite(base, rs, a) ==
            if Hits(base, r, a) && r.Overwrites() then |rs| - 1 else LastOverwrite(base, rs[..|rs| - 1], a)
  {
  }

  lemma AdditionsStep(base: word, rs: seq<Reloc>, k: nat, a: int)
    requires k < |rs|
    ensures var r := rs[|rs| - 1];
            Additions(base, rs[k..], a) == Additions(base, rs[..|rs| - 1][k..], a) +
              if Hits(base, r, a) && r.AddBase? then base + r.addend else 0
  {
    assert rs[k..][..|rs[k..]| - 1] == rs[..|rs| - 1][k..];
    assert rs[k..][|rs[k..]| - 1] == rs[|rs| - 1];
  }

  /** How one more entry changes that value. */
  lemma FinalWordStep(w: word, base: word, rs: seq<Reloc>, a: word)
    requires rs != []
    ensures var before, r := FinalWord(w, base, rs[..|rs| - 1], a), rs[|rs| - 1];
            FinalWord(w, base, rs, a) == if Hits(base, r, a) then r.Effect(base, before) else before
  {
    hide LastOverwrite, Additions;
    var rest, r := rs[..|rs| - 1], rs[|rs| - 1];
    LastOverwriteStep(base, rs, a);
    var k := LastOverwrite(base, rs, a);
    if k == |rs| - 1 {
      assert rs[k + 1..] == [];
      AdditionsOfNone(base, rs[k + 1..], a);
      assert r.Effect(base, 0) < SPACE;
    } else {
      AdditionsStep(base, rs, k + 1, a);
      var start, sum := if k < 0 then w else rs[k].Effect(base, 0), Additions(base, rest[k + 1..], a);
      if Hits(base, r, a) {
        AddAssociates(start, sum, base + r.addend);
        AddAssociates(Add(start, sum), base, r.addend);
      }
    }
  }

  lemma AdditionsOfNone(base: word, rs: seq<Reloc>, a: int)
    requires rs == []
    ensures Additions(base, rs, a) == 0
  {
  }

  lemma FinalWordOfNone(w: word, base: word, rs: seq<Reloc>, a: word)
    requires rs == []
    ensures FinalWord(w, base, rs, a) == w
  {
    assert LastOverwrite(base, rs, a) == -1;
    assert |rs[0..]| == 0;
    AdditionsOfNone(base, rs[0..], a);
    assert Add(w, 0) == w;
  }

  lemma {:induction false} SlotIsFinalWord(w: word, base: word, rs: seq<Reloc>, a: word)
    ensures SlotAfter(w, base, rs, a) == FinalWord(w, base, rs, a)
  {
    if rs == [] {
      FinalWordOfNone(w, base, rs, a);
    } else {
      SlotIsFinalWord(w, base, rs[..|rs| - 1], a);
      FinalWordStep(w, base, rs, a);
    }
  }

  lemma {:induction false} ApplyAtSlot(m: Mem, base: word, rs: seq<Reloc>, a: word)
    requires |m| == SPACE && AllFit(base, rs)
    requires forall r | r in rs :: CleanAt(base, r, a)
    ensures Word(ApplyAll(m, base, rs), a) == SlotAfter(Word(m, a), base, rs, a)
  {
    if rs != [] {
      var rest, last := rs[..|rs| - 1], rs[|rs| - 1];
      assert last in rs && forall r | r in rest :: r in rs;
      ApplyAtSlot(m, base, rest, a);
      ApplyOne(ApplyAll(m, base, rest), base, last, a);
    }
  }

  /** When targets may repeat, a slot ends as the value of its last overwriting entry (its
      original word when there is none) plus the sum mod 2^32 of the additive entries after it.
      Earlier additions are lost and unknown types contribute nothing. */
  lemma {:induction false} RepeatedTargets(m: Mem, base: word, rs: seq<Reloc>, a: word)
    requires |m| == SPACE && AllFit(base, rs)
    requires forall r | r in rs :: CleanAt(base, r, a)
    ensures var k := LastOverwrite(base, rs, a);
            Word(ApplyAll(m, base, rs), a) ==
            Add(if k < 0 then Word(m, a) else rs[k].Effect(base, 0), Additions(base, rs[k + 1..], a))
  {
    ApplyAtSlot(m, base, rs, a);
    SlotIsFinalWord(Word(m, a), base, rs, a);
  }

  /* Base equivariance */

  predicate MovesWithBase(r: Reloc) {
    r.AddBase? || r.SetBase?
  }

  /** Two runs over the same image at two bases: words that hold an address of the image differ
      by exactly the difference of the bases mod 2^32, imported and unresolved slots agree. */
  lemma {:induction false} BaseEquivariance(m: Mem, base: word, m': Mem, base': word, rs: seq<Reloc>, i: int)
    requires |m| == SPACE && AllFit(base, rs) && Disjoint(base, rs)
    requires |m'| == SPACE && AllFit(base', rs) && Disjoint(base', rs)
    requires 0 <= i < |rs| && rs[i].Writes()
    requires Word(m, rs[i].Target(base)) == Word(m', rs[i].Target(base'))
    ensures Word(ApplyAll(m', base', rs), rs[i].Target(base')) ==
      Add(Word(ApplyAll(m, base, rs), rs[i].Target(base)), if MovesWithBase(rs[i]) then base' - base else 0)
  {
    DisjointTargets(m, base, rs, i);
    DisjointTargets(m', base', rs, i);
    EffectMoves(base, base', rs[i], Word(m, rs[i].Target(base)));
  }

  lemma EffectMoves(base: word, base': word, r: Reloc, w: word)
    requires r.Writes()
    ensures r.Effect(base', w) == Add(r.Effect(base, w), if MovesWithBase(r) then base' - base else 0)
  {
    match r
    case AddBase(_, addend) =>
      AddAssociates(w, base, addend);
      AddAssociates(w, base', addend);
      AddAssociates(w, base + addend, base' - base);
    case SetBase(_, value) =>
      AddAssociates(value, base, base' - base);
    case SetImport(_, _) =>
  }
}
