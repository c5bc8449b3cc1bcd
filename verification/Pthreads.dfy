/** The pthread wrappers of imports.c.  A mutex or condition variable of the game is one word: 0, the
    static initialiser 0x4000 of a recursive mutex, or a pointer to an object that the wrappers
    allocated on first use.  Calls run one after the other. */
module Pthreads {
  import opened Memory

  datatype Kind = Mutex | Cond

  const RECURSIVE_INITIALIZER: word := 0x4000
  const LOWEST_POINTER: word := 0x8000

  /** The functions of the C library that the wrappers end in. */
  datatype Op = InitObject | DestroyObject | Lock | Unlock | Signal | Broadcast | PlainWait | TimedWait

  /** One call of the C library, on an object of the heap; a wait takes a mutex as well. */
  datatype LibCall = LibCall(op: Op, kind: Kind, target: word, mutex: word)

  /** The words of the game, the live objects of the heap, and the library calls made so far. */
  datatype World = World(slots: seq<word>, heap: map<word, Kind>, log: seq<LibCall>)

  /** What the C library answers during one call: the result of calloc, of the library's init
      function, and of the operation itself. */
  datatype Answers = Answers(calloc: word, init: int, result: int)

  datatype Call =
    | Init(slot: nat)
    | Destroy(slot: nat)
    | Use(slot: nat, op: Op)
    | Wait(slot: nat, mutex: nat, op: Op)

  /** A fault is a use or a free of memory that is no live object of the right kind. */
  datatype Outcome = Fault | Done(world: World, ret: int)

  /* The specification */

  predicate Unset(kinds: seq<Kind>, slot: nat, v: word)
    requires slot < |kinds|
  {
    v == 0 || (kinds[slot] == Mutex && v == RECURSIVE_INITIALIZER)
  }

  predicate IsObject(w: World, p: word, kind: Kind) {
    p in w.heap && w.heap[p] == kind
  }

  ghost predicate SlotOk(w: World, kinds: seq<Kind>, i: nat)
    requires i < |kinds| == |w.slots|
  {
    Unset(kinds, i, w.slots[i]) || (w.slots[i] > LOWEST_POINTER && IsObject(w, w.slots[i], kinds[i]))
  }

  ghost predicate NoSharing(w: World) {
    forall i, j | 0 <= i < j < |w.slots| && w.slots[i] > LOWEST_POINTER :: w.slots[i] != w.slots[j]
  }

  ghost predicate NoLeak(w: World) {
    forall p | p in w.heap :: p > LOWEST_POINTER && p in w.slots
  }

  /** Every slot is unset or owns a live object of its kind; different slots own different objects;
      every live object is owned. */
  ghost predicate Owned(w: World, kinds: seq<Kind>) {
    |w.slots| == |kinds| && (forall i | 0 <= i < |kinds| :: SlotOk(w, kinds, i)) && NoSharing(w) && NoLeak(w)
  }

  /** calloc fails or returns a new object above the sentinels. */
  predicate Honest(w: World, a: Answers) {
    a.calloc == 0 || (a.calloc > LOWEST_POINTER && a.calloc !in w.heap)
  }

  predicate Fails(a: Answers) {
    a.calloc == 0 || a.init < 0
  }

  function Materialise(w: World, kinds: seq<Kind>, slot: nat, a: Answers): Outcome
    requires slot < |kinds| == |w.slots|
  {
    if a.calloc == 0 then Done(w, -1)
    else
      var called := w.log + [LibCall(InitObject, kinds[slot], a.calloc, 0)];
      if a.init < 0 then Done(w.(log := called), -1)
      else Done(World(w.slots[slot := a.calloc], w.heap[a.calloc := kinds[slot]], called), 0)
  }

  /** The object a slot stands for, allocated on first use. */
  function Prepare(w: World, kinds: seq<Kind>, slot: nat, a: Answers): (out: Outcome)
    requires slot < |kinds| == |w.slots|
    ensures out.Done? ==> |out.world.slots| == |kinds|
    ensures out.Done? && !Unset(kinds, slot, w.slots[slot]) ==> out == Done(w, 0)
  {
    if Unset(kinds, slot, w.slots[slot]) then Materialise(w, kinds, slot, a)
    else if IsObject(w, w.slots[slot], kinds[slot]) then Done(w, 0)
    else Fault
  }

  predicate InRange(kinds: seq<Kind>, call: Call) {
    && call.slot < |kinds|
    && (call.Use? ==> call.op in if kinds[call.slot] == Mutex then {Lock, Unlock} else {Signal, Broadcast})
    && (call.Wait? ==>
          && call.op in {PlainWait, TimedWait}
          && kinds[call.slot] == Cond && call.mutex < |kinds| && kinds[call.mutex] == Mutex)
  }

  function Logged(w: World, op: Op, kind: Kind, target: word, mutex: word): World {
    w.(log := w.log + [LibCall(op, kind, target, mutex)])
  }

  function Step(w: World, kinds: seq<Kind>, call: Call, a: Answers): (out: Outcome)
    requires |w.slots| == |kinds| && InRange(kinds, call)
    ensures out.Done? ==> |out.world.slots| == |kinds|
  {
    var v := w.slots[call.slot];
    var kind := kinds[call.slot];
    match call
    case Init(slot) => Materialise(w, kinds, slot, a)
    case Destroy(slot) =>
      if (if kind == Mutex then v > LOWEST_POINTER else v != 0) then
        if IsObject(w, v, kind) then
          Done(World(w.slots[slot := 0], w.heap - {v}, Logged(w, DestroyObject, kind, v, 0).log), 0)
        else Fault
      else Done(w, 0)
    case Use(slot, op) =>
      (match Prepare(w, kinds, slot, a)
       case Fault => Fault
       case Done(n, ret) => if ret < 0 then Done(n, ret) else Done(Logged(n, op, kind, n.slots[slot], 0), a.result))
    case Wait(slot, mutex, op) =>
      match Prepare(w, kinds, slot, a)
      case Fault => Fault
      case Done(n, ret) =>
        if ret < 0 then Done(n, ret)
        else if IsObject(n, n.slots[mutex], Mutex) then
          Done(Logged(n, op, Cond, n.slots[slot], n.slots[mutex]), a.result)
        else Fault
  }

  /** What a caller must respect: initialise only what is unset, and wait only with a mutex that has
      been materialised, as a locked mutex is.  A call that fails for lack of memory is harmless. */
  predicate Legal(w: World, kinds: seq<Kind>, call: Call, a: Answers)
    requires |w.slots| == |kinds| && InRange(kinds, call)
  {
    match call
    case Init(slot) => Unset(kinds, slot, w.slots[slot]) || Fails(a)
    case Wait(slot, mutex, _) =>
      !Unset(kinds, mutex, w.slots[mutex]) || (Unset(kinds, slot, w.slots[slot]) && Fails(a))
    case _ => true
  }

  /* One call */

  lemma NoLeakAfterSet(slots: seq<word>, slot: nat, p: word, q: word)
    requires slot < |slots| && q in slots && q != slots[slot]
    ensures q in slots[slot := p]
  {
    var i :| 0 <= i < |slots| && slots[i] == q;
    assert slots[slot := p][i] == q;
  }

  lemma MaterialiseOwned(w: World, kinds: seq<Kind>, slot: nat, a: Answers)
    requires Owned(w, kinds) && slot < |kinds| && Honest(w, a) && Unset(kinds, slot, w.slots[slot])
    ensures Owned(Materialise(w, kinds, slot, a).world, kinds)
  {
    var n := Materialise(w, kinds, slot, a).world;
    if Fails(a) {
      LogIsFree(w, n.log, kinds);
    } else {
      forall i | 0 <= i < |kinds|
        ensures SlotOk(n, kinds, i) && (w.slots[i] > LOWEST_POINTER ==> w.slots[i] in w.heap)
      {
        assert SlotOk(w, kinds, i);
      }
      assert n.slots[slot] == a.calloc;
      forall p | p in n.heap
        ensures p > LOWEST_POINTER && p in n.slots
      {
        if p != a.calloc {
          NoLeakAfterSet(w.slots, slot, a.calloc, p);
        }
      }
    }
  }

  lemma SlotIsObject(w: World, kinds: seq<Kind>, slot: nat)
    requires Owned(w, kinds) && slot < |kinds| && !Unset(kinds, slot, w.slots[slot])
    ensures w.slots[slot] > LOWEST_POINTER && IsObject(w, w.slots[slot], kinds[slot])
  {
    assert SlotOk(w, kinds, slot);
  }

  lemma DestroyOwned(w: World, kinds: seq<Kind>, slot: nat, log: seq<LibCall>)
    requires Owned(w, kinds) && slot < |kinds| && !Unset(kinds, slot, w.slots[slot])
    ensures Owned(World(w.slots[slot := 0], w.heap - {w.slots[slot]}, log), kinds)
  {
    var n := World(w.slots[slot := 0], w.heap - {w.slots[slot]}, log);
    SlotIsObject(w, kinds, slot);
    forall i | 0 <= i < |kinds|
      ensures SlotOk(n, kinds, i)
    {
      assert SlotOk(w, kinds, i);
      assert i < slot ==> w.slots[i] > LOWEST_POINTER ==> w.slots[i] != w.slots[slot];
    }
    forall p | p in n.heap
      ensures p > LOWEST_POINTER && p in n.slots
    {
      NoLeakAfterSet(w.slots, slot, 0, p);
    }
  }

  /** A second initialisation leaks the first object: it stays live and no slot owns it any more. */
  lemma InitLeaks(w: World, kinds: seq<Kind>, slot: nat, a: Answers)
    requires Owned(w, kinds) && slot < |kinds| && Honest(w, a)
    requires !Unset(kinds, slot, w.slots[slot]) && !Fails(a)
    ensures var n := Materialise(w, kinds, slot, a).world; w.slots[slot] in n.heap && w.slots[slot] !in n.slots
    ensures !Owned(Materialise(w, kinds, slot, a).world, kinds)
  {
    SlotIsObject(w, kinds, slot);
    var n := Materialise(w, kinds, slot, a).world;
    forall i | 0 <= i < |kinds|
      ensures n.slots[i] != w.slots[slot]
    {
      assert i < slot ==> w.slots[i] > LOWEST_POINTER ==> w.slots[i] != w.slots[slot];
    }
  }

  /** Ownership does not depend on the log. */
  lemma LogIsFree(w: World, log: seq<LibCall>, kinds: seq<Kind>)
    requires Owned(w, kinds)
    ensures Owned(w.(log := log), kinds)
  {
    forall i | 0 <= i < |kinds|
      ensures SlotOk(w.(log := log), kinds, i)
    {
      assert SlotOk(w, kinds, i);
    }
  }

  lemma PrepareOwned(w: World, kinds: seq<Kind>, slot: nat, a: Answers)
    requires |w.slots| == |kinds| && Owned(w, kinds) && slot < |kinds| && Honest(w, a)
    ensures var out := Prepare(w, kinds, slot, a);
            && out.Done? && Owned(out.world, kinds) && (out.ret < 0 <==> Unset(kinds, slot, w.slots[slot]) && Fails(a))
            && forall i | 0 <= i < |kinds| && i != slot :: out.world.slots[i] == w.slots[i]
  {
    hide Owned;
    if Unset(kinds, slot, w.slots[slot]) {
      MaterialiseOwned(w, kinds, slot, a);
    } else {
      SlotIsObject(w, kinds, slot);
    }
  }

  lemma UnsetIsNoObject(w: World, kinds: seq<Kind>, slot: nat)
    requires Owned(w, kinds) && slot < |kinds|
    ensures IsObject(w, w.slots[slot], kinds[slot]) <==> !Unset(kinds, slot, w.slots[slot])
  {
    if !Unset(kinds, slot, w.slots[slot]) {
      SlotIsObject(w, kinds, slot);
    }
  }

  /** Ownership is kept, and nothing faults, exactly when the call is legal. */
  lemma StepOwned(w: World, kinds: seq<Kind>, call: Call, a: Answers)
    requires |w.slots| == |kinds| && Owned(w, kinds) && InRange(kinds, call) && Honest(w, a)
    ensures var out := Step(w, kinds, call, a);
            (out.Done? && Owned(out.world, kinds)) <==> Legal(w, kinds, call, a)
  {
    hide Owned, Prepare, IsObject;
    match call
    case Init(slot) =>
      if Unset(kinds, slot, w.slots[slot]) {
        MaterialiseOwned(w, kinds, slot, a);
      } else if Fails(a) {
        LogIsFree(w, Materialise(w, kinds, slot, a).world.log, kinds);
      } else {
        InitLeaks(w, kinds, slot, a);
      }
    case Destroy(slot) =>
      if !Unset(kinds, slot, w.slots[slot]) {
        SlotIsObject(w, kinds, slot);
        DestroyOwned(w, kinds, slot, Logged(w, DestroyObject, kinds[slot], w.slots[slot], 0).log);
      }
    case Use(slot, op) =>
      PrepareOwned(w, kinds, slot, a);
      UseLogOwned(Prepare(w, kinds, slot, a).world, kinds);
    case Wait(slot, mutex, op) =>
      PrepareOwned(w, kinds, slot, a);
      UnsetIsNoObject(Prepare(w, kinds, slot, a).world, kinds, mutex);
      UseLogOwned(Prepare(w, kinds, slot, a).world, kinds);
  }

  lemma UseLogOwned(w: World, kinds: seq<Kind>)
    requires Owned(w, kinds)
    ensures forall op, kind, target, mutex :: Owned(Logged(w, op, kind, target, mutex), kinds)
  {
    hide Owned;
    forall op, kind, target, mutex
      ensures Owned(Logged(w, op, kind, target, mutex), kinds)
    {
      LogIsFree(w, Logged(w, op, kind, target, mutex).log, kinds);
    }
  }

  /* What the library is asked to do */

  /** A word without an object stays as it is when memory or the library's init function fails. */
  predicate NoObject(w: World, kinds: seq<Kind>, slot: nat, a: Answers)
    requires slot < |kinds| == |w.slots|
  {
    (w.slots[slot] == 0 || (kinds[slot] == Mutex && w.slots[slot] == 0x4000)) && (a.calloc == 0 || a.init < 0)
  }

  /** The call of the library's init function that comes first when the word has no object yet. */
  function InitCalls(w: World, kinds: seq<Kind>, slot: nat, a: Answers): seq<LibCall>
    requires slot < |kinds| == |w.slots|
  {
    if (w.slots[slot] == 0 || (kinds[slot] == Mutex && w.slots[slot] == 0x4000)) && a.calloc != 0
    then [LibCall(InitObject, kinds[slot], a.calloc, 0)]
    else []
  }

  /** lock, unlock, signal and broadcast: with an object in the word, new or old, exactly one call of the
      library's own function, on that object, whose answer is returned; without one, -1 and no such call. */
  lemma UseCalls(w: World, kinds: seq<Kind>, slot: nat, op: Op, a: Answers)
    requires Owned(w, kinds) && InRange(kinds, Use(slot, op)) && Honest(w, a)
    ensures var out := Step(w, kinds, Use(slot, op), a);
            && out.Done?
            && (NoObject(w, kinds, slot, a) ==>
                  out.ret == -1 && out.world == World(w.slots, w.heap, w.log + InitCalls(w, kinds, slot, a)))
            && (!NoObject(w, kinds, slot, a) ==>
                  && out.ret == a.result
                  && out.world.log == w.log + InitCalls(w, kinds, slot, a)
                                      + [LibCall(op, kinds[slot], out.world.slots[slot], 0)]
                  && IsObject(out.world, out.world.slots[slot], kinds[slot]))
  {
    if !Unset(kinds, slot, w.slots[slot]) {
      SlotIsObject(w, kinds, slot);
    }
  }

  /** The waits, when they do not fault: the same, with the object of the mutex word. */
  lemma WaitCalls(w: World, kinds: seq<Kind>, slot: nat, mutex: nat, op: Op, a: Answers)
    requires Owned(w, kinds) && InRange(kinds, Wait(slot, mutex, op)) && Honest(w, a)
    ensures var out := Step(w, kinds, Wait(slot, mutex, op), a);
            && (NoObject(w, kinds, slot, a) ==>
                  out == Done(World(w.slots, w.heap, w.log + InitCalls(w, kinds, slot, a)), -1))
            && (!NoObject(w, kinds, slot, a) && out.Done? ==>
                  && out.ret == a.result
                  && out.world.log == w.log + InitCalls(w, kinds, slot, a)
                                      + [LibCall(op, Cond, out.world.slots[slot], w.slots[mutex])]
                  && IsObject(out.world, out.world.slots[slot], Cond) && IsObject(out.world, w.slots[mutex], Mutex))
  {
    if !Unset(kinds, slot, w.slots[slot]) {
      SlotIsObject(w, kinds, slot);
    }
  }

  /** The destructors: an object is destroyed by the library, once, and the word cleared; a word without
      one is left alone.  The answer is 0 in any case. */
  lemma DestroyCalls(w: World, kinds: seq<Kind>, slot: nat, a: Answers)
    requires Owned(w, kinds) && slot < |kinds|
    ensures var out, v := Step(w, kinds, Destroy(slot), a), w.slots[slot];
            if v == 0 || (kinds[slot] == Mutex && v == 0x4000) then out == Done(w, 0)
            else out == Done(World(w.slots[slot := 0], w.heap - {v},
                                   w.log + [LibCall(DestroyObject, kinds[slot], v, 0)]), 0)
  {
    if !Unset(kinds, slot, w.slots[slot]) {
      SlotIsObject(w, kinds, slot);
    }
  }

  /** The constructors: a new object in the word and 0, or -1 and the word and the heap as before. */
  lemma InitCallsLibrary(w: World, kinds: seq<Kind>, slot: nat, a: Answers)
    requires |w.slots| == |kinds| && slot < |kinds|
    ensures var out := Step(w, kinds, Init(slot), a);
            && out.Done?
            && (a.calloc == 0 ==> out == Done(w, -1))
            && (a.calloc != 0 ==> out.world.log == w.log + [LibCall(InitObject, kinds[slot], a.calloc, 0)])
            && (a.calloc != 0 && a.init < 0 ==>
                  out.ret == -1 && out.world.slots == w.slots && out.world.heap == w.heap)
            && (a.calloc != 0 && a.init >= 0 ==>
                  out.ret == 0 && out.world.slots == w.slots[slot := a.calloc]
                  && out.world.heap == w.heap[a.calloc := kinds[slot]])
  {
  }

  /* Runs */

  datatype Event = Event(call: Call, answers: Answers)

  function Run(w: World, kinds: seq<Kind>, events: seq<Event>): Outcome
    requires |w.slots| == |kinds| && forall e | e in events :: InRange(kinds, e.call)
    ensures Run(w, kinds, events).Done? ==> |Run(w, kinds, events).world.slots| == |kinds|
  {
    if events == [] then Done(w, 0)
    else
      var last := events[|events| - 1];
      assert last in events;
      var before := Run(w, kinds, events[..|events| - 1]);
      if before.Fault? then Fault else Step(before.world, kinds, last.call, last.answers)
  }

  /** Each call is legal in the world it is made in, and the library honest. */
  ghost predicate LegalRun(w: World, kinds: seq<Kind>, events: seq<Event>)
    requires |w.slots| == |kinds| && forall e | e in events :: InRange(kinds, e.call)
  {
    forall k | 0 <= k < |events| :: LegalAt(w, kinds, events, k)
  }

  ghost predicate LegalAt(w: World, kinds: seq<Kind>, events: seq<Event>, k: nat)
    requires |w.slots| == |kinds| && (forall e | e in events :: InRange(kinds, e.call)) && k < |events|
  {
    assert events[k] in events;
    var before := Run(w, kinds, events[..k]);
    before.Done? ==> Honest(before.world, events[k].answers)
                     && Legal(before.world, kinds, events[k].call, events[k].answers)
  }

  /** Words as a freshly loaded game has them. */
  predicate Untouched(w: World, kinds: seq<Kind>) {
    |w.slots| == |kinds| && w.heap == map[] && forall i | 0 <= i < |kinds| :: Unset(kinds, i, w.slots[i])
  }

  /** From untouched words, every legal run keeps ownership: no use after free, no double free, no
      leak, whatever is locked, destroyed, destroyed again and locked again. */
  lemma {:induction false} RunOwned(w: World, kinds: seq<Kind>, events: seq<Event>)
    requires Untouched(w, kinds) && (forall e | e in events :: InRange(kinds, e.call)) && LegalRun(w, kinds, events)
    ensures var out := Run(w, kinds, events); out.Done? && Owned(out.world, kinds)
  {
    hide Owned, Step, Legal, Honest;
    if events == [] {
      UntouchedOwned(w, kinds);
    } else {
      var rest, last := events[..|events| - 1], events[|events| - 1];
      assert last in events && forall e | e in rest :: e in events;
      forall k | 0 <= k < |rest|
        ensures LegalAt(w, kinds, rest, k)
      {
        assert LegalAt(w, kinds, events, k) && rest[..k] == events[..k] && rest[k] == events[k];
      }
      RunOwned(w, kinds, rest);
      assert LegalAt(w, kinds, events, |events| - 1);
      StepOwned(Run(w, kinds, rest).world, kinds, last.call, last.answers);
    }
  }

  lemma UntouchedOwned(w: World, kinds: seq<Kind>)
    requires Untouched(w, kinds)
    ensures Owned(w, kinds)
  {
  }

  /* The program */

  class Wrappers {
    const slots: array<word>
    ghost const kinds: seq<Kind>
    var heap: map<word, Kind>
    var log: seq<LibCall>

    constructor (words: array<word>, ghost kinds: seq<Kind>)
      requires Untouched(World(words[..], map[], []), kinds)
      ensures slots == words && this.kinds == kinds && Value() == World(words[..], map[], []) && Owned(Value(), kinds)
    {
      slots := words;
      this.kinds := kinds;
      heap, log := map[], [];
      new;
      UntouchedOwned(Value(), kinds);
    }

    function Value(): World
      reads this, slots
    {
      World(slots[..], heap, log)
    }

    /** A library call: its object, and its mutex if it has one, must be live and of the right kind. */
    method Library(op: Op, kind: Kind, target: word, mutex: word, answer: int) returns (ret: int)
      requires IsObject(Value(), target, kind) && (mutex != 0 ==> IsObject(Value(), mutex, Mutex))
      modifies this`log
      ensures ret == answer && log == old(log) + [LibCall(op, kind, target, mutex)]
    {
      log := log + [LibCall(op, kind, target, mutex)];
      ret := answer;
    }

    /** free, of a live object. */
    method Free(p: word)
      requires p in heap
      modifies this`heap
      ensures heap == old(heap) - {p}
    {
      heap := heap - {p};
    }

    /** pthread_mutex_init_fake and pthread_cond_init_fake: on failure of the library the object is
        freed and the slot keeps its value. */
    method InitFake(slot: nat, kind: Kind, a: Answers) returns (ret: int)
      requires slot < |kinds| == slots.Length && kinds[slot] == kind && Honest(Value(), a)
      modifies this`heap, this`log, slots
      ensures Done(Value(), ret) == Materialise(old(Value()), kinds, slot, a)
    {
      if a.calloc == 0 {
        return -1;
      }
      heap := heap[a.calloc := kind];
      var answer := Library(InitObject, kind, a.calloc, 0, a.init);
      if answer < 0 {
        Free(a.calloc);
        assert heap == old(heap);
        return -1;
      }
      slots[slot] := a.calloc;
      assert slots[..] == old(slots[..])[slot := a.calloc];
      ret := 0;
    }

    /** pthread_mutex_destroy_fake */
    method MutexDestroyFake(slot: nat, a: Answers) returns (ret: int)
      requires Owned(Value(), kinds) && slot < slots.Length && kinds[slot] == Mutex
      modifies this`heap, this`log, slots
      ensures Done(Value(), ret) == Step(old(Value()), kinds, Destroy(slot), a) && Owned(Value(), kinds)
    {
      StepOwned(Value(), kinds, Destroy(slot), Answers(0, 0, 0));
      if slots[slot] != 0 && slots[slot] > LOWEST_POINTER {
        var _ := Library(DestroyObject, Mutex, slots[slot], 0, a.result);
        Free(slots[slot]);
        slots[slot] := 0;
        assert slots[..] == old(slots[..])[slot := 0];
      }
      ret := 0;
    }

    /** pthread_cond_destroy_fake */
    method CondDestroyFake(slot: nat, a: Answers) returns (ret: int)
      requires Owned(Value(), kinds) && slot < slots.Length && kinds[slot] == Cond
      modifies this`heap, this`log, slots
      ensures Done(Value(), ret) == Step(old(Value()), kinds, Destroy(slot), a) && Owned(Value(), kinds)
    {
      StepOwned(Value(), kinds, Destroy(slot), Answers(0, 0, 0));
      if slots[slot] != 0 {
        var _ := Library(DestroyObject, Cond, slots[slot], 0, a.result);
        Free(slots[slot]);
        slots[slot] := 0;
        assert slots[..] == old(slots[..])[slot := 0];
      }
      ret := 0;
    }

    /** pthread_mutex_lock_fake and pthread_mutex_unlock_fake */
    method MutexUseFake(slot: nat, op: Op, a: Answers) returns (ret: int)
      requires Owned(Value(), kinds) && slot < slots.Length && kinds[slot] == Mutex && Honest(Value(), a)
      requires op == Lock || op == Unlock
      modifies this`heap, this`log, slots
      ensures Done(Value(), ret) == Step(old(Value()), kinds, Use(slot, op), a) && Owned(Value(), kinds)
    {
      StepOwned(Value(), kinds, Use(slot, op), a);
      PrepareOwned(Value(), kinds, slot, a);
      ret := 0;
      if slots[slot] == 0 {
        ret := InitFake(slot, Mutex, a);
      } else if slots[slot] == RECURSIVE_INITIALIZER {
        ret := InitFake(slot, Mutex, a);
      }
      if ret < 0 {
        return ret;
      }
      ret := Library(op, Mutex, slots[slot], 0, a.result);
    }

    /** pthread_cond_signal_fake and pthread_cond_broadcast_fake */
    method CondUseFake(slot: nat, op: Op, a: Answers) returns (ret: int)
      requires Owned(Value(), kinds) && slot < slots.Length && kinds[slot] == Cond && Honest(Value(), a)
      requires op == Signal || op == Broadcast
      modifies this`heap, this`log, slots
      ensures Done(Value(), ret) == Step(old(Value()), kinds, Use(slot, op), a) && Owned(Value(), kinds)
    {
      StepOwned(Value(), kinds, Use(slot, op), a);
      PrepareOwned(Value(), kinds, slot, a);
      if slots[slot] == 0 {
        ret := InitFake(slot, Cond, a);
        if ret < 0 {
          return -1;
        }
      }
      ret := Library(op, Cond, slots[slot], 0, a.result);
    }

    /** pthread_cond_wait_fake and pthread_cond_timedwait_fake: the mutex word is used as it is.  If it is
        no live mutex, the library faults, with the condition variable already created. */
    method CondWaitFake(slot: nat, mutex: nat, op: Op, a: Answers) returns (ret: int, fault: bool)
      requires Owned(Value(), kinds) && InRange(kinds, Wait(slot, mutex, op)) && Honest(Value(), a)
      modifies this`heap, this`log, slots
      ensures Owned(Value(), kinds)
      ensures fault <==> !Legal(old(Value()), kinds, Wait(slot, mutex, op), a)
      ensures (if fault then Fault else Done(Value(), ret)) == Step(old(Value()), kinds, Wait(slot, mutex, op), a)
    {
      StepOwned(Value(), kinds, Wait(slot, mutex, op), a);
      PrepareOwned(Value(), kinds, slot, a);
      ret, fault := 0, false;
      if slots[slot] == 0 {
        ret := InitFake(slot, Cond, a);
        if ret < 0 {
          return -1, false;
        }
      }
      if !IsObject(Value(), slots[mutex], Mutex) {
        return 0, true;
      }
      ret := Library(op, Cond, slots[slot], slots[mutex], a.result);
    }
  }
}
