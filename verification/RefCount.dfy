/**
 Reference counting (include/cef_base.h, CefRefCount and IMPLEMENT_REFCOUNTING) under all
 interleavings of threads. The counter is a 32-bit atomic; `Release` is two steps, the atomic
 decrement and, for whoever sees the count drop to zero, the deletion.
 */
module RefCount {
  const WRAP: int := 0x1_0000_0000

  /** Two's complement wrap-around of a 32-bit counter. */
  function ToInt32(x: int): (r: int)
    ensures -WRAP / 2 <= r < WRAP / 2
  {
    (x + WRAP / 2) % WRAP - WRAP / 2
  }

  /** The counter object; each method is one atomic step. */
  class CefRefCount {
    var refCount: int

    constructor ()
      ensures refCount == 0
    {
      refCount := 0;
    }

    method AddRef()
      modifies this
      ensures refCount == ToInt32(old(refCount) + 1)
    {
      refCount := ToInt32(refCount + 1);
    }

    /** True if the count is now 0. */
    method Release() returns (zero: bool)
      modifies this
      ensures refCount == ToInt32(old(refCount) - 1)
      ensures zero <==> old(refCount) == 1
      ensures -WRAP / 2 <= old(refCount) < WRAP / 2 ==> (zero <==> refCount == 0)
    {
      var previous := refCount;
      refCount := ToInt32(refCount - 1);
      var notZero := previous != 1;
      zero := !notZero;
    }

    method HasOneRef() returns (one: bool)
      ensures one <==> refCount == 1
    {
      one := refCount == 1;
    }

    method HasAtLeastOneRef() returns (some: bool)
      ensures some <==> refCount != 0
    {
      some := !(refCount == 0);
    }
  }

  // ----- The threads -----

  /**
   The counter, the references each thread holds, the threads that still have to delete the
   object, and how often a Release returned true and a deletion ran.
   */
  datatype State = State(count: int, adopted: bool, held: seq<nat>, pending: seq<nat>, winners: nat, deletions: nat)

  datatype Step =
    | Adopt(t: nat)          // the first reference wraps the new object
    | AddRef(t: nat)
    | Give(t: nat, u: nat)   // a reference moves to another thread
    | Release(t: nat)
    | Delete(t: nat)

  function Init(threads: nat): State {
    State(0, false, seq(threads, _ => 0), [], 0, 0)
  }

  /** Threads act only on references they hold. */
  predicate Enabled(s: State, step: Step) {
    match step
    case Adopt(t) => !s.adopted && t < |s.held|
    case AddRef(t) => t < |s.held| && s.held[t] > 0
    case Give(t, u) => t < |s.held| && s.held[t] > 0 && u < |s.held|
    case Release(t) => t < |s.held| && s.held[t] > 0
    case Delete(t) => t in s.pending
  }

  function Change(held: seq<nat>, t: nat, delta: int): seq<nat>
    requires t < |held| && held[t] + delta >= 0
  {
    held[t := held[t] + delta]
  }

  function Without(pending: seq<nat>, t: nat): seq<nat>
    requires t in pending
  {
    if pending[0] == t then pending[1..] else [pending[0]] + Without(pending[1..], t)
  }

  function Apply(s: State, step: Step): State
    requires Enabled(s, step)
  {
    match step
    case Adopt(t) => s.(adopted := true, count := ToInt32(s.count + 1), held := Change(s.held, t, 1))
    case AddRef(t) => s.(count := ToInt32(s.count + 1), held := Change(s.held, t, 1))
    case Give(t, u) => s.(held := Change(Change(s.held, t, -1), u, 1))
    case Release(t) =>
      var s' := s.(count := ToInt32(s.count - 1), held := Change(s.held, t, -1));
      if s.count == 1 then s'.(pending := s.pending + [t], winners := s.winners + 1) else s'
    case Delete(t) => s.(pending := Without(s.pending, t), deletions := s.deletions + 1)
  }

  /** The outstanding references. */
  function Total(held: seq<nat>): nat {
    if held == [] then 0 else held[0] + Total(held[1..])
  }

  predicate ValidRun(s: State, steps: seq<Step>)
    decreases steps
  {
    steps != [] ==> Enabled(s, steps[0]) && ValidRun(Apply(s, steps[0]), steps[1..])
  }

  function Final(s: State, steps: seq<Step>): State
    requires ValidRun(s, steps)
    decreases steps
  {
    if steps == [] then s else Final(Apply(s, steps[0]), steps[1..])
  }

  /** A step is careful unless it releases one of many references where their number looks like one. */
  predicate Careful(s: State, step: Step) {
    step.Release? ==> Total(s.held) == 1 || Total(s.held) % WRAP != 1
  }

  predicate CarefulRun(s: State, steps: seq<Step>)
    requires ValidRun(s, steps)
    decreases steps
  {
    steps != [] ==> Careful(s, steps[0]) && CarefulRun(Apply(s, steps[0]), steps[1..])
  }

  /** At no point are more than 2^32 references outstanding. */
  predicate BoundedRun(s: State, steps: seq<Step>)
    requires ValidRun(s, steps)
    decreases steps
  {
    Total(s.held) <= WRAP && (steps != [] ==> BoundedRun(Apply(s, steps[0]), steps[1..]))
  }

  lemma {:induction false} BoundedIsCareful(s: State, steps: seq<Step>)
    requires ValidRun(s, steps) && BoundedRun(s, steps)
    ensures CarefulRun(s, steps)
    decreases steps
  {
    if steps == [] {
    } else {
      BoundedIsCareful(Apply(s, steps[0]), steps[1..]);
    }
  }

  lemma {:induction false} RunAppend(s: State, a: seq<Step>, b: seq<Step>)
    requires ValidRun(s, a) && ValidRun(Final(s, a), b)
    ensures ValidRun(s, a + b) && Final(s, a + b) == Final(Final(s, a), b)
    decreases a
  {
    if a == [] {
      assert a + b == b;
    } else {
      assert (a + b)[0] == a[0] && (a + b)[1..] == a[1..] + b;
      RunAppend(Apply(s, a[0]), a[1..], b);
    }
  }

  // ----- Totals -----

  lemma {:induction false} TotalUpdate(held: seq<nat>, t: nat, v: nat)
    requires t < |held|
    ensures Total(held[t := v]) == Total(held) - held[t] + v
  {
    if t > 0 {
      assert held[t := v][1..] == held[1..][t - 1 := v];
      TotalUpdate(held[1..], t - 1, v);
    } else {
      assert held[t := v][1..] == held[1..];
    }
  }

  lemma {:induction false} TotalAtLeast(held: seq<nat>, t: nat)
    requires t < |held|
    ensures held[t] <= Total(held)
  {
    if t == 0 {
    } else {
      TotalAtLeast(held[1..], t - 1);
    }
  }

  lemma {:induction false} TotalAtLeastTwo(held: seq<nat>, t: nat, u: nat)
    requires t < |held| && u < |held| && t != u
    ensures held[t] + held[u] <= Total(held)
  {
    TotalUpdate(held, t, 0);
    TotalAtLeast(held[t := 0], u);
  }

  lemma {:induction false} TotalZeros(n: nat)
    ensures Total(seq(n, _ => 0)) == 0
  {
    if n == 0 {
    } else {
      assert seq(n, _ => 0)[1..] == seq(n - 1, _ => 0);
      TotalZeros(n - 1);
    }
  }

  lemma {:induction false} WrapStep(x: int, delta: int)
    ensures ToInt32(ToInt32(x) + delta) == ToInt32(x + delta)
  {
    var k := (x + WRAP / 2) / WRAP;
    assert ToInt32(x) == x - k * WRAP;
    ModShift(x + delta + WRAP / 2, k);
  }

  lemma {:induction false} ModShift(y: int, k: int)
    ensures (y - k * WRAP) % WRAP == y % WRAP
  {
    var q := y / WRAP;
    assert y == q * WRAP + y % WRAP;
    assert y - k * WRAP == (q - k) * WRAP + y % WRAP;
    DivModUnique(y - k * WRAP, q - k, y % WRAP);
  }

  lemma {:induction false} DivModUnique(x: int, q: int, r: int)
    requires x == q * WRAP + r && 0 <= r < WRAP
    ensures x % WRAP == r
  {
    var q', r' := x / WRAP, x % WRAP;
    assert (q - q') * WRAP == r' - r;
  }

  // ----- The count is the number of references, on every run -----

  ghost predicate Counted(s: State) {
    s.count == ToInt32(Total(s.held))
  }

  lemma {:induction false} StepCounts(s: State, step: Step)
    requires Counted(s) && Enabled(s, step)
    ensures Counted(Apply(s, step))
    ensures Total(Apply(s, step).held) == Total(s.held) + match step
                                                         case Adopt(_) => 1
                                                         case AddRef(_) => 1
                                                         case Release(_) => -1
                                                         case _ => 0
  {
    hide ToInt32, Total;
    match step {
      case Adopt(t) =>
        TotalUpdate(s.held, t, s.held[t] + 1);
        WrapStep(Total(s.held), 1);
      case AddRef(t) =>
        TotalUpdate(s.held, t, s.held[t] + 1);
        WrapStep(Total(s.held), 1);
      case Give(t, u) =>
        TotalUpdate(s.held, t, s.held[t] - 1);
        var h := Change(s.held, t, -1);
        TotalUpdate(h, u, h[u] + 1);
      case Release(t) =>
        TotalUpdate(s.held, t, s.held[t] - 1);
        WrapStep(Total(s.held), -1);
      case Delete(t) =>
    }
  }

  lemma {:induction false} RunCounts(s: State, steps: seq<Step>)
    requires Counted(s) && ValidRun(s, steps)
    ensures Counted(Final(s, steps))
    decreases steps
  {
    if steps == [] {
    } else {
      StepCounts(s, steps[0]);
      RunCounts(Apply(s, steps[0]), steps[1..]);
    }
  }

  /** On every run the counter is the number of outstanding references, as a 32-bit value. */
  lemma {:induction false} CountIsOutstanding(threads: nat, steps: seq<Step>)
    requires ValidRun(Init(threads), steps)
    ensures var s := Final(Init(threads), steps);
            && s.count == ToInt32(Total(s.held))
            && (Total(s.held) < WRAP / 2 ==> s.count == Total(s.held))
  {
    TotalZeros(threads);
    RunCounts(Init(threads), steps);
  }

  /** On every run a Release takes the object exactly when the references number 1 modulo 2^32. */
  lemma {:induction false} ReleaseTakesIff(threads: nat, steps: seq<Step>, t: nat)
    requires ValidRun(Init(threads), steps) && Enabled(Final(Init(threads), steps), Release(t))
    ensures var s := Final(Init(threads), steps);
            Apply(s, Release(t)).winners == s.winners + 1 <==> Total(s.held) % WRAP == 1
  {
    CountIsOutstanding(threads, steps);
    WrapOne(Total(Final(Init(threads), steps).held));
  }

  lemma {:induction false} WrapOne(x: int)
    ensures ToInt32(x) == 1 <==> x % WRAP == 1
  {
    WrapStep(x, 0);
    var k := (x + WRAP / 2) / WRAP;
    assert ToInt32(x) == x - k * WRAP;
    ModShift(x, k);
    assert (x - k * WRAP) % WRAP == x % WRAP;
  }

  // ----- Safety -----

  /** Exactly one Release has returned true once the last reference is gone, and none before. */
  ghost predicate Safe(s: State) {
    && Counted(s)
    && s.winners == |s.pending| + s.deletions
    && s.winners == (if s.adopted && Total(s.held) == 0 then 1 else 0)
    && (!s.adopted ==> Total(s.held) == 0)
  }

  lemma {:induction false} WithoutLength(pending: seq<nat>, t: nat)
    requires t in pending
    ensures |Without(pending, t)| == |pending| - 1
    ensures multiset(Without(pending, t)) == multiset(pending) - multiset{t}
  {
    assert pending == [pending[0]] + pending[1..];
    if pending[0] != t {
      WithoutLength(pending[1..], t);
    }
  }

  /** A step keeps the object safe exactly when it is careful. */
  lemma {:induction false} StepSafeIff(s: State, step: Step)
    requires Safe(s) && Enabled(s, step)
    ensures Safe(Apply(s, step)) <==> Careful(s, step)
  {
    StepCounts(s, step);
    WrapOne(Total(s.held));
    hide Total, ToInt32;
    match step {
      case Adopt(t) =>
      case AddRef(t) => TotalAtLeast(s.held, t);
      case Give(t, u) => TotalAtLeast(s.held, t);
      case Release(t) => TotalAtLeast(s.held, t);
      case Delete(t) => WithoutLength(s.pending, t);
    }
  }

  /** Safe now and after every step. */
  ghost predicate SafeThroughout(s: State, steps: seq<Step>)
    requires ValidRun(s, steps)
    decreases steps
  {
    Safe(s) && (steps != [] ==> SafeThroughout(Apply(s, steps[0]), steps[1..]))
  }

  lemma {:induction false} SafeThroughoutFrom(s: State, steps: seq<Step>)
    requires Safe(s) && ValidRun(s, steps)
    ensures SafeThroughout(s, steps) <==> CarefulRun(s, steps)
    ensures SafeThroughout(s, steps) ==> Safe(Final(s, steps))
    decreases steps
  {
    if steps == [] {
    } else {
      StepSafeIff(s, steps[0]);
      if Safe(Apply(s, steps[0])) {
        SafeThroughoutFrom(Apply(s, steps[0]), steps[1..]);
      }
    }
  }

  lemma {:induction false} InitSafe(threads: nat)
    ensures Safe(Init(threads))
  {
    TotalZeros(threads);
  }

  /**
   The object stays safe throughout exactly when no reference is ever released while there are
   several and their number is 1 modulo 2^32; with at most 2^32 references that never happens.
   */
  lemma {:induction false} SafeThroughoutIff(threads: nat, steps: seq<Step>)
    requires ValidRun(Init(threads), steps)
    ensures SafeThroughout(Init(threads), steps) <==> CarefulRun(Init(threads), steps)
    ensures BoundedRun(Init(threads), steps) ==> SafeThroughout(Init(threads), steps)
  {
    InitSafe(threads);
    SafeThroughoutFrom(Init(threads), steps);
    if BoundedRun(Init(threads), steps) {
      BoundedIsCareful(Init(threads), steps);
    }
  }

  /** At most one Release returns true, and one has exactly when all references are gone again. */
  lemma {:induction false} ExactlyOneDeletes(threads: nat, steps: seq<Step>)
    requires ValidRun(Init(threads), steps) && CarefulRun(Init(threads), steps)
    ensures var s := Final(Init(threads), steps);
            && s.deletions <= s.winners <= 1
            && (s.winners == 1 <==> s.adopted && Total(s.held) == 0)
            && s.winners == s.deletions + |s.pending|
  {
    InitSafe(threads);
    SafeThroughoutFrom(Init(threads), steps);
  }

  /** From the moment a Release returned true, the deletion is the only step left to anyone. */
  lemma {:induction false} NothingBesidesDelete(threads: nat, steps: seq<Step>, step: Step)
    requires ValidRun(Init(threads), steps) && CarefulRun(Init(threads), steps)
    requires Final(Init(threads), steps).winners > 0 && Enabled(Final(Init(threads), steps), step)
    ensures step.Delete? && Final(Init(threads), steps).deletions == 0
  {
    ExactlyOneDeletes(threads, steps);
    var s := Final(Init(threads), steps);
    match step {
      case Adopt(t) =>
      case AddRef(t) => TotalAtLeast(s.held, t);
      case Give(t, u) => TotalAtLeast(s.held, t);
      case Release(t) => TotalAtLeast(s.held, t);
      case Delete(t) =>
    }
  }

  /** `t` holds one reference, and no other thread holds any. */
  predicate Sole(held: seq<nat>, t: nat) {
    t < |held| && forall u :: 0 <= u < |held| ==> held[u] == if u == t then 1 else 0
  }

  lemma {:induction false} TotalOfNothing(held: seq<nat>)
    requires forall u :: 0 <= u < |held| ==> held[u] == 0
    ensures Total(held) == 0
  {
    if held == [] {
    } else {
      TotalOfNothing(held[1..]);
    }
  }

  lemma {:induction false} SoleIffTotalOne(held: seq<nat>, t: nat)
    requires t < |held| && held[t] > 0
    ensures Sole(held, t) <==> Total(held) == 1
  {
    TotalUpdate(held, t, 0);
    if Sole(held, t) {
      TotalOfNothing(held[t := 0]);
    }
    if Total(held) == 1 {
      TotalAtLeast(held, t);
      forall u | 0 <= u < |held| && u != t
        ensures held[u] == 0
      {
        TotalAtLeastTwo(held, t, u);
      }
    }
  }

  /** A holder that sees a count of one is the only holder, exactly when at most 2^32 references are outstanding. */
  lemma {:induction false} HasOneRefMeansSoleIff(threads: nat, steps: seq<Step>, t: nat)
    requires ValidRun(Init(threads), steps)
    requires var s := Final(Init(threads), steps); t < |s.held| && s.held[t] > 0 && s.count == 1
    ensures var s := Final(Init(threads), steps);
            Sole(s.held, t) <==> Total(s.held) <= WRAP
  {
    var s := Final(Init(threads), steps);
    CountIsOutstanding(threads, steps);
    WrapOne(Total(s.held));
    hide *;
    TotalAtLeast(s.held, t);
    SoleIffTotalOne(s.held, t);
  }

  // ----- The bound is needed -----

  function AddRefs(n: nat): seq<Step> {
    seq(n, _ => AddRef(0))
  }

  lemma {:induction false} AddRefsRun(s: State, n: nat)
    requires Counted(s) && |s.held| == 1 && s.held[0] > 0
    ensures ValidRun(s, AddRefs(n))
    ensures Final(s, AddRefs(n)) == s.(count := ToInt32(s.held[0] + n), held := [s.held[0] + n])
    decreases n
  {
    assert s.held == [s.held[0]] && s.held[1..] == [];
    assert Total(s.held) == s.held[0];
    if n == 0 {
    } else {
      assert Change(s.held, 0, 1) == [s.held[0] + 1];
      assert AddRefs(n)[0] == AddRef(0) && AddRefs(n)[1..] == AddRefs(n - 1);
      StepCounts(s, AddRef(0));
      AddRefsRun(Apply(s, AddRef(0)), n - 1);
    }
  }

  /** One thread taking 2^32 + 1 references: releasing one of them deletes the object. */
  lemma {:induction false} WrapDeletesEarly() returns (steps: seq<Step>)
    ensures ValidRun(Init(1), steps)
    ensures Final(Init(1), steps).winners == 1 && Total(Final(Init(1), steps).held) == WRAP
  {
    var s0 := Init(1);
    TotalZeros(1);
    var first := [Adopt(0)];
    var s1 := Apply(s0, Adopt(0));
    assert first[1..] == [] && Final(s0, first) == s1;
    StepCounts(s0, Adopt(0));
    AddRefsRun(s1, WRAP);
    var s2 := Final(s1, AddRefs(WRAP));
    assert s2.held == [WRAP + 1] && s2.count == 1;
    RunAppend(s0, first, AddRefs(WRAP));
    var last := [Release(0)];
    assert last[1..] == [];
    var s3 := Apply(s2, Release(0));
    assert Final(s2, last) == s3;
    assert s3.held == [WRAP] && [WRAP][1..] == [];
    RunAppend(s0, first + AddRefs(WRAP), last);
    steps := first + AddRefs(WRAP) + last;
  }

  // ----- The object -----

  lemma {:induction false} OneMoreStep(s: State, steps: seq<Step>, step: Step)
    requires ValidRun(s, steps) && Enabled(Final(s, steps), step)
    ensures ValidRun(s, steps + [step]) && Final(s, steps + [step]) == Apply(Final(s, steps), step)
  {
    var one := [step];
    assert one[1..] == [];
    RunAppend(s, steps, one);
  }

  lemma {:induction false} CarefulMore(s: State, steps: seq<Step>, step: Step)
    requires ValidRun(s, steps) && CarefulRun(s, steps)
    requires Enabled(Final(s, steps), step) && Careful(Final(s, steps), step)
    ensures ValidRun(s, steps + [step]) && CarefulRun(s, steps + [step])
    decreases steps
  {
    OneMoreStep(s, steps, step);
    var all := steps + [step];
    if steps == [] {
      assert all[1..] == [];
    } else {
      assert all[0] == steps[0] && all[1..] == steps[1..] + [step];
      CarefulMore(Apply(s, steps[0]), steps[1..], step);
    }
  }

  lemma {:induction false} LifeSteps()
    ensures Init(2) == State(0, false, [0, 0], [], 0, 0)
    ensures Enabled(Init(2), Adopt(0)) && Apply(Init(2), Adopt(0)) == State(1, true, [1, 0], [], 0, 0)
    ensures var s := State(1, true, [1, 0], [], 0, 0);
            Enabled(s, Give(0, 1)) && Apply(s, Give(0, 1)) == State(1, true, [0, 1], [], 0, 0)
    ensures var s := State(1, true, [0, 1], [], 0, 0);
            && Enabled(s, Release(1)) && Careful(s, Release(1))
            && Apply(s, Release(1)) == State(0, true, [0, 0], [1], 1, 0)
    ensures var s := State(0, true, [0, 0], [1], 1, 0);
            Enabled(s, Delete(1)) && Apply(s, Delete(1)) == State(0, true, [0, 0], [], 1, 1)
  {
    assert [0, 1][1..] == [1] && [1][1..] == [] && Total([1]) == 1 + Total([]);
  }

  /** The first thread wraps the object and hands it over; the second releases it and deletes it. */
  lemma {:induction false} LifeExample() returns (steps: seq<Step>)
    ensures steps == [] + [Adopt(0)] + [Give(0, 1)] + [Release(1)] + [Delete(1)]
    ensures ValidRun(Init(2), steps) && CarefulRun(Init(2), steps)
    ensures Final(Init(2), steps) == State(0, true, [0, 0], [], 1, 1)
  {
    LifeSteps();
    steps := [];
    assert ValidRun(Init(2), []) && CarefulRun(Init(2), []) && Final(Init(2), []) == Init(2);
    hide Apply, Enabled, Total, ToInt32, ValidRun, CarefulRun, Final, Init;
    CarefulMore(Init(2), steps, Adopt(0));
    OneMoreStep(Init(2), steps, Adopt(0));
    steps := steps + [Adopt(0)];
    CarefulMore(Init(2), steps, Give(0, 1));
    OneMoreStep(Init(2), steps, Give(0, 1));
    steps := steps + [Give(0, 1)];
    CarefulMore(Init(2), steps, Release(1));
    OneMoreStep(Init(2), steps, Release(1));
    steps := steps + [Release(1)];
    CarefulMore(Init(2), steps, Delete(1));
    OneMoreStep(Init(2), steps, Delete(1));
    steps := steps + [Delete(1)];
  }

  lemma {:induction false} WrapNone(x: int)
    ensures ToInt32(x) == 0 <==> x % WRAP == 0
  {
    var k := (x + WRAP / 2) / WRAP;
    assert ToInt32(x) == x - k * WRAP;
    ModShift(x, k);
  }

  /**
   A class with IMPLEMENT_REFCOUNTING, and the steps its threads have taken. The two halves of
   `Release`, the decrement and the deletion by whoever got true, are separate steps.
   */
  class RefCounted {
    const refCount: CefRefCount
    ghost const threads: nat
    ghost var steps: seq<Step>

    ghost predicate Valid()
      reads this, refCount
    {
      ValidRun(Init(threads), steps) && refCount.refCount == Final(Init(threads), steps).count
    }

    ghost function Now(): State
      reads this, refCount
      requires Valid()
    {
      Final(Init(threads), steps)
    }

    constructor (ghost threads: nat)
      ensures Valid() && fresh(refCount) && this.threads == threads && steps == []
    {
      refCount := new CefRefCount();
      this.threads := threads;
      steps := [];
    }

    /** By a thread that holds a reference, or by the first one that wraps the object. */
    method AddRef(ghost step: Step)
      requires Valid() && (step.Adopt? || step.AddRef?) && Enabled(Now(), step)
      modifies this, refCount
      ensures Valid() && steps == old(steps) + [step] && Now() == Apply(old(Now()), step)
    {
      OneMoreStep(Init(threads), steps, step);
      refCount.AddRef();
      steps := steps + [step];
    }

    /** The decrement; whoever gets true goes on to delete the object. */
    method Release(ghost t: nat) returns (last: bool)
      requires Valid() && Enabled(Now(), Step.Release(t))
      modifies this, refCount
      ensures Valid() && steps == old(steps) + [Step.Release(t)] && Now() == Apply(old(Now()), Step.Release(t))
      ensures last <==> t in Now().pending && Now().winners == old(Now()).winners + 1
      ensures last <==> Total(old(Now()).held) % WRAP == 1
    {
      OneMoreStep(Init(threads), steps, Step.Release(t));
      ReleaseTakesIff(threads, steps, t);
      last := refCount.Release();
      steps := steps + [Step.Release(t)];
    }

    /** A reference changes hands, or a deletion takes place: the counter is not touched. */
    ghost method Note(step: Step)
      requires Valid() && (step.Give? || step.Delete?) && Enabled(Now(), step)
      modifies this
      ensures Valid() && steps == old(steps) + [step] && Now() == Apply(old(Now()), step)
    {
      OneMoreStep(Init(threads), steps, step);
      steps := steps + [step];
    }

    /** True exactly when the outstanding references number 1 modulo 2^32. */
    method HasOneRef() returns (one: bool)
      requires Valid()
      ensures one <==> Total(Now().held) % WRAP == 1
    {
      CountIsOutstanding(threads, steps);
      WrapOne(Total(Now().held));
      one := refCount.HasOneRef();
    }

    /** False exactly when they number 0 modulo 2^32. */
    method HasAtLeastOneRef() returns (some: bool)
      requires Valid()
      ensures some <==> Total(Now().held) % WRAP != 0
    {
      CountIsOutstanding(threads, steps);
      WrapNone(Total(Now().held));
      some := refCount.HasAtLeastOneRef();
    }
  }
}
