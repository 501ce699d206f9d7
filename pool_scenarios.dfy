/** Concrete runs of the pool on small tables, call by call. */
module PoolScenarios {
  import opened Counting
  import opened PoolModel
  import opened PoolProperties

  /** Policies that never restore and never release. */
  function Quiet(): Params
  {
    Params(Some((n: nat) => false), Some((n: nat) => false), (i: nat) => None, true)
  }

  function Four(): seq<Slot>
  {
    Init([Some(1), Some(2), Some(3), Some(4)])
  }

  /** `Four()` after its first `k` slots have been handed out. */
  function FourTaken(k: nat): seq<Slot>
    requires k <= 4
  {
    seq(4, i requires 0 <= i < 4 => Slot(Some(i + 1), i < k, false))
  }

  lemma FourAcquireStep(k: nat)
    requires k < 4
    ensures Acquire(Quiet(), FourTaken(k)) == Outcome(FourTaken(k + 1), Some(k + 1))
  {
    AcquireGrantsFirstIdle(Quiet(), FourTaken(k), k);
    assert FourTaken(k)[k := FourTaken(k)[k].(busy := true)] == FourTaken(k + 1);
  }

  /** Four resources, quiet policies: the `k`-th acquire (from 0) hands out
      resource `k + 1` and marks its slot busy; after four, a fifth acquire
      gets null and changes nothing; the idle count goes from four to zero. */
  lemma FourAcquiresThenExhausted()
    ensures Four() == FourTaken(0)
    ensures forall k :: 0 <= k < 4 ==> Acquire(Quiet(), FourTaken(k)) == Outcome(FourTaken(k + 1), Some(k + 1))
    ensures Acquire(Quiet(), FourTaken(4)) == Outcome(FourTaken(4), None)
    ensures CountIdle(FourTaken(0)) == 4 && CountIdle(FourTaken(4)) == 0
  {
    assert Four() == FourTaken(0);
    forall k | 0 <= k < 4
      ensures Acquire(Quiet(), FourTaken(k)) == Outcome(FourTaken(k + 1), Some(k + 1))
    {
      FourAcquireStep(k);
    }
    FourExhausted();
    FourIdleCounts();
  }

  lemma FourExhausted()
    ensures Acquire(Quiet(), FourTaken(4)) == Outcome(FourTaken(4), None)
  {
    AcquireExhausted(Quiet(), FourTaken(4));
  }

  lemma FourIdleCounts()
    ensures CountIdle(FourTaken(0)) == 4 && CountIdle(FourTaken(4)) == 0
  {
    CountExtremes(FourTaken(0), IsIdle);
    CountExtremes(FourTaken(4), IsIdle);
  }

  function AlwaysRelease(): Params
  {
    Quiet().(shouldRelease := Some((n: nat) => true))
  }

  /** Two resources, `should_release` always true: the first acquire tears
      slot 0 down and returns null; the second finds one active slot left
      and keeps it, also returning null. */
  lemma GuardKeepsLastSlot()
    ensures Acquire(AlwaysRelease(), Init([Some(1), Some(2)]))
         == Outcome([Slot(None, true, true), Slot(Some(2), false, false)], None)
    ensures Acquire(AlwaysRelease(), [Slot(None, true, true), Slot(Some(2), false, false)])
         == Outcome([Slot(None, true, true), Slot(Some(2), false, false)], None)
    ensures CountActive([Slot(None, true, true), Slot(Some(2), false, false)]) == 1
  {
    var p := AlwaysRelease();
    var s0 := Init([Some(1), Some(2)]);
    var s1 := s0[0 := Slot(None, true, true)];
    assert s1 == [Slot(None, true, true), Slot(Some(2), false, false)];
    AcquireShrinks(p, s0, 0);
    assert CountActive(s1) == 1 by {
      CountUpdate(s0, 0, Slot(None, true, true), IsActive);
    }
    AcquireShrinks(p, s1, 1);
  }

  function Shrinking(): Params
  {
    Quiet().(shouldRelease := Some((n: nat) => n > 2))
  }

  /** `Four()` after its first `k` slots were torn down by `should_release`. */
  function FourShrunk(k: nat): seq<Slot>
    requires k <= 2
  {
    seq(4, i requires 0 <= i < 4 => if i < k then Slot(None, true, true) else Slot(Some(i + 1), false, false))
  }

  lemma {:induction false} FourShrunkCounts(k: nat)
    requires k <= 2
    ensures CountActive(FourShrunk(k)) == 4 - k && CountIdle(FourShrunk(k)) == 4 - k
  {
    if k == 0 {
      assert FourShrunk(0) == Four();
    } else {
      FourShrunkCounts(k - 1);
      assert FourShrunk(k) == FourShrunk(k - 1)[k - 1 := Slot(None, true, true)];
      CountUpdate(FourShrunk(k - 1), k - 1, Slot(None, true, true), IsActive);
      CountUpdate(FourShrunk(k - 1), k - 1, Slot(None, true, true), IsIdle);
    }
  }

  /** With more than two active slots, an acquire tears down the first idle
      one and returns null. */
  lemma ShrinkStep(k: nat)
    requires k < 2
    ensures Acquire(Shrinking(), FourShrunk(k)) == Outcome(FourShrunk(k + 1), None)
  {
    FourShrunkCounts(k);
    AcquireShrinks(Shrinking(), FourShrunk(k), k);
    assert FourShrunk(k)[k := Slot(None, true, true)] == FourShrunk(k + 1);
  }

  /** Four resources, `should_release` true while more than two slots are
      active: the first two acquires each tear down the first idle slot and
      return null; the third finds two active slots and hands out the third
      resource, leaving two active slots of which one is idle. */
  lemma ShrinkToTwo()
    ensures Four() == FourShrunk(0)
    ensures Acquire(Shrinking(), FourShrunk(0)) == Outcome(FourShrunk(1), None)
    ensures Acquire(Shrinking(), FourShrunk(1)) == Outcome(FourShrunk(2), None)
    ensures Acquire(Shrinking(), FourShrunk(2)) == Outcome(FourShrunk(2)[2 := Slot(Some(3), true, false)], Some(3))
    ensures CountActive(FourShrunk(2)[2 := Slot(Some(3), true, false)]) == 2
    ensures CountIdle(FourShrunk(2)[2 := Slot(Some(3), true, false)]) == 1
  {
    assert Four() == FourShrunk(0);
    ShrinkStep(0);
    ShrinkStep(1);
    ShrinkGrant();
  }

  lemma ShrinkGrant()
    ensures Acquire(Shrinking(), FourShrunk(2)) == Outcome(FourShrunk(2)[2 := Slot(Some(3), true, false)], Some(3))
    ensures CountActive(FourShrunk(2)[2 := Slot(Some(3), true, false)]) == 2
    ensures CountIdle(FourShrunk(2)[2 := Slot(Some(3), true, false)]) == 1
  {
    var s := FourShrunk(2);
    FourShrunkCounts(2);
    AcquireGrantsFirstIdle(Shrinking(), s, 2);
  }

  /** A released slot is restored by the next acquire when `can_restore`
      allows it, and is handed out by that same call. */
  lemma RestoredSlotIsAcquired()
    ensures var p := Quiet().(canRestore := Some((n: nat) => n < 2)).(restoreFunc := (i: nat) => Some(10 + i));
            var s := [Slot(None, true, true), Slot(Some(2), false, false)];
            Acquire(p, s) == Outcome([Slot(Some(10), true, false), Slot(Some(2), false, false)], Some(10))
  {
    var p := Quiet().(canRestore := Some((n: nat) => n < 2)).(restoreFunc := (i: nat) => Some(10 + i));
    var s := [Slot(None, true, true), Slot(Some(2), false, false)];
    RecoverOutcome(p, s);
    assert Recover(p, s) == [Slot(Some(10), false, false), Slot(Some(2), false, false)];
    AcquireGrantsFirstIdle(p, s, 0);
  }
}
