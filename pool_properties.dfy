/** What the pool's operations promise, proved about the slot-table model. */
module PoolProperties {
  import opened Counting
  import opened PoolModel

  // ---------------------------------------------------------------- recovery

  /** `maybeRecover` leaves the table alone unless `can_restore` is present
      and true for the active count before the call; otherwise every released
      slot whose restore succeeds becomes idle with the new resource, and all
      other slots are untouched. */
  lemma RecoverOutcome(p: Params, s: seq<Slot>)
    ensures !CanRestoreFires(p, CountActive(s)) ==> Recover(p, s) == s
    ensures CanRestoreFires(p, CountActive(s)) ==>
      forall j :: 0 <= j < |s| ==>
        Recover(p, s)[j] == if s[j].released && p.restoreFunc(j).Some? then Slot(p.restoreFunc(j), false, false) else s[j]
  {
    RestoreFromPointwise(p.restoreFunc, s, 0);
  }

  /** Recovery never loses an active or idle slot; every slot it brings back
      is both active and idle, so both counts grow by the same amount; and
      the active count grows exactly when some released slot was restored. */
  lemma RecoverCounts(p: Params, s: seq<Slot>)
    ensures CountActive(Recover(p, s)) >= CountActive(s)
    ensures CountIdle(Recover(p, s)) >= CountIdle(s)
    ensures CountActive(Recover(p, s)) - CountActive(s) == CountIdle(Recover(p, s)) - CountIdle(s)
    ensures CountActive(Recover(p, s)) > CountActive(s) <==>
      CanRestoreFires(p, CountActive(s)) && exists j :: 0 <= j < |s| && s[j].released && p.restoreFunc(j).Some?
  {
    var r := Recover(p, s);
    if CanRestoreFires(p, CountActive(s)) {
      RecoverOutcome(p, s);
      assert forall j :: 0 <= j < |s| ==> r[j] == s[j] || (s[j].released && IsIdle(r[j]));
      CountPointwise(s, r, IsActive, IsActive);
      CountPointwise(s, r, IsIdle, IsIdle);
      CountDifference(s, r, IsActive, IsIdle);
      if !exists j :: 0 <= j < |s| && s[j].released && p.restoreFunc(j).Some? {
        assert r == s;
      }
    }
  }

  /** `can_restore` is consulted once, with the active count on entry:
      replacing it by any policy that agrees on that value does not change
      what recovery does. */
  lemma RecoverAsksCanRestoreOnce(p: Params, s: seq<Slot>, g: Option<nat -> bool>)
    requires CanRestoreFires(p.(canRestore := g), CountActive(s)) == CanRestoreFires(p, CountActive(s))
    ensures Recover(p.(canRestore := g), s) == Recover(p, s)
  {
  }

  // ---------------------------------------------------------------- acquire

  /** With no shrink decision, `acquire` claims the lowest-index idle slot of
      the recovered table: it returns that slot's resource, sets only its busy
      flag, and so has one idle slot fewer and the same active slots. */
  lemma AcquireGrantsFirstIdle(p: Params, s: seq<Slot>, i: nat)
    requires !ShouldReleaseFires(p, CountActive(Recover(p, s)))
    requires i < |s| && IsIdle(Recover(p, s)[i])
    requires forall j :: 0 <= j < i ==> !IsIdle(Recover(p, s)[j])
    ensures Acquire(p, s).handle == Recover(p, s)[i].resource
    ensures Acquire(p, s).slots == Recover(p, s)[i := Recover(p, s)[i].(busy := true)]
    ensures CountIdle(Acquire(p, s).slots) + 1 == CountIdle(Recover(p, s))
    ensures CountActive(Acquire(p, s).slots) == CountActive(Recover(p, s))
  {
    var t := Recover(p, s);
    CountUpdate(t, i, t[i].(busy := true), IsIdle);
    CountUpdate(t, i, t[i].(busy := true), IsActive);
  }

  /** When the recovered table has no idle slot, `acquire` returns null and
      changes nothing beyond recovery. */
  lemma AcquireExhausted(p: Params, s: seq<Slot>)
    requires forall j :: 0 <= j < |s| ==> !IsIdle(Recover(p, s)[j])
    ensures Acquire(p, s) == Outcome(Recover(p, s), None)
  {
  }

  /** When `should_release` fires at the first idle slot `i`, `acquire`
      returns null; slot `i` itself is torn down if at least two slots are
      active, and otherwise nothing changes. */
  lemma AcquireShrinks(p: Params, s: seq<Slot>, i: nat)
    requires ShouldReleaseFires(p, CountActive(Recover(p, s)))
    requires i < |s| && IsIdle(Recover(p, s)[i])
    requires forall j :: 0 <= j < i ==> !IsIdle(Recover(p, s)[j])
    ensures Acquire(p, s).handle == None
    ensures CountActive(Recover(p, s)) >= 2 ==> Acquire(p, s).slots == Recover(p, s)[i := Slot(None, true, true)]
    ensures CountActive(Recover(p, s)) <= 1 ==> Acquire(p, s).slots == Recover(p, s)
  {
  }

  /** Over one `acquire`, the active count falls by at most one from its
      value after recovery, never below the value before the call minus one,
      and never from positive to zero. */
  lemma AcquireActiveBounds(p: Params, s: seq<Slot>)
    ensures CountActive(Recover(p, s)) - 1 <= CountActive(Acquire(p, s).slots) <= CountActive(Recover(p, s))
    ensures CountActive(Acquire(p, s).slots) >= CountActive(s) - 1
    ensures CountActive(s) >= 1 ==> CountActive(Acquire(p, s).slots) >= 1
  {
    var t := Recover(p, s);
    RecoverCounts(p, s);
    match FirstFrom(t, 0, IsIdle)
    case None =>
    case Some(i) =>
      if !ShouldReleaseFires(p, CountActive(t)) {
        AcquireGrantsFirstIdle(p, s, i);
      }
  }

  /** `should_release` is consulted at most once, with the active count after
      recovery: any policy agreeing with it on that value gives the same
      `acquire`. */
  lemma AcquireAsksShouldReleaseOnce(p: Params, s: seq<Slot>, f: Option<nat -> bool>)
    requires ShouldReleaseFires(p.(shouldRelease := f), CountActive(Recover(p, s))) == ShouldReleaseFires(p, CountActive(Recover(p, s)))
    ensures Acquire(p.(shouldRelease := f), s) == Acquire(p, s)
  {
    assert Recover(p.(shouldRelease := f), s) == Recover(p, s);
  }

  // ---------------------------------------------------------------- release

  /** `release(h)` clears the busy flag of the first slot holding `h` and
      changes nothing else: the active count stays, and the idle count grows
      by one exactly when that slot was busy and not released. */
  lemma ReleaseFirstMatch(s: seq<Slot>, h: Option<Handle>, i: nat)
    requires i < |s| && s[i].resource == h
    requires forall j :: 0 <= j < i ==> s[j].resource != h
    ensures Release(s, h) == s[i := s[i].(busy := false)]
    ensures CountActive(Release(s, h)) == CountActive(s)
    ensures CountIdle(Release(s, h)) == CountIdle(s) + (if s[i].busy && !s[i].released then 1 else 0)
  {
    assert Holding(h)(s[i]);
    assert forall j :: 0 <= j < i ==> !Holding(h)(s[j]);
    CountUpdate(s, i, s[i].(busy := false), IsActive);
    CountUpdate(s, i, s[i].(busy := false), IsIdle);
  }

  /** A handle no slot holds leaves the table, hence `idleCount`, unchanged. */
  lemma ReleaseUnknown(s: seq<Slot>, h: Option<Handle>)
    requires forall j :: 0 <= j < |s| ==> s[j].resource != h
    ensures Release(s, h) == s
    ensures CountIdle(Release(s, h)) == CountIdle(s)
  {
    assert forall j :: 0 <= j < |s| ==> !Holding(h)(s[j]);
  }

  /** Giving back a slot's resource makes that slot idle again when it was
      busy and not released, whether `acquire` handed it out or a teardown
      stopped half-way left it busy; the rest of the table is unchanged. */
  lemma ReleaseMakesSlotIdle(s: seq<Slot>, i: nat, h: Handle)
    requires i < |s| && s[i] == Slot(Some(h), true, false)
    requires forall j :: 0 <= j < i ==> s[j].resource != Some(h)
    ensures IsIdle(Release(s, Some(h))[i])
    ensures forall j :: 0 <= j < |s| && j != i ==> Release(s, Some(h))[j] == s[j]
    ensures CountIdle(Release(s, Some(h))) == CountIdle(s) + 1
  {
    ReleaseFirstMatch(s, Some(h), i);
  }

  /** A released slot holds null, so `release(nullptr)` matches the first
      released slot when all slots before it hold a resource: it clears that
      slot's busy flag, the slot stays released, and `idleCount` is unchanged. */
  lemma ReleaseNullHitsReleasedSlot(s: seq<Slot>, k: nat)
    requires NullWhenReleased(s)
    requires k < |s| && s[k].released
    requires forall j :: 0 <= j < k ==> s[j].resource.Some?
    ensures Release(s, None) == s[k := s[k].(busy := false)]
    ensures Release(s, None)[k].released && !Release(s, None)[k].busy
    ensures CountIdle(Release(s, None)) == CountIdle(s)
  {
    ReleaseFirstMatch(s, None, k);
  }

  /** Round trip: when `acquire` hands out a resource and no two slots share
      one, releasing that resource gives back the recovered table, with the
      idle count it had. */
  lemma AcquireReleaseRoundTrip(p: Params, s: seq<Slot>)
    requires !ShouldReleaseFires(p, CountActive(Recover(p, s)))
    requires UniqueHandles(Recover(p, s))
    requires Acquire(p, s).handle.Some?
    ensures Release(Acquire(p, s).slots, Acquire(p, s).handle) == Recover(p, s)
    ensures CountIdle(Release(Acquire(p, s).slots, Acquire(p, s).handle)) == CountIdle(Recover(p, s))
  {
    var t := Recover(p, s);
    var i := FirstFrom(t, 0, IsIdle).value;
    var a := Acquire(p, s);
    assert a.slots == t[i := t[i].(busy := true)];
    assert forall j :: 0 <= j < i ==> a.slots[j].resource != a.handle;
    ReleaseFirstMatch(a.slots, a.handle, i);
    assert a.slots[i := a.slots[i].(busy := false)] == t;
  }

  // ---------------------------------------------------------------- invariant

  /** Every operation keeps the invariant that a released slot holds null. */
  lemma RecoverKeepsNullWhenReleased(p: Params, s: seq<Slot>)
    requires NullWhenReleased(s)
    ensures NullWhenReleased(Recover(p, s))
  {
    RecoverOutcome(p, s);
  }

  lemma ReleaseOneKeepsNullWhenReleased(s: seq<Slot>, start: nat)
    requires NullWhenReleased(s)
    ensures NullWhenReleased(ReleaseOne(s, start))
  {
  }

  lemma AcquireKeepsNullWhenReleased(p: Params, s: seq<Slot>)
    requires NullWhenReleased(s)
    ensures NullWhenReleased(Acquire(p, s).slots)
  {
    RecoverKeepsNullWhenReleased(p, s);
    ReleaseOneKeepsNullWhenReleased(Recover(p, s), 0);
  }

  lemma ReleaseKeepsNullWhenReleased(s: seq<Slot>, h: Option<Handle>)
    requires NullWhenReleased(s)
    ensures NullWhenReleased(Release(s, h))
  {
  }

  // ---------------------------------------------------------------- teardown

  /** The destructor calls `release_func` on exactly the non-released slots,
      in increasing index order, once each; with no `release_func` it calls
      nothing. */
  lemma TeardownCallsActiveSlots(p: Params, s: seq<Slot>)
    ensures !p.hasReleaseFunc ==> Teardown(p, s) == []
    ensures p.hasReleaseFunc ==> |Teardown(p, s)| == CountActive(s)
    ensures p.hasReleaseFunc ==> forall k :: k in Teardown(p, s) <==> 0 <= k < |s| && !s[k].released
    ensures forall a, b :: 0 <= a < b < |Teardown(p, s)| ==> Teardown(p, s)[a] < Teardown(p, s)[b]
  {
    ActiveIndicesExact(s);
  }

  // ---------------------------------------------------------------- runs

  /** A public call on the pool: `acquire()`, with the answers its policies
      give at the time of that call, or `release(h)`. Policies are
      `std::function`s that may hold state of their own, so each `acquire`
      carries its own `Params`. */
  datatype Call = AcquireCall(p: Params) | ReleaseCall(h: Option<Handle>)

  /** The table after one public call. */
  function Step(s: seq<Slot>, c: Call): (r: seq<Slot>)
    ensures |r| == |s|
  {
    match c
    case AcquireCall(p) => Acquire(p, s).slots
    case ReleaseCall(h) => Release(s, h)
  }

  /** The table after a sequence of public calls, one atomic step each. */
  function Run(s: seq<Slot>, calls: seq<Call>): (r: seq<Slot>)
    decreases |calls|
    ensures |r| == |s|
  {
    if |calls| == 0 then s else Run(Step(s, calls[0]), calls[1..])
  }

  /** In every state reachable from a table with an active slot, the table
      has the same number of slots, at least one of them is active, and
      released slots hold null: the pool never empties itself, whatever the
      policies answer from one call to the next. */
  lemma {:induction false} RunKeepsPoolAlive(s: seq<Slot>, calls: seq<Call>)
    requires CountActive(s) >= 1 && NullWhenReleased(s)
    decreases |calls|
    ensures |Run(s, calls)| == |s|
    ensures CountActive(Run(s, calls)) >= 1
    ensures NullWhenReleased(Run(s, calls))
  {
    if |calls| > 0 {
      if calls[0].AcquireCall? {
        AcquireActiveBounds(calls[0].p, s);
        AcquireKeepsNullWhenReleased(calls[0].p, s);
      } else {
        var h := calls[0].h;
        ReleaseKeepsNullWhenReleased(s, h);
        var m := FirstFrom(s, 0, Holding(h));
        if m.Some? {
          ReleaseFirstMatch(s, h, m.value);
        }
      }
      RunKeepsPoolAlive(Step(s, calls[0]), calls[1..]);
    }
  }

  /** A handed-out resource stays handed out: a slot that is busy, not
      released and holds `h` is left exactly as it is by any call other than
      `release(h)`. Recovery only touches released slots, a shrink or a claim
      only touches an idle slot, and `release(g)` for another `g` matches some
      other slot or none. */
  lemma HeldSlotStaysHeld(s: seq<Slot>, i: nat, h: Handle, c: Call)
    requires i < |s| && s[i] == Slot(Some(h), true, false)
    requires c != ReleaseCall(Some(h))
    ensures Step(s, c)[i] == s[i]
  {
    match c
    case AcquireCall(p) =>
      var t := Recover(p, s);
      RecoverOutcome(p, s);
      assert t[i] == s[i];
      var m := FirstFrom(t, 0, IsIdle);
      if m.Some? {
        assert m.value != i;
      }
    case ReleaseCall(g) =>
      var m := FirstFrom(s, 0, Holding(g));
      if m.Some? {
        assert m.value != i;
      }
  }

  /** Lifted to runs: a slot holding a handed-out `h` is unchanged by any
      sequence of calls that does not give `h` back. */
  lemma {:induction false} HeldUntilReleased(s: seq<Slot>, i: nat, h: Handle, calls: seq<Call>)
    requires i < |s| && s[i] == Slot(Some(h), true, false)
    requires forall k :: 0 <= k < |calls| ==> calls[k] != ReleaseCall(Some(h))
    decreases |calls|
    ensures |Run(s, calls)| == |s| && Run(s, calls)[i] == s[i]
  {
    if |calls| > 0 {
      HeldSlotStaysHeld(s, i, h, calls[0]);
      HeldUntilReleased(Step(s, calls[0]), i, h, calls[1..]);
    }
  }
}
