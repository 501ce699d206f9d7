/** The slot table of AdaptiveResourcePool as a value, and what each of its
    operations does to that value. The class in ResourcePool keeps the table as
    three parallel vectors and is proved to follow these functions. */
module PoolModel {
  import opened Counting

  datatype Option<T> = None | Some(value: T)

  /** The identity of a resource object (the address a `unique_ptr` owns).
      `None` in a resource position stands for a null pointer. */
  type Handle = nat

  /** One index of the table: `resources_[i]`, `busy_[i]` and `released_[i]`. */
  datatype Slot = Slot(resource: Option<Handle>, busy: bool, released: bool)

  /** The caller-supplied policies. An empty `std::function` is `None`.
      `restoreFunc` is always called when restoring, never tested for
      emptiness, so it is a total function here; `releaseFunc` only matters
      through the indices it is called on, so only its presence is kept. */
  datatype Params = Params(
    canRestore: Option<nat -> bool>,
    shouldRelease: Option<nat -> bool>,
    restoreFunc: nat -> Option<Handle>,
    hasReleaseFunc: bool)

  /** Table after an `acquire` and the pointer it hands out. */
  datatype Outcome = Outcome(slots: seq<Slot>, handle: Option<Handle>)

  predicate IsIdle(x: Slot) { !x.busy && !x.released }

  predicate IsActive(x: Slot) { !x.released }

  function Holding(h: Option<Handle>): Slot -> bool
  {
    (x: Slot) => x.resource == h
  }

  /** `activeCount()`: the number of slots not released. */
  function CountActive(s: seq<Slot>): (n: nat)
    ensures n <= |s|
  {
    Count(s, IsActive)
  }

  /** `idleCount()`: the number of slots neither busy nor released. */
  function CountIdle(s: seq<Slot>): (n: nat)
    ensures n <= |s|
  {
    Count(s, IsIdle)
  }

  /** Both counts are the sizes of the sets of indices they count. */
  lemma CountsAreCardinalities(s: seq<Slot>)
    ensures CountActive(s) == |set i: nat | i < |s| && !s[i].released|
    ensures CountIdle(s) == |set i: nat | i < |s| && !s[i].busy && !s[i].released|
  {
    CountIsCardinality(s, IsActive);
    CountIsCardinality(s, IsIdle);
    assert Indices(s, IsActive) == set i: nat | i < |s| && !s[i].released;
    assert Indices(s, IsIdle) == set i: nat | i < |s| && !s[i].busy && !s[i].released;
  }

  /** The one invariant the code keeps: a released slot owns no resource. */
  ghost predicate NullWhenReleased(s: seq<Slot>)
  {
    forall i :: 0 <= i < |s| && s[i].released ==> s[i].resource == None
  }

  /** No two slots hold the same non-null resource. */
  ghost predicate UniqueHandles(s: seq<Slot>)
  {
    forall i, j :: 0 <= i < |s| && 0 <= j < |s| && i != j && s[i].resource.Some? ==> s[i].resource != s[j].resource
  }

  predicate CanRestoreFires(p: Params, active: nat)
  {
    p.canRestore.Some? && p.canRestore.value(active)
  }

  predicate ShouldReleaseFires(p: Params, active: nat)
  {
    p.shouldRelease.Some? && p.shouldRelease.value(active)
  }

  /** The table the constructor builds from what `resource_initializer`
      returned: every slot idle and not released. */
  function Init(initial: seq<Option<Handle>>): (s: seq<Slot>)
    ensures |s| == |initial|
    ensures forall i :: 0 <= i < |s| ==> s[i].resource == initial[i]
    ensures CountIdle(s) == |initial| && CountActive(s) == |initial|
    ensures NullWhenReleased(s)
  {
    var s := seq(|initial|, i requires 0 <= i < |initial| => Slot(initial[i], false, false));
    CountExtremes(s, IsIdle);
    CountExtremes(s, IsActive);
    s
  }

  /** First index at or after `from` whose slot satisfies `p`: the
      early-exit scan every operation of the pool performs. */
  function FirstFrom(s: seq<Slot>, from: nat, p: Slot -> bool): (r: Option<nat>)
    decreases |s| - from
    ensures r.Some? ==> from <= r.value < |s| && p(s[r.value])
    ensures r.Some? ==> forall j :: from <= j < r.value ==> !p(s[j])
    ensures r.None? <==> forall j :: from <= j < |s| ==> !p(s[j])
  {
    if from >= |s| then None
    else if p(s[from]) then Some(from)
    else FirstFrom(s, from + 1, p)
  }

  /** The restore loop of `maybeRecover` from index `i` on, one index at a
      time as the loop runs. */
  function RestoreFrom(restore: nat -> Option<Handle>, s: seq<Slot>, i: nat): (r: seq<Slot>)
    requires i <= |s|
    decreases |s| - i
    ensures |r| == |s|
  {
    if i == |s| then s
    else
      var next := if s[i].released && restore(i).Some? then s[i := Slot(restore(i), false, false)] else s;
      RestoreFrom(restore, next, i + 1)
  }

  /** What the restore loop does, slot by slot: from index `i` on, each
      released slot whose `restore` result is non-null takes that resource
      and becomes idle; every other slot is left as it is. */
  lemma {:induction false} RestoreFromPointwise(restore: nat -> Option<Handle>, s: seq<Slot>, i: nat)
    requires i <= |s|
    decreases |s| - i
    ensures forall j :: 0 <= j < i ==> RestoreFrom(restore, s, i)[j] == s[j]
    ensures forall j :: i <= j < |s| && s[j].released && restore(j).Some? ==> RestoreFrom(restore, s, i)[j] == Slot(restore(j), false, false)
    ensures forall j :: i <= j < |s| && !(s[j].released && restore(j).Some?) ==> RestoreFrom(restore, s, i)[j] == s[j]
  {
    if i < |s| {
      var next := if s[i].released && restore(i).Some? then s[i := Slot(restore(i), false, false)] else s;
      RestoreFromPointwise(restore, next, i + 1);
    }
  }

  /** One iteration of the restore loop. */
  lemma RestoreFromStep(restore: nat -> Option<Handle>, s: seq<Slot>, i: nat)
    requires i < |s|
    ensures RestoreFrom(restore, s, i)
         == RestoreFrom(restore, if s[i].released && restore(i).Some? then s[i := Slot(restore(i), false, false)] else s, i + 1)
  {
  }

  /** `maybeRecover()`: `can_restore` is asked once, with the active count
      before any restore; only when present and true is the loop run. */
  function Recover(p: Params, s: seq<Slot>): (r: seq<Slot>)
    ensures |r| == |s|
  {
    if CanRestoreFires(p, CountActive(s)) then RestoreFrom(p.restoreFunc, s, 0) else s
  }

  /** `maybeReleaseOne(start)`: tear down the first idle slot at or after
      `start`, unless at most one slot is active; the torn-down slot is left
      released, busy and holding null. */
  function ReleaseOne(s: seq<Slot>, start: nat): (r: seq<Slot>)
    ensures |r| == |s|
    ensures CountActive(s) <= 1 ==> r == s
    ensures (forall j :: start <= j < |s| ==> !IsIdle(s[j])) ==> r == s
    ensures forall k :: start <= k < |s| && IsIdle(s[k]) && (forall j :: start <= j < k ==> !IsIdle(s[j])) && CountActive(s) >= 2
                        ==> r == s[k := Slot(None, true, true)]
    ensures CountActive(s) - 1 <= CountActive(r) <= CountActive(s)
    ensures CountActive(s) >= 1 ==> CountActive(r) >= 1
  {
    match FirstFrom(s, start, IsIdle)
    case None => s
    case Some(i) =>
      if CountActive(s) <= 1 then s
      else
        CountUpdate(s, i, Slot(None, true, true), IsActive);
        s[i := Slot(None, true, true)]
  }

  /** `acquire()`: recover, then scan for the first idle slot; either claim it
      or, when `should_release` says so, hand it to `maybeReleaseOne` and
      return null. Null also when no slot is idle. */
  function Acquire(p: Params, s: seq<Slot>): (r: Outcome)
    ensures |r.slots| == |s|
  {
    var t := Recover(p, s);
    match FirstFrom(t, 0, IsIdle)
    case None => Outcome(t, None)
    case Some(i) =>
      if ShouldReleaseFires(p, CountActive(t)) then Outcome(ReleaseOne(t, i), None)
      else Outcome(t[i := t[i].(busy := true)], t[i].resource)
  }

  /** `release(h)`: clear the busy flag of the first slot whose resource is
      `h`; with no such slot the table is unchanged. */
  function Release(s: seq<Slot>, h: Option<Handle>): (r: seq<Slot>)
    ensures |r| == |s|
  {
    match FirstFrom(s, 0, Holding(h))
    case None => s
    case Some(i) => s[i := s[i].(busy := false)]
  }

  /** Indices of the non-released slots, collected in index order. */
  function ActiveIndices(s: seq<Slot>): (r: seq<nat>)
    ensures |r| == CountActive(s)
  {
    if |s| == 0 then []
    else ActiveIndices(s[..|s| - 1]) + (if !s[|s| - 1].released then [|s| - 1] else [])
  }

  /** The collected indices are exactly the non-released slots, each once,
      in increasing order, as many as `activeCount()`. */
  lemma {:induction false} ActiveIndicesExact(s: seq<Slot>)
    ensures |ActiveIndices(s)| == CountActive(s)
    ensures forall k :: k in ActiveIndices(s) ==> k < |s| && !s[k].released
    ensures forall k :: 0 <= k < |s| && !s[k].released ==> k in ActiveIndices(s)
    ensures forall a, b :: 0 <= a < b < |ActiveIndices(s)| ==> ActiveIndices(s)[a] < ActiveIndices(s)[b]
  {
    if |s| > 0 {
      var init := s[..|s| - 1];
      assert forall k :: 0 <= k < |init| ==> init[k] == s[k];
      ActiveIndicesExact(init);
      var before := ActiveIndices(init);
      assert forall a :: 0 <= a < |before| ==> before[a] in before;
    }
  }

  /** The indices `release_func` is called on by the destructor, in call
      order: none when it is empty. */
  function Teardown(p: Params, s: seq<Slot>): (r: seq<nat>)
    ensures |r| == if p.hasReleaseFunc then CountActive(s) else 0
  {
    if p.hasReleaseFunc then ActiveIndices(s) else []
  }
}
