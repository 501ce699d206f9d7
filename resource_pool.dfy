/** The pool object itself: the three parallel vectors `resources_`, `busy_`
    and `released_`, updated element by element, and one method per member
    function of `AdaptiveResourcePool`. Each public call is one atomic step
    (the mutex only serialises calls). */
module ResourcePool {
  import opened Counting
  import opened PoolModel

  /** The slot view of three parallel vectors. */
  function Table(resources: seq<Option<Handle>>, busy: seq<bool>, released: seq<bool>): (s: seq<Slot>)
    requires |busy| == |resources| && |released| == |resources|
    ensures |s| == |resources|
    ensures forall i :: 0 <= i < |s| ==> s[i] == Slot(resources[i], busy[i], released[i])
  {
    seq(|resources|, i requires 0 <= i < |resources| => Slot(resources[i], busy[i], released[i]))
  }

  lemma TableSet(resources: seq<Option<Handle>>, busy: seq<bool>, released: seq<bool>, i: nat, x: Slot)
    requires |busy| == |resources| && |released| == |resources| && i < |resources|
    ensures Table(resources[i := x.resource], busy[i := x.busy], released[i := x.released])
         == Table(resources, busy, released)[i := x]
  {
  }

  lemma TableSetBusy(resources: seq<Option<Handle>>, busy: seq<bool>, released: seq<bool>, i: nat, b: bool)
    requires |busy| == |resources| && |released| == |resources| && i < |resources|
    ensures Table(resources, busy[i := b], released) == Table(resources, busy, released)[i := Table(resources, busy, released)[i].(busy := b)]
  {
  }

  /** One iteration of the restore loop of `maybeRecover`, on the vectors. */
  lemma RestoreStep(restore: nat -> Option<Handle>, resources: seq<Option<Handle>>, busy: seq<bool>, released: seq<bool>, i: nat)
    requires |busy| == |resources| && |released| == |resources| && i < |resources|
    ensures released[i] && restore(i).Some? ==>
      RestoreFrom(restore, Table(resources, busy, released), i)
      == RestoreFrom(restore, Table(resources[i := restore(i)], busy[i := false], released[i := false]), i + 1)
    ensures !(released[i] && restore(i).Some?) ==>
      RestoreFrom(restore, Table(resources, busy, released), i) == RestoreFrom(restore, Table(resources, busy, released), i + 1)
  {
    var t := Table(resources, busy, released);
    RestoreFromStep(restore, t, i);
    if released[i] && restore(i).Some? {
      TableSet(resources, busy, released, i, Slot(restore(i), false, false));
    }
  }

  predicate NotReleased(b: bool) { !b }

  class AdaptiveResourcePool {
    const params: Params
    var resources: seq<Option<Handle>>
    var busy: seq<bool>
    var released: seq<bool>

    /** The vectors stay parallel, and a released slot owns no resource. */
    ghost predicate Valid()
      reads this
    {
      && |busy| == |resources|
      && |released| == |resources|
      && forall i :: 0 <= i < |resources| && released[i] ==> resources[i] == None
    }

    ghost function Slots(): (s: seq<Slot>)
      reads this
      requires Valid()
    {
      Table(resources, busy, released)
    }

    /** Builds the table from what `resource_initializer` returned. */
    constructor (params: Params, initial: seq<Option<Handle>>)
      ensures Valid()
      ensures this.params == params
      ensures Slots() == Init(initial)
    {
      this.params := params;
      resources := initial;
      busy := seq(|initial|, _ => false);
      released := seq(|initial|, _ => false);
    }

    /** `activeCount()`: `std::count` of false over the released flags,
        which is the number of slots not released. */
    function ActiveCount(): (n: nat)
      reads this
      requires Valid()
      ensures n == CountActive(Slots())
    {
      CountSame(released, Slots(), NotReleased, IsActive);
      Count(released, NotReleased)
    }

    /** `idleCount()`: counts the slots neither busy nor released. */
    method IdleCount() returns (n: nat)
      requires Valid()
      ensures n == CountIdle(Slots())
    {
      ghost var s := Slots();
      n := 0;
      for i := 0 to |resources|
        invariant n == Count(s[..i], IsIdle)
      {
        CountPrefix(s, IsIdle, i);
        if !busy[i] && !released[i] {
          n := n + 1;
        }
      }
      assert s[..|s|] == s;
    }

    /** `maybeRecover()`. */
    method MaybeRecover()
      requires Valid()
      modifies this
      ensures Valid()
      ensures Slots() == Recover(params, old(Slots()))
    {
      var active := ActiveCount();
      if params.canRestore.None? || !params.canRestore.value(active) {
        return;
      }
      ghost var target := RestoreFrom(params.restoreFunc, Slots(), 0);
      ghost var n := |resources|;
      for i := 0 to |resources|
        invariant Valid() && |resources| == n
        invariant RestoreFrom(params.restoreFunc, Table(resources, busy, released), i) == target
      {
        RestoreStep(params.restoreFunc, resources, busy, released, i);
        if released[i] {
          var restored := params.restoreFunc(i);
          if restored.Some? {
            resources := resources[i := restored];
            released := released[i := false];
            busy := busy[i := false];
          }
        }
      }
    }

    /** `maybeReleaseOne(start_index)`. */
    method MaybeReleaseOne(start: nat)
      requires Valid()
      modifies this
      ensures Valid()
      ensures Slots() == ReleaseOne(old(Slots()), start)
    {
      var active := ActiveCount();
      var i := start;
      while i < |resources|
        invariant start <= i
        invariant resources == old(resources) && busy == old(busy) && released == old(released)
        invariant forall j :: start <= j < i && j < |resources| ==> busy[j] || released[j]
      {
        if !busy[i] && !released[i] {
          if active <= 1 {
            return;
          }
          TableSet(resources, busy, released, i, Slot(None, true, true));
          busy := busy[i := true];
          resources := resources[i := None];
          released := released[i := true];
          return;
        }
        i := i + 1;
      }
    }

    /** `acquire()`. */
    method Acquire() returns (r: Option<Handle>)
      requires Valid()
      modifies this
      ensures Valid()
      ensures Outcome(Slots(), r) == PoolModel.Acquire(params, old(Slots()))
    {
      MaybeRecover();
      ghost var t := Slots();
      var i := 0;
      while i < |resources|
        invariant i <= |resources|
        invariant Valid() && Slots() == t
        invariant forall j :: 0 <= j < i ==> !IsIdle(t[j])
      {
        if !busy[i] && !released[i] {
          assert FirstFrom(t, 0, IsIdle) == Some(i);
          if params.shouldRelease.Some? && params.shouldRelease.value(ActiveCount()) {
            MaybeReleaseOne(i);
            return None;
          }
          TableSetBusy(resources, busy, released, i, true);
          busy := busy[i := true];
          return resources[i];
        }
        i := i + 1;
      }
      return None;
    }

    /** `release(res_ptr)`. */
    method Release(h: Option<Handle>)
      requires Valid()
      modifies this
      ensures Valid()
      ensures Slots() == PoolModel.Release(old(Slots()), h)
    {
      ghost var s := Slots();
      for i := 0 to |resources|
        invariant resources == old(resources) && busy == old(busy) && released == old(released)
        invariant forall j :: 0 <= j < i ==> !Holding(h)(s[j])
      {
        if resources[i] == h {
          assert FirstFrom(s, 0, Holding(h)) == Some(i);
          TableSetBusy(resources, busy, released, i, false);
          busy := busy[i := false];
          return;
        }
      }
    }

    /** The destructor: tear down every non-released slot, then clear the
        three vectors. Returns the indices `release_func` was called on. */
    method Destroy() returns (calls: seq<nat>)
      requires Valid()
      modifies this
      ensures calls == Teardown(params, old(Slots()))
      ensures resources == [] && busy == [] && released == []
    {
      ghost var s := Slots();
      calls := [];
      for i := 0 to |resources|
        invariant |resources| == |s| && busy == old(busy) && released == old(released)
        invariant calls == Teardown(params, s[..i])
      {
        assert s[..i + 1][..i] == s[..i];
        if !released[i] {
          if params.hasReleaseFunc {
            calls := calls + [i];
          }
          resources := resources[i := None];
        }
      }
      assert s[..|s|] == s;
      resources := [];
      busy := [];
      released := [];
    }
  }
}
