/** Live snapshots: one reference count for each boundary, and the retention floor they hold. */
module Snapshots {
  import opened Versions

  /** A snapshot handle. Only managed ones are registered. */
  datatype Handle = Handle(sequence: nat, managed: bool)

  /** The lowest live boundary, or `LATEST` when nothing is live. */
  ghost predicate IsFloor(live: multiset<nat>, floor: nat)
  {
    if live == multiset{} then floor == LATEST
    else floor in live && forall s: nat :: s in live ==> floor <= s
  }

  function Min(a: nat, b: nat): nat
  {
    if a < b then a else b
  }

  /** The oldest sequence that is still served: the flushed maximum or a live boundary, and at most all of them. */
  ghost predicate IsOldest(live: multiset<nat>, flushed: nat, oldest: nat)
  {
    && oldest <= flushed && (forall s: nat :: s in live ==> oldest <= s)
    && (oldest == flushed || oldest in live)
  }

  /** The lower of the two floors is that sequence. */
  lemma LowerIsOldest(live: multiset<nat>, flushed: nat, floor: nat)
    requires IsFloor(live, floor) && flushed <= LATEST
    ensures IsOldest(live, flushed, Min(flushed, floor))
  {
  }

  /** A read is refused below it: below the flushed maximum and every live boundary. */
  lemma BelowOldest(live: multiset<nat>, flushed: nat, oldest: nat, snapshot: nat)
    requires IsOldest(live, flushed, oldest)
    ensures snapshot < oldest <==> snapshot < flushed && forall s: nat :: s in live ==> snapshot < s
  {
  }

  /** The map counts each element of the multiset. */
  ghost predicate Counts(counts: map<nat, nat>, live: multiset<nat>)
  {
    forall s: nat :: (s in counts <==> live[s] > 0) && (s in counts ==> counts[s] == live[s])
  }

  class SnapshotManager {
    var active: map<nat, nat>
    /** The boundaries of the live handles, once for each handle. */
    ghost var live: multiset<nat>

    ghost predicate Valid()
      reads this
    {
      Counts(active, live)
    }

    constructor ()
      ensures Valid() && live == multiset{}
    {
      active := map[];
      live := multiset{};
    }

    method Register(sequence: nat)
      requires Valid()
      modifies this
      ensures Valid() && live == old(live) + multiset{sequence}
    {
      active := active[sequence := (if sequence in active then active[sequence] else 0) + 1];
      live := live + multiset{sequence};
    }

    /** Gives one handle up; giving up what nobody holds changes nothing. */
    method Unregister(sequence: nat)
      requires Valid()
      modifies this
      ensures Valid() && live == old(live) - multiset{sequence}
    {
      var count := if sequence in active then active[sequence] else 1;
      count := if count > 0 then count - 1 else 0;
      if count == 0 {
        active := active - {sequence};
      } else {
        active := active[sequence := count];
      }
      live := live - multiset{sequence};
    }

    method NewManaged(sequence: nat) returns (h: Handle)
      requires Valid()
      modifies this
      ensures Valid() && h == Handle(sequence, true) && live == old(live) + multiset{sequence}
    {
      Register(sequence);
      h := Handle(sequence, true);
    }

    method Clone(h: Handle) returns (copy: Handle)
      requires Valid()
      modifies this
      ensures Valid() && copy == h
      ensures live == if h.managed then old(live) + multiset{h.sequence} else old(live)
    {
      if h.managed {
        Register(h.sequence);
      }
      copy := h;
    }

    method Drop(h: Handle)
      requires Valid()
      modifies this
      ensures Valid()
      ensures live == if h.managed then old(live) - multiset{h.sequence} else old(live)
    {
      if h.managed {
        Unregister(h.sequence);
      }
    }

    method Floor() returns (floor: nat)
      requires Valid()
      ensures IsFloor(live, floor)
    {
      floor := LATEST;
      var found := false;
      var keys := active.Keys;
      while keys != {}
        invariant keys <= active.Keys
        invariant !found ==> keys == active.Keys && floor == LATEST
        invariant found ==> floor in active.Keys && forall x: nat :: x in active.Keys && x !in keys ==> floor <= x
        decreases |keys|
      {
        var s: nat :| s in keys;
        keys := keys - {s};
        if !found || s < floor {
          floor, found := s, true;
        }
      }
      if found {
        assert live[floor] > 0;
      } else {
        assert forall s: nat :: live[s] == 0;
      }
    }

    /** The number of live handles, counting every clone. */
    method ActiveCount() returns (n: nat)
      requires Valid()
      ensures n == |live|
    {
      n := 0;
      var keys := active.Keys;
      ghost var counted: multiset<nat> := multiset{};
      while keys != {}
        invariant keys <= active.Keys
        invariant forall s: nat :: counted[s] == if s in active && s !in keys then active[s] else 0
        invariant n == |counted|
        decreases |keys|
      {
        var s :| s in keys;
        keys := keys - {s};
        n := n + active[s];
        counted := AddCopies(counted, s, active[s]);
      }
      assert counted == live;
    }
  }

  ghost function AddCopies(m: multiset<nat>, s: nat, n: nat): (r: multiset<nat>)
    requires m[s] == 0
    ensures |r| == |m| + n
    ensures forall x: nat :: r[x] == if x == s then n else m[x]
  {
    m[s := n]
  }
}
