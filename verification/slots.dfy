/**
 * The slot store of one record group: the two Lua scripts the Lambda runs
 * against Redis (asg_lambda.js:188 and asg_lambda.js:271).  A group keeps
 * three keys, prefixed by its RecordName:
 *   <RecordName>:map      a hash from instance id to slot number
 *   <RecordName>:list     a list of released slot numbers (the free list)
 *   <RecordName>:counter  the highest slot number ever handed out
 * Each script runs atomically inside Redis, so each is modelled as one
 * sequential step.  The functions on SlotState are the specification; the
 * class SlotStore holds the three keys as fields and its methods are the
 * scripts, proved to perform exactly those steps.
 */
module Slots {
  import opened JsValues

  datatype SlotState = SlotState(owners: map<string, nat>, free: seq<nat>, counter: nat)

  /** The store after an allocation, and the slot the script returned. */
  datatype Allocation = Allocation(state: SlotState, slot: nat)

  /** The store after a release and the free-list length RPUSH returned, or
      the Redis error raised when the instance holds no slot. */
  datatype ReleaseOutcome = Released(state: SlotState, listLength: nat) | NotAssigned

  /** The store of a group nothing has been allocated in. */
  function EmptyStore(): SlotState
  {
    SlotState(map[], [], 0)
  }

  /** The allocate script: LPOP the free list; if it was empty, INCR the
      counter and use the new value; then HMSET map[instance] to the slot.
      An existing entry for the instance is not consulted. */
  function AllocateStep(s: SlotState, instance: string): (a: Allocation)
    ensures a.state.owners == s.owners[instance := a.slot]
    ensures s.free != [] ==> a.slot == s.free[0] && a.state.free == s.free[1..] && a.state.counter == s.counter
    ensures s.free == [] ==> a.slot == s.counter + 1 && a.state.free == [] && a.state.counter == a.slot
  {
    if |s.free| > 0 then
      var top := s.free[0];
      Allocation(SlotState(s.owners[instance := top], s.free[1..], s.counter), top)
    else
      var top := s.counter + 1;
      Allocation(SlotState(s.owners[instance := top], s.free, top), top)
  }

  /** The release script: HGET and HDEL map[instance], then RPUSH the slot
      onto the tail of the free list.  For an instance without an entry,
      HDEL changes nothing and RPUSH of the missing value is an error. */
  function ReleaseStep(s: SlotState, instance: string): (r: ReleaseOutcome)
    ensures r.NotAssigned? <==> instance !in s.owners
    ensures r.Released? ==>
      && r.state.owners == s.owners - {instance}
      && r.state.free == s.free + [s.owners[instance]]
      && r.state.counter == s.counter
      && r.listLength == |r.state.free|
  {
    if instance !in s.owners then NotAssigned
    else
      var id := s.owners[instance];
      Released(SlotState(s.owners - {instance}, s.free + [id], s.counter), |s.free| + 1)
  }

  /** Every slot in the store is between 1 and the counter, no slot is held
      twice, and no held slot is also free. */
  ghost predicate Consistent(s: SlotState)
  {
    && (forall i :: i in s.owners ==> 1 <= s.owners[i] <= s.counter)
    && (forall k :: 0 <= k < |s.free| ==> 1 <= s.free[k] <= s.counter)
    && (forall j, k :: 0 <= j < k < |s.free| ==> s.free[j] != s.free[k])
    && (forall i, k :: i in s.owners && 0 <= k < |s.free| ==> s.owners[i] != s.free[k])
    && (forall i, j :: i in s.owners && j in s.owners && i != j ==> s.owners[i] != s.owners[j])
  }

  /** No slot is lost: every number up to the counter is held or free. */
  ghost predicate Conserved(s: SlotState)
  {
    forall n :: 1 <= n <= s.counter ==> n in s.free || n in s.owners.Values
  }

  /** The slot an allocation hands out is held by no other instance and is no
      longer free, and the store stays consistent. */
  lemma AllocatePreservesConsistent(s: SlotState, instance: string)
    requires Consistent(s)
    ensures var a := AllocateStep(s, instance);
      && Consistent(a.state)
      && 1 <= a.slot <= a.state.counter
      && (forall i :: i in s.owners && i != instance ==> s.owners[i] != a.slot)
      && a.slot !in a.state.free
  {
    var a := AllocateStep(s, instance);
    if |s.free| > 0 {
      forall k | 0 <= k < |a.state.free| ensures a.state.free[k] != a.slot {
        assert a.state.free[k] == s.free[k + 1];
      }
    }
  }

  lemma ReleasePreservesConsistent(s: SlotState, instance: string)
    requires Consistent(s)
    ensures ReleaseStep(s, instance).Released? ==> Consistent(ReleaseStep(s, instance).state)
  {
  }

  /** Allocating for an instance that holds no slot loses no slot. */
  lemma AllocatePreservesConserved(s: SlotState, instance: string)
    requires Consistent(s) && Conserved(s) && instance !in s.owners
    ensures Conserved(AllocateStep(s, instance).state)
  {
    var a := AllocateStep(s, instance);
    forall n | 1 <= n <= a.state.counter ensures n in a.state.free || n in a.state.owners.Values {
      if n == a.slot {
        assert a.state.owners[instance] == n;
      } else if n in s.free {
        var k :| 0 <= k < |s.free| && s.free[k] == n;
        if |s.free| > 0 {
          assert k > 0 && a.state.free[k - 1] == n;
        }
      } else {
        var i :| i in s.owners && s.owners[i] == n;
        assert a.state.owners[i] == n;
      }
    }
  }

  /** Release loses no slot. */
  lemma ReleasePreservesConserved(s: SlotState, instance: string)
    requires Conserved(s)
    ensures ReleaseStep(s, instance).Released? ==> Conserved(ReleaseStep(s, instance).state)
  {
    if instance in s.owners {
      var r := ReleaseStep(s, instance).state;
      forall n | 1 <= n <= r.counter ensures n in r.free || n in r.owners.Values {
        if n !in s.free {
          var i :| i in s.owners && s.owners[i] == n;
          if i == instance {
            assert r.free[|r.free| - 1] == n;
          } else {
            assert r.owners[i] == n;
          }
        } else {
          var k :| 0 <= k < |s.free| && s.free[k] == n;
          assert r.free[k] == n;
        }
      }
    }
  }

  /** The allocate script does not check for an existing entry: allocating
      again for an instance that already holds a slot hands out a new one
      and the old slot is neither held nor free any more. */
  lemma AllocateAgainLosesSlot(s: SlotState, instance: string)
    requires Consistent(s) && instance in s.owners
    ensures var old_slot := s.owners[instance];
      var a := AllocateStep(s, instance);
      && a.slot != old_slot
      && old_slot !in a.state.free
      && old_slot !in a.state.owners.Values
      && !Conserved(a.state)
  {
    var n := s.owners[instance];
    var a := AllocateStep(s, instance);
    assert n !in a.state.free by {
      forall k | 0 <= k < |a.state.free| ensures a.state.free[k] != n {
        if |s.free| > 0 {
          assert a.state.free[k] == s.free[k + 1];
        }
      }
    }
    assert n !in a.state.owners.Values by {
      forall i | i in a.state.owners ensures a.state.owners[i] != n {
        if i != instance {
          assert a.state.owners[i] == s.owners[i];
        }
      }
    }
  }

  /** Two allocations in a row for different instances hand out different slots. */
  lemma AllocateDistinct(s: SlotState, i: string, j: string)
    requires Consistent(s) && i != j
    ensures var a1 := AllocateStep(s, i);
      AllocateStep(a1.state, j).slot != a1.slot
  {
    var a1 := AllocateStep(s, i);
    AllocatePreservesConsistent(s, i);
    AllocatePreservesConsistent(a1.state, j);
    assert a1.state.owners[i] == a1.slot;
  }

  /** A released slot is handed out again once the slots freed before it are
      used up: straight away when the free list was empty, and the counter
      does not move. */
  lemma ReleaseThenAllocate(s: SlotState, instance: string, other: string)
    requires instance in s.owners
    ensures var r := ReleaseStep(s, instance);
      var a := AllocateStep(r.state, other);
      && a.slot == (if s.free == [] then s.owners[instance] else s.free[0])
      && a.state.counter == s.counter
  {
  }

  /** The counter never goes down. */
  lemma CounterMonotone(s: SlotState, instance: string)
    ensures AllocateStep(s, instance).state.counter >= s.counter
    ensures ReleaseStep(s, instance).Released? ==> ReleaseStep(s, instance).state.counter == s.counter
  {
  }

  /** A launch into an empty group gets slot 1; releasing it queues slot 1
      with the counter left at 1; the next launch gets slot 1 again. */
  lemma FirstSlotIsReused(first: string, second: string)
    ensures var a1 := AllocateStep(EmptyStore(), first);
      var r := ReleaseStep(a1.state, first);
      var a2 := AllocateStep(r.state, second);
      && a1.slot == 1
      && r.Released? && r.state.free == [1] && r.state.counter == 1
      && a2.slot == 1 && a2.state.counter == 1
  {
  }

  /** The three Redis keys of one record group. */
  class SlotStore {
    const recordName: string
    var owners: map<string, nat>
    var free: seq<nat>
    var counter: nat

    function State(): SlotState
      reads this
    {
      SlotState(owners, free, counter)
    }

    /** A group whose keys do not exist yet. */
    constructor (recordName: string)
      ensures this.recordName == recordName
      ensures State() == EmptyStore()
    {
      this.recordName := recordName;
      owners := map[];
      free := [];
      counter := 0;
    }

    /** Run the allocate script for `instance`. */
    method Allocate(instance: string) returns (slot: nat)
      modifies this
      ensures Allocation(State(), slot) == AllocateStep(old(State()), instance)
      ensures old(Consistent(State())) ==> Consistent(State())
    {
      var top: nat;
      if |free| > 0 {
        top := free[0];
        free := free[1..];
      } else {
        counter := counter + 1;
        top := counter;
      }
      owners := owners[instance := top];
      slot := top;
      if Consistent(old(State())) {
        AllocatePreservesConsistent(old(State()), instance);
      }
    }

    /** Run the release script for `instance`; on success the result is the
        free list's new length, as RPUSH returns it. */
    method Release(instance: string) returns (r: Result<nat>)
      modifies this
      ensures ReleaseStep(old(State()), instance).Released? ==>
        State() == ReleaseStep(old(State()), instance).state
        && r == Ok(ReleaseStep(old(State()), instance).listLength)
      ensures ReleaseStep(old(State()), instance).NotAssigned? ==>
        State() == old(State()) && r.Err?
      ensures old(Consistent(State())) ==> Consistent(State())
    {
      if instance !in owners {
        return Err("ERR Lua redis() command arguments must be strings or integers");
      }
      var id := owners[instance];
      owners := owners - {instance};
      free := free + [id];
      r := Ok(|free|);
      if Consistent(old(State())) {
        ReleasePreservesConsistent(old(State()), instance);
      }
    }
  }
}
