/**
 * The Route 53 change batches the Lambda plans for a launched instance:
 * which address each instance contributes (asg_lambda.js:238-265), the
 * forward batch of A records (asg_lambda.js:444-486) and the reverse batch
 * with the PTR record (asg_lambda.js:392-424).  The three switches of the
 * deployment are an explicit configuration value.
 */
module Planner {
  import opened JsValues
  import opened Digits
  import opened Addresses
  import opened AddressSort
  import opened Naming

  /** do_round_robin, do_individual_entries and do_reverse_entry. */
  datatype Config = Config(roundRobin: bool, individualEntries: bool, reverseEntry: bool)

  /** One entry of ChangeBatch.Changes: an action on a resource record set. */
  datatype Change = Change(action: string, name: string, recordType: string, ttl: nat, values: seq<string>)

  datatype ChangeBatch = ChangeBatch(zoneId: string, changes: seq<Change>)

  /** Every record the Lambda writes lives ten seconds in resolver caches. */
  const RecordTtl: nat := 10

  /** An EC2 instance as describeInstances reports it. */
  datatype Instance = Instance(instanceId: string, publicIp: Option<string>, privateIp: Option<string>)

  datatype Reservation = Reservation(instances: seq<Instance>)

  // ---------------------------------------------------------------------
  // Addresses

  /** `pub ? pub : priv`: the public address wins exactly when isEmpty does
      not hold for it, otherwise the private one is taken. */
  function PickAddress(pub: Option<string>, priv: Option<string>): (r: Option<string>)
    ensures !IsEmpty(pub) ==> r == pub
    ensures IsEmpty(pub) ==> r == priv
  {
    if Truthy(pub) then pub else priv
  }

  /** The pick is defined whenever one of the two addresses is usable. */
  lemma PickAddressDefined(pub: Option<string>, priv: Option<string>)
    ensures (!IsEmpty(pub) || priv.Some?) <==> PickAddress(pub, priv).Some?
  {
  }

  /** The address an instance contributes: its public address unless that is
      empty, otherwise its private one. */
  function InstanceAddress(inst: Instance): (r: Option<string>)
    ensures r.Some? ==> r == inst.publicIp || r == inst.privateIp
    ensures !IsEmpty(inst.publicIp) ==> r == inst.publicIp
    ensures IsEmpty(inst.publicIp) ==> r == inst.privateIp
  {
    PickAddress(inst.publicIp, inst.privateIp)
  }

  /** The addresses of `insts`, in order, leaving out instances without one
      (`filter(ip.Value !== undefined)`). */
  function MemberAddresses(insts: seq<Instance>): (r: seq<string>)
    ensures |r| <= |insts|
    ensures forall v :: v in r <==> exists inst :: inst in insts && InstanceAddress(inst) == Some(v)
  {
    if insts == [] then []
    else
      var rest := MemberAddresses(insts[1..]);
      assert insts == [insts[0]] + insts[1..];
      match InstanceAddress(insts[0])
      case Some(v) => [v] + rest
      case None => rest
  }

  /** One entry per instance that has an address, in the order of the
      instances: the list of a concatenation is the concatenation of the
      lists. */
  lemma {:induction false} MemberAddressesConcat(a: seq<Instance>, b: seq<Instance>)
    ensures MemberAddresses(a + b) == MemberAddresses(a) + MemberAddresses(b)
  {
    if a != [] {
      assert (a + b)[1..] == a[1..] + b;
      MemberAddressesConcat(a[1..], b);
    } else {
      assert a + b == b;
    }
  }

  /** A single instance contributes its address if it has one, and nothing
      otherwise. */
  lemma MemberAddressesSingle(inst: Instance)
    ensures MemberAddresses([inst]) == match InstanceAddress(inst) case Some(v) => [v] case None => []
  {
    assert [inst][1..] == [];
  }

  /** Reordering the instances reorders their addresses: equal multisets of
      instances give equal multisets of addresses. */
  lemma {:induction false} MemberAddressesPermutation(a: seq<Instance>, b: seq<Instance>)
    requires multiset(a) == multiset(b)
    ensures multiset(MemberAddresses(a)) == multiset(MemberAddresses(b))
  {
    if a != [] {
      assert a[0] in multiset(b);
      var k :| 0 <= k < |b| && b[k] == a[0];
      var b1, b2 := b[..k], b[k + 1..];
      RemoveMatching(a, b, k);
      MemberAddressesPermutation(a[1..], b1 + b2);
      MemberAddressesConcat(b1, b2);
      MemberAddressesConcat(b1 + [a[0]], b2);
      MemberAddressesConcat(b1, [a[0]]);
      MemberAddressesConcat([a[0]], a[1..]);
      var h := MemberAddresses([a[0]]);
      assert MemberAddresses(a) == h + MemberAddresses(a[1..]);
      assert MemberAddresses(b) == MemberAddresses(b1) + h + MemberAddresses(b2);
    } else {
      assert b == [];
    }
  }

  /** Taking the first element of `a` out of `b` where it sits leaves equal
      multisets behind. */
  lemma RemoveMatching<T>(a: seq<T>, b: seq<T>, k: nat)
    requires multiset(a) == multiset(b) && a != []
    requires k < |b| && b[k] == a[0]
    ensures b == b[..k] + [a[0]] + b[k + 1..] && a == [a[0]] + a[1..]
    ensures multiset(a[1..]) == multiset(b[..k] + b[k + 1..])
  {
    var b1, b2 := b[..k], b[k + 1..];
    assert b == b1 + [a[0]] + b2;
    assert a == [a[0]] + a[1..];
    calc {
      multiset(a[1..]);
      multiset(a) - multiset{a[0]};
      multiset(b1 + [a[0]] + b2) - multiset{a[0]};
      { assert multiset(b1 + [a[0]] + b2) == multiset(b1) + multiset{a[0]} + multiset(b2); }
      multiset(b1) + multiset(b2);
      multiset(b1 + b2);
    }
  }

  /** Some reservation holds `inst`. */
  ghost predicate IsMember(reservations: seq<Reservation>, inst: Instance)
  {
    exists j :: 0 <= j < |reservations| && inst in reservations[j].instances
  }

  /** The instances of all reservations, in order. */
  function AllInstances(reservations: seq<Reservation>): (r: seq<Instance>)
    ensures forall inst :: inst in r <==> IsMember(reservations, inst)
    ensures reservations != [] ==> r == reservations[0].instances + AllInstances(reservations[1..])
  {
    if reservations == [] then []
    else
      var rest := AllInstances(reservations[1..]);
      assert forall inst :: IsMember(reservations[1..], inst) ==> IsMember(reservations, inst) by {
        forall inst | IsMember(reservations[1..], inst) ensures IsMember(reservations, inst) {
          var j :| 0 <= j < |reservations[1..]| && inst in reservations[1..][j].instances;
          assert reservations[1..][j] == reservations[j + 1];
        }
      }
      assert forall inst :: IsMember(reservations, inst) ==>
        inst in reservations[0].instances || IsMember(reservations[1..], inst) by {
        forall inst | IsMember(reservations, inst)
          ensures inst in reservations[0].instances || IsMember(reservations[1..], inst)
        {
          var j :| 0 <= j < |reservations| && inst in reservations[j].instances;
          if j > 0 {
            assert reservations[1..][j - 1] == reservations[j];
          }
        }
      }
      reservations[0].instances + rest
  }

  /** extractIpAddresses as written: the address list of the first
      reservation only (`resource_records[0]`), `undefined` when there is
      no reservation. */
  function ExtractAddresses(reservations: seq<Reservation>): (r: Option<seq<string>>)
    ensures r.None? <==> reservations == []
    ensures r.Some? ==> forall v :: v in r.value <==>
      exists inst :: inst in reservations[0].instances && InstanceAddress(inst) == Some(v)
  {
    if |reservations| == 0 then None else Some(MemberAddresses(reservations[0].instances))
  }

  /** The addresses of every member of the group, whatever reservation it
      was launched in. */
  function ExtractAllAddresses(reservations: seq<Reservation>): (r: seq<string>)
    ensures forall v :: v in r <==> exists inst :: IsMember(reservations, inst) && InstanceAddress(inst) == Some(v)
  {
    MemberAddresses(AllInstances(reservations))
  }

  /** With a single reservation the two extractions agree. */
  lemma ExtractionsAgreeOnOneReservation(reservations: seq<Reservation>)
    requires |reservations| == 1
    ensures ExtractAddresses(reservations) == Some(ExtractAllAddresses(reservations))
  {
    assert reservations[1..] == [];
    assert AllInstances(reservations[1..]) == [];
    assert AllInstances(reservations) == reservations[0].instances + [];
    assert reservations[0].instances + [] == reservations[0].instances;
  }

  /** A group whose two members were launched in separate reservations:
      the list as written holds only the first member's address. */
  lemma ExtractAddressesMissesLaterReservations()
    ensures var rs := [Reservation([Instance("i-1", Some("54.0.0.1"), Some("10.0.0.1"))]),
                       Reservation([Instance("i-2", None, Some("10.0.0.2"))])];
      && ExtractAddresses(rs) == Some(["54.0.0.1"])
      && "10.0.0.2" !in ExtractAddresses(rs).value
      && "10.0.0.2" in ExtractAllAddresses(rs)
  {
    var i1 := Instance("i-1", Some("54.0.0.1"), Some("10.0.0.1"));
    var i2 := Instance("i-2", None, Some("10.0.0.2"));
    var rs := [Reservation([i1]), Reservation([i2])];
    assert [i1][1..] == [];
    assert InstanceAddress(i1) == Some("54.0.0.1");
    assert MemberAddresses([i1]) == ["54.0.0.1"] + MemberAddresses([]);
    assert ["54.0.0.1"] + MemberAddresses([]) == ["54.0.0.1"];
    assert i2 in rs[1].instances;
    assert IsMember(rs, i2);
  }

  /** The values of the round-robin record: every member's address, in
      ascending padded-key order. */
  function RoundRobinValues(reservations: seq<Reservation>): (r: seq<string>)
    ensures multiset(r) == multiset(ExtractAllAddresses(reservations))
    ensures SortedBy(SortKey, r)
  {
    SortBySorted(SortKey, ExtractAllAddresses(reservations));
    SortAddresses(ExtractAllAddresses(reservations))
  }

  /** The round-robin record lists exactly the addresses of the members. */
  lemma RoundRobinCoversMembers(reservations: seq<Reservation>, v: string)
    ensures v in RoundRobinValues(reservations) <==>
      exists inst :: IsMember(reservations, inst) && InstanceAddress(inst) == Some(v)
  {
    var all := ExtractAllAddresses(reservations);
    assert v in RoundRobinValues(reservations) <==> v in multiset(RoundRobinValues(reservations));
    assert v in all <==> v in multiset(all);
  }

  /** The round-robin record does not depend on how EC2 grouped and ordered
      the members: the same instances, with addresses written as EC2 writes
      them, give the same value list. */
  lemma RoundRobinDeterministic(rs1: seq<Reservation>, rs2: seq<Reservation>)
    requires multiset(AllInstances(rs1)) == multiset(AllInstances(rs2))
    requires forall inst :: inst in AllInstances(rs1) && InstanceAddress(inst).Some? ==>
               IsCanonicalQuad(InstanceAddress(inst).value)
    ensures RoundRobinValues(rs1) == RoundRobinValues(rs2)
  {
    var s, t := ExtractAllAddresses(rs1), ExtractAllAddresses(rs2);
    MemberAddressesPermutation(AllInstances(rs1), AllInstances(rs2));
    forall k | 0 <= k < |s| ensures IsCanonicalQuad(s[k]) {
      assert s[k] in s;
    }
    SortDeterministic(s, t);
  }

  /** instance.IP: the address of the launched instance.  Every instance
      with the id overwrites it, so the last one listed wins; `undefined`
      when the id is not listed. */
  function InstanceIp(insts: seq<Instance>, id: string): (r: Option<string>)
    ensures (forall k :: 0 <= k < |insts| ==> insts[k].instanceId != id) ==> r == None
    ensures forall k :: 0 <= k < |insts| && insts[k].instanceId == id
              && (forall j :: k < j < |insts| ==> insts[j].instanceId != id)
              ==> r == InstanceAddress(insts[k])
  {
    if insts == [] then None
    else
      var n := |insts| - 1;
      if insts[n].instanceId == id then InstanceAddress(insts[n])
      else
        assert forall k :: 0 <= k < n ==> insts[..n][k] == insts[k];
        InstanceIp(insts[..n], id)
  }

  // ---------------------------------------------------------------------
  // Forward batch

  /** The changes of updateDNSForward: the round-robin record with all
      member addresses when do_round_robin is set, then the instance's own
      record when do_individual_entries is set. */
  function ForwardChanges(config: Config, meta: DomainMeta, members: seq<string>, ip: string, nr: nat): (r: seq<Change>)
    ensures |r| == (if config.roundRobin then 1 else 0) + (if config.individualEntries then 1 else 0)
    ensures forall k :: 0 <= k < |r| ==> r[k].action == "UPSERT" && r[k].recordType == "A" && r[k].ttl == RecordTtl
    ensures config.roundRobin ==> r[0].name == RoundRobinName(meta) && r[0].values == members
    ensures config.individualEntries ==> r[|r| - 1].name == IndividualName(meta, nr) && r[|r| - 1].values == [ip]
  {
    (if config.roundRobin then [Change("UPSERT", RoundRobinName(meta), "A", RecordTtl, members)] else [])
    + (if config.individualEntries then [Change("UPSERT", IndividualName(meta, nr), "A", RecordTtl, [ip])] else [])
  }

  /** updateDNSForward: start from an empty change list and push the
      enabled records in turn. */
  method BuildForwardBatch(config: Config, meta: DomainMeta, members: seq<string>, ip: string, nr: nat)
    returns (batch: ChangeBatch)
    ensures batch == ChangeBatch(meta.hostedZoneId, ForwardChanges(config, meta, members, ip, nr))
  {
    var record: string;
    if meta.domainName.Some? {
      record := Show(meta.recordName) + "." + meta.domainName.value;
    } else {
      record := Show(meta.recordName);
    }
    var changes: seq<Change> := [];
    if config.roundRobin {
      changes := changes + [Change("UPSERT", record, "A", RecordTtl, members)];
    }
    if config.individualEntries {
      var cnt := "-" + NormalizeNumber(NatToString(nr));
      if meta.domainName.Some? {
        record := Show(meta.recordName) + cnt + "." + meta.domainName.value;
      } else {
        record := Show(meta.recordName) + cnt;
      }
      changes := changes + [Change("UPSERT", record, "A", RecordTtl, [ip])];
    }
    batch := ChangeBatch(meta.hostedZoneId, changes);
  }

  /** The two forward records never name the same record set. */
  lemma ForwardNamesDiffer(meta: DomainMeta, nr: nat)
    ensures RoundRobinName(meta) != IndividualName(meta, nr)
  {
    var p := Show(meta.recordName);
    match meta.domainName {
      case Some(d) =>
        assert RoundRobinName(meta)[|p|] == '.';
        assert IndividualName(meta, nr)[|p|] == '-';
      case None =>
        assert |IndividualName(meta, nr)| > |RoundRobinName(meta)|;
    }
  }

  /** With round-robin on, the first forward change lists exactly the
      addresses of the members of the group, in every reservation. */
  lemma ForwardRoundRobinListsMembers(config: Config, meta: DomainMeta, reservations: seq<Reservation>,
                                      ip: string, nr: nat, v: string)
    requires config.roundRobin
    ensures var f := ForwardChanges(config, meta, RoundRobinValues(reservations), ip, nr);
      v in f[0].values <==> exists inst :: IsMember(reservations, inst) && InstanceAddress(inst) == Some(v)
  {
    RoundRobinCoversMembers(reservations, v);
  }

  // ---------------------------------------------------------------------
  // Reverse batch

  /** What the reverse step does: nothing when it is switched off, a
      failure when the instance has no address or no zone owns its reverse
      name, otherwise one change batch. */
  datatype ReversePlan = NoReverse | ReverseFailed(reason: string) | ReverseChange(batch: ChangeBatch)

  /** matchReverseIpsWithReverseIds and updateDNSReverse.  The first aborts
      when instance.IP is falsy, whatever the switches; the second runs only
      when both do_reverse_entry and do_individual_entries are set, and
      writes one PTR record from the reverse name to the individual name in
      the first zone that matches. */
  function ReverseBatch(config: Config, meta: DomainMeta, zones: seq<ZoneRef>, ip: Option<string>, nr: nat): (r: ReversePlan)
    ensures r.NoReverse? <==> Truthy(ip) && !(config.reverseEntry && config.individualEntries)
    ensures r.ReverseFailed? <==>
      !Truthy(ip) || (config.reverseEntry && config.individualEntries && ChooseReverseZone(zones, ip.value).None?)
    ensures r.ReverseChange? ==>
      && |r.batch.changes| == 1
      && r.batch.changes[0].action == "UPSERT" && r.batch.changes[0].recordType == "PTR"
      && r.batch.changes[0].ttl == RecordTtl
      && r.batch.changes[0].name == ReverseIP(ip.value)
      && r.batch.changes[0].values == [IndividualName(meta, nr)]
      && Some(r.batch.zoneId) == ReverseZoneId(zones, ip.value)
  {
    if !Truthy(ip) then ReverseFailed("instance has no address")
    else if !(config.reverseEntry && config.individualEntries) then NoReverse
    else match ChooseReverseZone(zones, ip.value)
      case None => ReverseFailed("no hosted zone owns " + ReverseIP(ip.value))
      case Some(z) =>
        ReverseChange(ChangeBatch(Show(z.id),
          [Change("UPSERT", ReverseIP(ip.value), "PTR", RecordTtl, [IndividualName(meta, nr)])]))
  }

  /** The forward and reverse records of an instance agree: the PTR record
      points at the name of the instance's own A record, that record points
      at the address, and the PTR owner name spells the address's labels
      backwards. */
  lemma ForwardReverseAgree(config: Config, meta: DomainMeta, zones: seq<ZoneRef>, members: seq<string>, ip: string, nr: nat)
    requires ReverseBatch(config, meta, zones, Some(ip), nr).ReverseChange?
    requires |Split(ip, '.')| == 4
    ensures var f := ForwardChanges(config, meta, members, ip, nr);
      var ptr := ReverseBatch(config, meta, zones, Some(ip), nr).batch.changes[0];
      var labels := Split(ptr.name, '.');
      && config.individualEntries
      && f[|f| - 1].name == ptr.values[0]
      && f[|f| - 1].values == [ip]
      && |labels| == 7
      && Join([labels[3], labels[2], labels[1], labels[0]], '.') == ip
  {
    ReverseIPRoundTrip(ip);
  }
}
