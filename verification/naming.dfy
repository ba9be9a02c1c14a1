/**
 * Names the Lambda derives: the DomainMeta tag of the Auto Scaling group
 * (asg_lambda.js:141-157), the zone id inside a Route 53 zone path
 * (asg_lambda.js:310-322), the round-robin and per-instance host names
 * (asg_lambda.js:399-404, 445-474) and the choice of the hosted zone that
 * owns an address's reverse name (asg_lambda.js:371-391).
 */
module Naming {
  import opened JsValues
  import opened Digits
  import opened Addresses
  import opened HostNumbers

  /** The three colon-separated fields of the DomainMeta tag; a field the tag
      does not have is `undefined`. */
  datatype DomainMeta = DomainMeta(hostedZoneId: string, recordName: Option<string>, domainName: Option<string>)

  /** processTags: the first DomainMeta tag value split on ':'.  Without a
      tag the pipeline stops with this message. */
  function ParseDomainMeta(asgName: string, tagValues: seq<string>): (r: Result<DomainMeta>)
    ensures r.Err? <==> tagValues == []
    ensures r.Err? ==> r.message == "ASG: " + asgName + " does not define Route53 DomainMeta tag."
    ensures r.Ok? ==> ':' !in r.value.hostedZoneId
    ensures r.Ok? && r.value.domainName.Some? ==> r.value.recordName.Some?
  {
    if |tagValues| == 0 then
      Err("ASG: " + asgName + " does not define Route53 DomainMeta tag.")
    else
      var tokens := Split(tagValues[0], ':');
      Ok(DomainMeta(tokens[0], Part(tokens, 1), Part(tokens, 2)))
  }

  /** A tag "zone:record:domain" parses back into its three fields. */
  lemma ParseDomainMetaFields(asgName: string, zone: string, record: string, domain: string, more: seq<string>)
    requires ':' !in zone && ':' !in record && ':' !in domain
    ensures ParseDomainMeta(asgName, [zone + ":" + record + ":" + domain] + more)
            == Ok(DomainMeta(zone, Some(record), Some(domain)))
  {
    JoinCons(record, [domain], ':');
    JoinCons(zone, [record, domain], ':');
    assert [zone] + [record, domain] == [zone, record, domain];
    assert Join([zone, record, domain], ':') == zone + ":" + record + ":" + domain;
    SplitJoin([zone, record, domain], ':');
  }

  /** A tag "zone:record" leaves the domain `undefined`. */
  lemma ParseDomainMetaNoDomain(asgName: string, zone: string, record: string, more: seq<string>)
    requires ':' !in zone && ':' !in record
    ensures ParseDomainMeta(asgName, [zone + ":" + record] + more)
            == Ok(DomainMeta(zone, Some(record), None))
  {
    JoinCons(zone, [record], ':');
    assert [zone] + [record] == [zone, record];
    SplitJoin([zone, record], ':');
  }

  /** `zone.Id.split("/")[2]`: the third '/'-separated field, `undefined`
      when the path has fewer than two slashes. */
  function ZoneIdOf(path: string): (r: Option<string>)
    ensures r.Some? <==> |Split(path, '/')| >= 3
    ensures r.Some? ==> '/' !in r.value
  {
    Part(Split(path, '/'), 2)
  }

  /** The id of the zone "/hostedzone/ID" is ID. */
  lemma ZoneIdOfHostedZone(id: string)
    requires '/' !in id
    ensures ZoneIdOf("/hostedzone/" + id) == Some(id)
  {
    JoinCons("hostedzone", [id], '/');
    JoinCons("", ["hostedzone", id], '/');
    assert [""] + ["hostedzone", id] == ["", "hostedzone", id];
    assert Join(["", "hostedzone", id], '/') == "/hostedzone/" + id;
    SplitJoin(["", "hostedzone", id], '/');
  }

  /** A hosted zone as listHostedZones reports it. */
  datatype HostedZone = HostedZone(id: string, name: string)

  /** A hosted zone with its id taken out of the path. */
  datatype ZoneRef = ZoneRef(id: Option<string>, name: string)

  /** retrieveZoneIds. */
  function ZoneRefs(zones: seq<HostedZone>): (r: seq<ZoneRef>)
    ensures |r| == |zones|
    ensures forall k :: 0 <= k < |zones| ==> r[k] == ZoneRef(ZoneIdOf(zones[k].id), zones[k].name)
  {
    seq(|zones|, k requires 0 <= k < |zones| => ZoneRef(ZoneIdOf(zones[k].id), zones[k].name))
  }

  // ---------------------------------------------------------------------
  // Host names

  /** `normalizeNumber(NR + "")` reads back as the slot: five digits for
      slots below 100000 and the plain decimal rendering above. */
  lemma PaddedSlotDigits(nr: nat)
    ensures var digits := NormalizeNumber(NatToString(nr));
      && IsDigits(digits) && Value(digits) == nr && |digits| >= 5
      && (nr < HostNumberLimit ==> |digits| == 5)
  {
    NatToStringValue(nr);
    if |NatToString(nr)| <= 5 {
      NormalizeNumberValue(NatToString(nr));
    }
    if nr < HostNumberLimit {
      assert Pow10(5) == 100000;
      NatToStringLength(nr, 5);
    }
  }

  /** `"-" + normalizeNumber(NR + "")`: a dash and digits that read back as
      the slot, exactly five of them below 100000 and at least five above. */
  function HostSuffix(nr: nat): (r: string)
    ensures |r| >= 6 && r[0] == '-' && IsDigits(r[1..]) && Value(r[1..]) == nr
    ensures nr < HostNumberLimit ==> |r| == 6
  {
    PaddedSlotDigits(nr);
    assert ("-" + NormalizeNumber(NatToString(nr)))[1..] == NormalizeNumber(NatToString(nr));
    "-" + NormalizeNumber(NatToString(nr))
  }

  /** The round-robin name: RecordName, then ".DomainName" when the tag has
      one; it is the bare RecordName exactly when the tag has no domain. */
  function RoundRobinName(meta: DomainMeta): (r: string)
    ensures |r| >= |Show(meta.recordName)| && r[..|Show(meta.recordName)|] == Show(meta.recordName)
    ensures r == Show(meta.recordName) <==> meta.domainName.None?
  {
    match meta.domainName
    case Some(d) => Show(meta.recordName) + "." + d
    case None => Show(meta.recordName)
  }

  /** The individual name: RecordName-NNNNN, then ".DomainName" when the tag
      has one, i.e. the round-robin name with the slot suffix after the
      RecordName. */
  function IndividualName(meta: DomainMeta, nr: nat): (r: string)
    ensures var p := Show(meta.recordName);
      r == p + HostSuffix(nr) + RoundRobinName(meta)[|p|..]
  {
    match meta.domainName
    case Some(d) => Show(meta.recordName) + HostSuffix(nr) + "." + d
    case None => Show(meta.recordName) + HostSuffix(nr)
  }

  /** Different slots of one group get different individual names. */
  lemma IndividualNameInjective(meta: DomainMeta, n1: nat, n2: nat)
    requires IndividualName(meta, n1) == IndividualName(meta, n2)
    ensures n1 == n2
  {
    var p := Show(meta.recordName);
    var s1, s2 := HostSuffix(n1), HostSuffix(n2);
    var t := RoundRobinName(meta)[|p|..];
    assert |s1| == |s2|;
    assert s1 == (p + s1 + t)[|p|..|p| + |s1|];
    assert s2 == (p + s2 + t)[|p|..|p| + |s2|];
    assert s1[1..] == s2[1..];
  }

  /** Slot 1 of group "web" in domain "corp.internal" is
      "web-00001.corp.internal", next to the round-robin "web.corp.internal". */
  lemma IndividualNameExample(zone: string, record: string, domain: string)
    ensures IndividualName(DomainMeta(zone, Some(record), Some(domain)), 1) == record + "-00001." + domain
    ensures RoundRobinName(DomainMeta(zone, Some(record), Some(domain))) == record + "." + domain
  {
    var meta := DomainMeta(zone, Some(record), Some(domain));
    SlotOneSuffix();
    assert RoundRobinName(meta)[|record|..] == "." + domain;
  }

  /** Slot 1 renders as "-00001". */
  lemma SlotOneSuffix()
    ensures HostSuffix(1) == "-00001"
  {
    assert NatToString(1) == "1";
    assert NormalizeNumber("1") == "00001";
  }

  // ---------------------------------------------------------------------
  // Reverse zone

  /** `name.indexOf("." + zone.Name) > 0`. */
  predicate Matches(zone: ZoneRef, name: string)
  {
    IndexOf(name, "." + zone.name) > 0
  }

  /** For a name that does not start with '.', a zone matches exactly when
      "." + its name occurs somewhere after the first character. */
  lemma MatchesIsInteriorOccurrence(zone: ZoneRef, name: string)
    requires name != [] && name[0] != '.'
    ensures Matches(zone, name) <==> exists k :: 0 < k <= |name| && OccursAt(name, "." + zone.name, k)
  {
    var needle := "." + zone.name;
    var r := IndexOf(name, needle);
    assert !OccursAt(name, needle, 0) by {
      if |needle| <= |name| {
        assert name[0..|needle|][0] == name[0];
      }
    }
    if exists k :: 0 < k <= |name| && OccursAt(name, needle, k) {
      var k :| 0 < k <= |name| && OccursAt(name, needle, k);
      assert r != -1;
    }
  }

  /** A zone whose name is a dot-separated suffix of the name matches it. */
  lemma SuffixZoneMatches(zone: ZoneRef, prefix: string)
    requires prefix != [] && prefix[0] != '.'
    ensures Matches(zone, prefix + "." + zone.name)
  {
    var name := prefix + "." + zone.name;
    var needle := "." + zone.name;
    assert name[0] == prefix[0];
    assert name[|prefix|..|prefix| + |needle|] == needle;
    assert OccursAt(name, needle, |prefix|);
    MatchesIsInteriorOccurrence(zone, name);
  }

  /** The zones that match `name`, in list order. */
  function MatchingZones(zones: seq<ZoneRef>, name: string): (r: seq<ZoneRef>)
    ensures forall k :: 0 <= k < |r| ==> Matches(r[k], name) && r[k] in zones
    ensures forall k :: 0 <= k < |zones| && Matches(zones[k], name) ==> zones[k] in r
    ensures r != [] ==> exists k :: 0 <= k < |zones| && zones[k] == r[0]
                          && forall j :: 0 <= j < k ==> !Matches(zones[j], name)
  {
    if zones == [] then []
    else
      var rest := MatchingZones(zones[1..], name);
      assert forall k :: 1 <= k < |zones| ==> zones[k] == zones[1..][k - 1];
      if Matches(zones[0], name) then [zones[0]] + rest else rest
  }

  /** matchReverseIpsWithReverseIds: the first zone, in list order, that
      matches the reverse name of `ip`; none when no zone matches. */
  function ChooseReverseZone(zones: seq<ZoneRef>, ip: string): (r: Option<ZoneRef>)
    ensures r.None? <==> forall k :: 0 <= k < |zones| ==> !Matches(zones[k], ReverseIP(ip))
    ensures r.Some? ==> exists k :: 0 <= k < |zones| && zones[k] == r.value
                          && Matches(zones[k], ReverseIP(ip))
                          && forall j :: 0 <= j < k ==> !Matches(zones[j], ReverseIP(ip))
  {
    var m := MatchingZones(zones, ReverseIP(ip));
    if |m| == 0 then None else Some(m[0])
  }

  /** `Object.keys(reverse_map)[0]`: the chosen zone's id as an object key. */
  function ReverseZoneId(zones: seq<ZoneRef>, ip: string): (r: Option<string>)
    ensures r.Some? <==> ChooseReverseZone(zones, ip).Some?
    ensures ChooseReverseZone(zones, ip).Some? ==> r == Some(Show(ChooseReverseZone(zones, ip).value.id))
  {
    match ChooseReverseZone(zones, ip)
    case Some(z) => Some(Show(z.id))
    case None => None
  }
}
