# asg_lambda: a verified model of the DNS planning of an Auto Scaling Lambda

`asg_lambda.js` is an AWS Lambda. It is subscribed to the launch and
terminate notifications of Auto Scaling groups and keeps Route 53 DNS records
for the group's members. The group's `DomainMeta` tag (`zone:record:domain`)
says where those records go. There are three kinds:

- a round-robin A record for the whole group;
- one individual A record per instance, named `record-NNNNN.domain`;
- a PTR record under `in-addr.arpa.` for each instance.

The slot number `NNNNN` of an instance comes from a small store kept in
Redis (ElastiCache). Two Lua scripts run against it atomically: allocate
takes the head of a free list, or a fresh number from a counter, and release
puts the instance's slot back on the free list.

This project models the deterministic core of that pipeline in Dafny and
proves what it promises:

- `js_values.dfy` (module `JsValues`): the JavaScript behaviour the code
  relies on. `undefined` is `None`, and concatenating it gives the text
  "undefined". It also covers truthiness, `split`/`join`, `indexOf` and the
  lexicographic order of strings.
- `digits.dfy` (module `Digits`): decimal digit strings, `n + ""`, and the
  fact that the lexical order of equal-length digit strings is their
  numeric order.
- `addresses.dfy` (module `Addresses`): `normalizeNumber`, `normalizeIP`
  with the sort key built from it, `reverseIP` and `isEmpty`.
- `address_sort.dfy` (module `AddressSort`): the sort of the round-robin
  values.
- `host_numbers.dfy` (module `HostNumbers`): `findFirstAvailable` as a
  method with loops, and `findRecordByIp`.
- `slots.dfy` (module `Slots`): the two Lua scripts. They are stated as
  functions on the store's state, and class `SlotStore` holds the three
  Redis keys as fields. Its methods are the scripts, proved to take
  exactly those steps.
- `naming.dfy` (module `Naming`): the tag, the zone ids, the host names and
  the choice of the reverse zone.
- `planner.dfy` (module `Planner`):
  - the address each instance contributes;
  - the forward change batch, a pure function plus the imperative method
    that pushes the changes in turn;
  - the reverse change batch.

The flags `do_round_robin`, `do_individual_entries` and `do_reverse_entry`
are an explicit `Config` value. The AWS and Redis responses are inputs.

Where the code and its description disagree, the model follows the code:

- The allocate script does not look for an existing entry for the
  instance. A second launch notification for the same instance takes a new
  slot, and the old slot is lost (`Slots.AllocateAgainLosesSlot`).
- The release script returns the length of the free list after `RPUSH`,
  not the slot it released.
- `normalizeNumber` pads to five characters, so every octet of the sort key
  is five characters wide, not three.
- The reverse zone is the first zone, in the order `listHostedZones`
  returns them, whose name occurs at an index greater than 0 of the reverse
  name. It is not the longest such zone.
- The release script runs only on a terminate notification, and only when
  round-robin is on and the group has no instances left
  (asg_lambda.js:184-188).
- The reverse batch is written only when both the reverse and the
  individual switches are set.

## Model

| member | source | states |
|---|---|---|
| JsValues.Split | asg_lambda.js:50 | `split` gives at least one field, and no field contains the separator |
| JsValues.SplitJoin | asg_lambda.js:150 | splitting the join of separator-free fields gives back exactly those fields |
| JsValues.JoinSplit | asg_lambda.js:50 | joining the result of `split` with the same separator gives back the string |
| JsValues.IndexOf | asg_lambda.js:378 | `indexOf` gives the first position at which the needle occurs, or -1 exactly when it occurs nowhere |
| JsValues.LexLessCharacterized | asg_lambda.js:287-289 | string `<` holds exactly when `a` is a proper prefix of `b` or has the smaller character at the first difference |
| JsValues.LexTransitive | asg_lambda.js:287-289 | string order is transitive, so the sort key defines an order |
| JsValues.LexTotal | asg_lambda.js:287-289 | of two different strings one sorts before the other |
| JsValues.LexConcat | asg_lambda.js:287-289 | comparing two concatenations whose first halves have equal length compares the first halves, or the second halves when the first halves are equal |
| Digits.NatToStringValue | asg_lambda.js:399 | `n + ""` is a digit string without leading zeros that denotes `n` |
| Digits.NatToStringLength | asg_lambda.js:399 | a number below 10^k is written with at most k digits |
| Digits.DigitsLexOrder | asg_lambda.js:35-47 | for digit strings of equal length, lexical order is numeric order |
| Digits.CanonicalInjective | asg_lambda.js:35-47 | two digit strings without leading zeros that denote the same number are equal |
| Addresses.NormalizeNumber | asg_lambda.js:35-47 | for 1 to 4 characters the result has 5 characters: `5 - len` zeros, then the input; any other input is returned unchanged |
| Addresses.NormalizeNumberValue | asg_lambda.js:35-47 | padding a digit string of 1 to 5 characters gives a five-digit string with the same value |
| Addresses.NormalizeNumberOrder | asg_lambda.js:35-47 | padded digit strings of 1 to 5 characters compare lexically exactly as their numbers compare |
| Addresses.NormalizeNumberEqual | asg_lambda.js:35-47 | two padded digit strings are equal exactly when their numbers are equal |
| Addresses.NormalizeAll | asg_lambda.js:49-53 | every field is padded, and the field count is kept |
| Addresses.NormalizeAllDigits | asg_lambda.js:49-53 | padding digit fields of 1 to 5 characters gives five-digit fields with the same values |
| Addresses.NormalizeIP | asg_lambda.js:49-53 | one padded field per '.'-separated field of the address; for fields of 1 to 5 digits each becomes five digits with the same value |
| Addresses.SortKey | asg_lambda.js:287-289 | the string the array comparison compares loses nothing: for fields of 1 to 5 digits, splitting it on ',' gives back the padded fields |
| Addresses.JoinedKeyOrder | asg_lambda.js:49-53 | the comma-joined padded fields of two equally long addresses compare lexically exactly as the tuples of field values compare |
| Addresses.SortKeyOrder | asg_lambda.js:49-53 | for dotted quads, sort-key order is numeric octet-by-octet order |
| Addresses.SortKeyInjective | asg_lambda.js:49-53 | addresses written without leading zeros have different sort keys |
| Addresses.ReverseIP | asg_lambda.js:55-58 | the reverse name always ends in ".in-addr.arpa.", whatever the address |
| Addresses.ReverseIPOfOctets | asg_lambda.js:55-58 | the reverse name of "a.b.c.d" is "d.c.b.a.in-addr.arpa." |
| Addresses.ReverseIPIsJoin | asg_lambda.js:55-58 | the reverse name of a four-label address is its labels reversed, followed by "in-addr", "arpa" and an empty label, joined with '.' |
| Addresses.ReverseIPRoundTrip | asg_lambda.js:55-58 | the reverse name has 7 labels; its first four, reversed, are the address's labels, and joining them gives back the address |
| Addresses.IsEmpty | asg_lambda.js:60-62 | true exactly for `undefined` and the empty string |
| AddressSort.Insert | asg_lambda.js:287-289 | the result has the elements of the list plus the inserted one |
| AddressSort.SortBy | asg_lambda.js:287-289 | the sort by any key is a permutation of its input |
| AddressSort.SortAddresses | asg_lambda.js:284-291 | the sorted values are a permutation of the input |
| AddressSort.SortBySorted | asg_lambda.js:287-289 | the result is in ascending key order |
| AddressSort.InsertSorted | asg_lambda.js:287-289 | insertion into a sorted list keeps it sorted |
| AddressSort.SortedUnique | asg_lambda.js:287-289 | two sorted lists with the same elements and distinct keys are equal |
| AddressSort.SortDeterministic | asg_lambda.js:284-291 | two address lists with the same elements, counted with multiplicity and written without leading zeros, sort to the same list |
| AddressSort.SortedIsNumeric | asg_lambda.js:284-291 | in the sorted list no address is numerically smaller, octet by octet, than one before it |
| HostNumbers.FindFirstAvailable | asg_lambda.js:64-74 | the result is the smallest number in [1, 100000) that no item holds; there is no result exactly when all of them are held |
| HostNumbers.RecordsWithIp | asg_lambda.js:77-79 | every kept item has the address and every item with the address is kept; empty exactly when no item has it; its head is the first item with the address |
| HostNumbers.RecordsWithIpConcat | asg_lambda.js:77-79 | the filter keeps table order and each match once: the matches of a concatenation are the matches of the first part followed by those of the second |
| HostNumbers.RecordsWithIpSingle | asg_lambda.js:77-79 | a single item is kept exactly when it has the address |
| HostNumbers.FindRecordByIp | asg_lambda.js:76-81 | the host number of the first item, in table order, with the address; 0 when no item has it |
| Slots.AllocateStep | asg_lambda.js:271 | a non-empty free list gives its head, loses only that element and keeps the counter; an empty one gives counter + 1 and moves the counter there; the map changes only at the instance |
| Slots.ReleaseStep | asg_lambda.js:188 | the script fails exactly for an instance without a slot; otherwise exactly its entry goes, the slot is appended to the tail of the free list, the counter stays and the result is the new list length |
| Slots.AllocatePreservesConsistent | asg_lambda.js:271 | allocation keeps the store consistent (slots within 1 to counter, none held twice or both held and free) and hands out a slot no other instance holds |
| Slots.ReleasePreservesConsistent | asg_lambda.js:188 | release keeps the store consistent |
| Slots.AllocatePreservesConserved | asg_lambda.js:271 | for an instance without a slot, allocation loses no slot: every number up to the counter stays held or free |
| Slots.ReleasePreservesConserved | asg_lambda.js:188 | release loses no slot |
| Slots.AllocateAgainLosesSlot | asg_lambda.js:271 | allocating again for an instance that holds a slot hands out a different slot, and the old one is neither held nor free |
| Slots.AllocateDistinct | asg_lambda.js:271 | two allocations in a row for different instances give different slots |
| Slots.ReleaseThenAllocate | asg_lambda.js:188 | after a release, the next allocation gets the released slot if the free list was empty, else the old head of the list; the counter does not move |
| Slots.CounterMonotone | asg_lambda.js:271 | allocation never lowers the counter and release leaves it |
| Slots.FirstSlotIsReused | asg_lambda.js:188 | in an empty group: launch gets 1, terminate queues 1, the next launch gets 1 again |
| Slots.SlotStore.constructor | asg_lambda.js:271 | a group whose keys do not exist yet is the empty store |
| Slots.SlotStore.Allocate | asg_lambda.js:271 | the fields after the script and the slot returned are exactly the allocate step of the old fields; consistency is kept |
| Slots.SlotStore.Release | asg_lambda.js:188 | the fields after the script are exactly the release step, and the result is the free list's new length; for an instance without a slot nothing changes and the result is an error |
| Naming.ParseDomainMeta | asg_lambda.js:148-155 | without a DomainMeta tag the result is the error naming the group; otherwise the zone id holds no ':' and a domain is only present with a record name |
| Naming.ParseDomainMetaFields | asg_lambda.js:150-155 | the tag "zone:record:domain" parses into exactly those three fields |
| Naming.ParseDomainMetaNoDomain | asg_lambda.js:150-155 | the tag "zone:record" leaves the domain `undefined` |
| Naming.ZoneIdOf | asg_lambda.js:317 | an id exists exactly when the path has at least three '/'-separated fields, and it holds no '/' |
| Naming.ZoneIdOfHostedZone | asg_lambda.js:317 | the id taken from "/hostedzone/ID" is ID |
| Naming.ZoneRefs | asg_lambda.js:315-320 | one entry per hosted zone, in order, with the id taken from its path and its name kept |
| Naming.PaddedSlotDigits | asg_lambda.js:399 | `normalizeNumber(NR + "")` is digits that read back as the slot: exactly five below 100000, at least five above |
| Naming.HostSuffix | asg_lambda.js:399 | the suffix is '-' then digits that read back as the slot, six characters in all below slot 100000 |
| Naming.RoundRobinName | asg_lambda.js:445-450 | the round-robin name starts with the RecordName and is exactly the RecordName when the tag has no domain |
| Naming.IndividualName | asg_lambda.js:469-474 | the individual name is the round-robin name with the slot suffix inserted after the RecordName |
| Naming.IndividualNameInjective | asg_lambda.js:399-404 | different slots of a group get different individual names |
| Naming.IndividualNameExample | asg_lambda.js:469-474 | slot 1 of a record in a domain is "record-00001.domain", and the round-robin name is "record.domain" |
| Naming.MatchesIsInteriorOccurrence | asg_lambda.js:377-379 | for a name not starting with '.', a zone matches exactly when "." + its name occurs after the first character |
| Naming.SuffixZoneMatches | asg_lambda.js:377-379 | a zone whose name follows a dot at the end of the reverse name matches it |
| Naming.MatchingZones | asg_lambda.js:375-389 | the result holds only matching zones and every matching zone; its head is the first matching zone in list order |
| Naming.ChooseReverseZone | asg_lambda.js:374-390 | the chosen zone is the first in list order that matches the reverse name; there is none exactly when no zone matches |
| Naming.ReverseZoneId | asg_lambda.js:398 | a zone id exists exactly when a reverse zone was chosen, and it is that zone's id field as text ("undefined" when its path has no third field) |
| Planner.PickAddress | asg_lambda.js:241 | the public address is taken exactly when isEmpty does not hold for it, otherwise the private one |
| Planner.PickAddressDefined | asg_lambda.js:241 | the pick is defined exactly when the public address is usable or a private one exists |
| Planner.InstanceAddress | asg_lambda.js:250-254 | an instance contributes its public address unless isEmpty holds for it, and its private one (possibly `undefined`) otherwise |
| Planner.MemberAddresses | asg_lambda.js:250-258 | a value is listed exactly when some instance of the reservation has it as its address; instances without one are left out |
| Planner.MemberAddressesConcat | asg_lambda.js:250-258 | the address list keeps instance order: the list for a concatenation of instances is the list for the first part followed by the list for the second |
| Planner.MemberAddressesSingle | asg_lambda.js:250-257 | a single instance contributes its address if it has one, and nothing otherwise |
| Planner.MemberAddressesPermutation | asg_lambda.js:250-258 | reordering the instances reorders their addresses: equal multisets of instances give equal multisets of addresses |
| Planner.AllInstances | asg_lambda.js:238-239 | an instance is listed exactly when some reservation holds it; the list is the first reservation's instances followed by those of the rest |
| Planner.ExtractAddresses | asg_lambda.js:238-265 | as written: no list without reservations, otherwise exactly the addresses of the first reservation |
| Planner.ExtractAddressesMissesLaterReservations | asg_lambda.js:265 | with two single-instance reservations, the list as written lacks the second member's address, which the full extraction has |
| Planner.ExtractAllAddresses | asg_lambda.js:238-259 | a value is listed exactly when some member of any reservation has it as its address |
| Planner.ExtractionsAgreeOnOneReservation | asg_lambda.js:265 | with a single reservation, the list as written and the full list are the same |
| Planner.RoundRobinValues | asg_lambda.js:284-291 | the values are a permutation of all member addresses, in ascending key order |
| Planner.RoundRobinCoversMembers | asg_lambda.js:238-291 | the round-robin values are exactly the addresses of the group's members |
| Planner.RoundRobinDeterministic | asg_lambda.js:238-291 | the round-robin values depend only on the members, counted with multiplicity, not on the order in which EC2 reported them, when the addresses are written without leading zeros |
| Planner.InstanceIp | asg_lambda.js:240-241 | the address of the last instance listed with the id, `undefined` when the id is not listed |
| Planner.ForwardChanges | asg_lambda.js:444-486 | one change per switch that is set, all UPSERT A with TTL 10; the round-robin record with all members comes first, the instance's own record with its address comes last |
| Planner.BuildForwardBatch | asg_lambda.js:444-486 | the pushed batch, addressed to the tag's hosted zone, is exactly the forward change list |
| Planner.ForwardRoundRobinListsMembers | asg_lambda.js:457-466 | with round-robin on, the first forward change lists exactly the addresses of the members of the group, in every reservation |
| Planner.ForwardNamesDiffer | asg_lambda.js:445-474 | the round-robin and the individual record never share a name |
| Planner.ReverseBatch | asg_lambda.js:371-424 | it fails exactly when the instance has no address, or the step is on and no zone matches; it is off exactly when a switch is unset; otherwise it is one UPSERT PTR, TTL 10, from the reverse name to the individual name, in the chosen zone |
| Planner.ForwardReverseAgree | asg_lambda.js:392-486 | the PTR record points at the name of the instance's own A record, that record points at the address, and the PTR owner's labels spell the address backwards |

## Left out

- The AWS SDK calls are not modelled: `describeTags`, `describeAutoScalingGroups`, `describeInstances`, `listHostedZones`, `listResourceRecordSets`, `changeResourceRecordSets` and `createTags`. They are network calls, and their responses are inputs here.
- The Redis connection, its `retry_strategy` and connection events (asg_lambda.js:98-120) are timing and connection handling.
- The atomicity of the Lua scripts across concurrent Lambdas is not modelled; each script is one sequential step.
- The `async.waterfall` sequencing and its callback slips are not modelled. These include the double `next` at asg_lambda.js:209-211, the `next(1, ...)` without `return` at asg_lambda.js:373, `allocateHostNumber` calling `next` only on launch with individual entries set, and `updateDNSReverse` calling `next` only when the reverse step runs.
- `processZoneRecords` and `retrieveZoneRecords` (asg_lambda.js:323-370) compute a value the pipeline discards.
- The `Name` tag of an instance and `updateNameTag` are left out: they only write a tag back to EC2.
- Logging, `context.done` and the debug switch are left out.
- AddressSort.SortAddresses: models an ascending sort by the padded key, not `Array.prototype.sort` driven by a comparator that returns a boolean (asg_lambda.js:287-289). Its result depends on the engine.
- HostNumbers.FindFirstAvailable: host numbers arrive already parsed. `parseInt` of a malformed string (NaN) is not modelled.
- HostNumbers.FindRecordByIp: returns the parsed host number, as above.
- Slots.ReleaseStep: models the Redis error for an instance without a slot as a failure result. The exact error text is not part of the model.
- Planner.ForwardChanges: takes the instance's address as a string. The reverse step aborts on an instance without an address before the forward step is reached.
- Planner.ReverseBatch: gives a failure with a reason when no zone matches. The source throws a TypeError on `Object.keys(undefined)` there.

## Findings

| source | as written | input that shows it | evidently intended | confidence | as-written member | corrected member |
|---|---|---|---|---|---|---|
| asg_lambda.js:265 | `extractIpAddresses` maps every reservation to its address list but passes on only `resource_records[0]`, the first reservation's list | a group whose members were launched at different times, so describeInstances returns them in two reservations: the round-robin record lists only the first one | the round-robin record carries the addresses of all members of the group | medium, not executed | Planner.ExtractAddressesMissesLaterReservations | Planner.RoundRobinValues |
