/**
 * The host-number helpers over a table of allocated numbers
 * (asg_lambda.js:64-81).  Each table item carries the host number, already
 * parsed from its decimal string, and the address it was given to.
 */
module HostNumbers {
  import opened JsValues

  /** The largest host number the search considers is one below this; it is
      also the first slot whose name suffix is longer than five digits. */
  const HostNumberLimit: nat := 100000

  datatype HostItem = HostItem(hostNumber: int, ipAddress: string)

  /** Some item of the table holds host number `n`. */
  ghost predicate Allocated(items: seq<HostItem>, n: int)
  {
    exists k :: 0 <= k < |items| && items[k].hostNumber == n
  }

  /** findFirstAvailable: the smallest number in [1, 100000) no item holds,
      or `undefined` when every one of them is taken. */
  method FindFirstAvailable(items: seq<HostItem>) returns (r: Option<nat>)
    ensures r.Some? ==> 1 <= r.value < HostNumberLimit && !Allocated(items, r.value)
    ensures r.Some? ==> forall j :: 1 <= j < r.value ==> Allocated(items, j)
    ensures r.None? ==> forall j :: 1 <= j < HostNumberLimit ==> Allocated(items, j)
  {
    var numbers := seq(|items|, k requires 0 <= k < |items| => items[k].hostNumber);
    var taken: set<int> := {};
    for k := 0 to |numbers|
      invariant forall n :: n in taken <==> exists j :: 0 <= j < k && numbers[j] == n
    {
      taken := taken + {numbers[k]};
    }
    forall n ensures n in taken <==> Allocated(items, n) {
      if n in taken {
        var j :| 0 <= j < |numbers| && numbers[j] == n;
        assert items[j].hostNumber == n;
      }
      if Allocated(items, n) {
        var j :| 0 <= j < |items| && items[j].hostNumber == n;
        assert numbers[j] == n;
      }
    }
    var i := 1;
    while i < HostNumberLimit
      invariant 1 <= i <= HostNumberLimit
      invariant forall j :: 1 <= j < i ==> Allocated(items, j)
    {
      if i !in taken {
        return Some(i);
      }
      i := i + 1;
    }
    return None;
  }

  /** Item `k` is the first item of `data` with address `ip`. */
  predicate FirstWithIp(data: seq<HostItem>, ip: string, k: int)
  {
    0 <= k < |data| && data[k].ipAddress == ip && forall j :: 0 <= j < k ==> data[j].ipAddress != ip
  }

  /** `data.filter(d => d.IPAddress.S == ip)`, item by item. */
  function KeepWithIp(data: seq<HostItem>, ip: string): seq<HostItem>
  {
    if data == [] then []
    else (if data[0].ipAddress == ip then [data[0]] else []) + KeepWithIp(data[1..], ip)
  }

  lemma {:induction false} KeepWithIpSound(data: seq<HostItem>, ip: string)
    ensures var r := KeepWithIp(data, ip);
      && (forall k :: 0 <= k < |r| ==> r[k].ipAddress == ip)
      && (forall k :: 0 <= k < |data| && data[k].ipAddress == ip ==> data[k] in r)
      && (r == [] <==> forall k :: 0 <= k < |data| ==> data[k].ipAddress != ip)
      && (forall k :: FirstWithIp(data, ip, k) ==> r != [] && r[0] == data[k])
  {
    if data != [] {
      KeepWithIpSound(data[1..], ip);
      assert forall k :: 1 <= k < |data| ==> data[k] == data[1..][k - 1];
      forall k | FirstWithIp(data, ip, k) && k > 0 ensures FirstWithIp(data[1..], ip, k - 1) {
        assert data[0].ipAddress != ip;
      }
    }
  }

  /** The items of `data` whose address is `ip`, in table order. */
  function RecordsWithIp(data: seq<HostItem>, ip: string): (r: seq<HostItem>)
    ensures forall k :: 0 <= k < |r| ==> r[k].ipAddress == ip
    ensures forall k :: 0 <= k < |data| && data[k].ipAddress == ip ==> data[k] in r
    ensures r == [] <==> forall k :: 0 <= k < |data| ==> data[k].ipAddress != ip
    ensures forall k :: FirstWithIp(data, ip, k) ==> r != [] && r[0] == data[k]
  {
    KeepWithIpSound(data, ip);
    KeepWithIp(data, ip)
  }

  /** The filter keeps the matches in table order and once each: the matches
      of a concatenation are the matches of its parts, one after the other. */
  lemma {:induction false} RecordsWithIpConcat(a: seq<HostItem>, b: seq<HostItem>, ip: string)
    ensures RecordsWithIp(a + b, ip) == RecordsWithIp(a, ip) + RecordsWithIp(b, ip)
  {
    KeepWithIpConcat(a, b, ip);
  }

  lemma {:induction false} KeepWithIpConcat(a: seq<HostItem>, b: seq<HostItem>, ip: string)
    ensures KeepWithIp(a + b, ip) == KeepWithIp(a, ip) + KeepWithIp(b, ip)
  {
    if a == [] {
      assert a + b == b;
    } else {
      assert (a + b)[0] == a[0] && (a + b)[1..] == a[1..] + b;
      KeepWithIpConcat(a[1..], b, ip);
    }
  }

  /** A single item is kept exactly when it has the address. */
  lemma RecordsWithIpSingle(d: HostItem, ip: string)
    ensures RecordsWithIp([d], ip) == if d.ipAddress == ip then [d] else []
  {
    assert [d][1..] == [];
    assert KeepWithIp([d], ip) == (if d.ipAddress == ip then [d] else []) + KeepWithIp([], ip);
  }

  /** findRecordByIp: the host number of the first item with address `ip`,
      or 0 when no item has it. */
  function FindRecordByIp(data: seq<HostItem>, ip: string): (r: int)
    ensures (forall k :: 0 <= k < |data| ==> data[k].ipAddress != ip) ==> r == 0
    ensures forall k :: FirstWithIp(data, ip, k) ==> r == data[k].hostNumber
  {
    var l := RecordsWithIp(data, ip);
    if |l| == 0 then 0 else l[0].hostNumber
  }
}
