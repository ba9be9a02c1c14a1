/**
 * The ordering of the round-robin values (asg_lambda.js:284-291): the
 * addresses are sorted ascending by their padded, comma-joined key.  The
 * sort is modelled as an insertion sort; what it promises is that the
 * result is ordered, is a permutation of the input and, for addresses
 * written without leading zeros, depends only on the set of members and
 * not on the order in which EC2 listed them.
 */
module AddressSort {
  import opened JsValues
  import opened Addresses

  // The sort is stated for any key function, so that the proofs about the
  // order do not unfold how SortKey is computed.

  /** `a` sorts strictly before `b` under `key`. */
  predicate Before(key: string -> string, a: string, b: string)
  {
    LexLess(key(a), key(b))
  }

  /** No element sorts strictly before an earlier one. */
  ghost predicate SortedBy(key: string -> string, s: seq<string>)
  {
    forall i, j :: 0 <= i < j < |s| ==> !Before(key, s[j], s[i])
  }

  /** Place `x` before the first element that does not sort strictly before it. */
  function Insert(key: string -> string, x: string, s: seq<string>): (r: seq<string>)
    ensures multiset(r) == multiset(s) + multiset{x}
  {
    if s == [] then [x]
    else if Before(key, s[0], x) then
      assert s == [s[0]] + s[1..];
      [s[0]] + Insert(key, x, s[1..])
    else [x] + s
  }

  /** Insertion sort by `key`. */
  function SortBy(key: string -> string, s: seq<string>): (r: seq<string>)
    ensures multiset(r) == multiset(s)
  {
    if s == [] then []
    else
      assert s == [s[0]] + s[1..];
      Insert(key, s[0], SortBy(key, s[1..]))
  }

  /** sortIPs: the addresses in ascending order of their padded key. */
  function SortAddresses(s: seq<string>): (r: seq<string>)
    ensures multiset(r) == multiset(s)
  {
    SortBy(SortKey, s)
  }

  /** "Not strictly before" is transitive on strings. */
  lemma NotLessTransitive(a: string, b: string, c: string)
    requires !LexLess(a, b) && !LexLess(b, c)
    ensures !LexLess(a, c)
  {
    if LexLess(a, c) {
      if a == b {
        assert false;
      } else {
        LexTotal(a, b);
        LexTransitive(b, a, c);
        assert false;
      }
    }
  }

  /** An element placed in front of a sorted sequence whose head it does
      not follow keeps the sequence sorted. */
  lemma ConsSorted(key: string -> string, x: string, s: seq<string>)
    requires SortedBy(key, s)
    requires s != [] ==> !Before(key, s[0], x)
    ensures SortedBy(key, [x] + s)
  {
    var r := [x] + s;
    forall i, j | 0 <= i < j < |r| ensures !Before(key, r[j], r[i]) {
      if i == 0 {
        assert r[j] == s[j - 1];
        if j > 1 {
          assert !Before(key, s[j - 1], s[0]);
          NotLessTransitive(key(s[j - 1]), key(s[0]), key(x));
        }
      } else {
        assert r[i] == s[i - 1] && r[j] == s[j - 1];
      }
    }
  }

  lemma {:induction false} InsertSorted(key: string -> string, x: string, s: seq<string>)
    requires SortedBy(key, s)
    ensures SortedBy(key, Insert(key, x, s))
  {
    if s == [] {
    } else if Before(key, s[0], x) {
      var s' := s[1..];
      assert SortedBy(key, s');
      InsertSorted(key, x, s');
      var r := Insert(key, x, s');
      assert Insert(key, x, s) == [s[0]] + r;
      if r != [] {
        assert r[0] in multiset(r);
        if r[0] == x {
          LexAsymmetric(key(s[0]), key(x));
        } else {
          assert r[0] in multiset(s');
          var k :| 0 <= k < |s'| && s'[k] == r[0];
          assert s[k + 1] == r[0];
        }
      }
      ConsSorted(key, s[0], r);
    } else {
      ConsSorted(key, x, s);
    }
  }

  /** The sort's result is in ascending key order. */
  lemma {:induction false} SortBySorted(key: string -> string, s: seq<string>)
    ensures SortedBy(key, SortBy(key, s))
  {
    if s != [] {
      SortBySorted(key, s[1..]);
      InsertSorted(key, s[0], SortBy(key, s[1..]));
    }
  }

  /** No two different elements share a key. */
  ghost predicate KeysDistinct(key: string -> string, m: multiset<string>)
  {
    forall a, b :: a in m && b in m && key(a) == key(b) ==> a == b
  }

  /** The head of a sorted sequence is not preceded by any of its elements. */
  lemma HeadFirst(key: string -> string, s: seq<string>, x: string)
    requires SortedBy(key, s) && x in s
    ensures !Before(key, x, s[0])
  {
    var i :| 0 <= i < |s| && s[i] == x;
    if i == 0 {
      LexIrreflexive(key(x));
    }
  }

  /** Two sorted sequences with the same elements and distinct keys start alike. */
  lemma HeadsEqual(key: string -> string, s: seq<string>, t: seq<string>)
    requires SortedBy(key, s) && SortedBy(key, t) && s != [] && t != []
    requires multiset(s) == multiset(t)
    requires KeysDistinct(key, multiset(s))
    ensures s[0] == t[0]
  {
    assert s[0] in multiset(t) && t[0] in multiset(s);
    HeadFirst(key, s, t[0]);
    HeadFirst(key, t, s[0]);
    if key(s[0]) != key(t[0]) {
      LexTotal(key(s[0]), key(t[0]));
    }
  }

  /** Two sorted sequences with the same elements and distinct keys are equal. */
  lemma {:induction false} SortedUnique(key: string -> string, s: seq<string>, t: seq<string>)
    requires SortedBy(key, s) && SortedBy(key, t)
    requires multiset(s) == multiset(t)
    requires KeysDistinct(key, multiset(s))
    ensures s == t
  {
    assert |t| == |multiset(t)| == |multiset(s)| == |s|;
    if s != [] {
      HeadsEqual(key, s, t);
      assert s == [s[0]] + s[1..] && t == [t[0]] + t[1..];
      calc {
        multiset(s[1..]);
        multiset(s) - multiset{s[0]};
        multiset(t) - multiset{t[0]};
        multiset(t[1..]);
      }
      assert multiset(s[1..]) <= multiset(s);
      SortedTail(key, s);
      SortedTail(key, t);
      SortedUnique(key, s[1..], t[1..]);
    }
  }

  /** The tail of a sorted sequence is sorted. */
  lemma SortedTail(key: string -> string, s: seq<string>)
    requires SortedBy(key, s) && s != []
    ensures SortedBy(key, s[1..])
  {
    forall i, j | 0 <= i < j < |s| - 1 ensures !Before(key, s[1..][j], s[1..][i]) {
      assert s[1..][j] == s[j + 1] && s[1..][i] == s[i + 1];
    }
  }

  /** Addresses written as EC2 writes them have distinct keys. */
  lemma CanonicalKeysDistinct(m: multiset<string>)
    requires forall a :: a in m ==> IsCanonicalQuad(a)
    ensures KeysDistinct(SortKey, m)
  {
    forall a, b | a in m && b in m && SortKey(a) == SortKey(b) ensures a == b {
      SortKeyInjective(a, b);
    }
  }

  /** Two listings of the same members sort to the same value list, whatever
      order they were listed in. */
  lemma SortDeterministic(s: seq<string>, t: seq<string>)
    requires multiset(s) == multiset(t)
    requires forall k :: 0 <= k < |s| ==> IsCanonicalQuad(s[k])
    ensures SortAddresses(s) == SortAddresses(t)
  {
    SortBySorted(SortKey, s);
    SortBySorted(SortKey, t);
    forall a | a in multiset(s) ensures IsCanonicalQuad(a) {
      var k :| 0 <= k < |s| && s[k] == a;
    }
    CanonicalKeysDistinct(multiset(s));
    SortedUnique(SortKey, SortAddresses(s), SortAddresses(t));
  }

  /** For dotted quads, ascending key order is ascending numeric order. */
  lemma SortedIsNumeric(s: seq<string>, i: nat, j: nat)
    requires forall k :: 0 <= k < |s| ==> IsDottedQuad(s[k])
    requires 0 <= i < j < |SortAddresses(s)|
    ensures var r := SortAddresses(s);
      IsDottedQuad(r[i]) && IsDottedQuad(r[j]) && !TupleLess(Octets(r[j]), Octets(r[i]))
  {
    var r := SortAddresses(s);
    SortBySorted(SortKey, s);
    assert !Before(SortKey, r[j], r[i]);
    assert r[i] in multiset(s) && r[j] in multiset(s);
    var a :| 0 <= a < |s| && s[a] == r[i];
    var b :| 0 <= b < |s| && s[b] == r[j];
    SortKeyOrder(r[j], r[i]);
  }
}
