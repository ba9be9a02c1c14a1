/**
 * The string helpers of the Lambda (asg_lambda.js:35-62): zero-padding of
 * host numbers and address octets, the sort key that orders dotted-decimal
 * addresses, the reverse-lookup owner name of an address (section 3.5 of
 * RFC 1035) and the emptiness test.
 */
module Addresses {
  import opened JsValues
  import opened Digits

  /** A run of `n` zero characters. */
  function Zeros(n: nat): (z: string)
    ensures |z| == n && forall k :: 0 <= k < n ==> z[k] == '0'
  {
    seq(n, _ => '0')
  }

  /** normalizeNumber: left-pad strings of length 1 to 4 with zeros to width 5. */
  function NormalizeNumber(s: string): (r: string)
    ensures 1 <= |s| <= 4 ==> |r| == 5 && r == Zeros(5 - |s|) + s
    ensures !(1 <= |s| <= 4) ==> r == s
  {
    if |s| == 1 then "0000" + s
    else if |s| == 2 then "000" + s
    else if |s| == 3 then "00" + s
    else if |s| == 4 then "0" + s
    else s
  }

  lemma {:induction false} ValueZerosPrefix(n: nat, s: string)
    requires IsDigits(s)
    ensures IsDigits(Zeros(n) + s) && Value(Zeros(n) + s) == Value(s)
  {
    if n > 0 {
      ValueZerosPrefix(n - 1, s);
      assert Zeros(n) + s == "0" + (Zeros(n - 1) + s);
      ValueZeroPrefix(Zeros(n - 1) + s);
    } else {
      assert Zeros(n) + s == s;
    }
  }

  /** Padding a digit string of length 1 to 5 keeps its value and gives a
      five-digit string. */
  lemma NormalizeNumberValue(s: string)
    requires IsDigits(s) && 1 <= |s| <= 5
    ensures |NormalizeNumber(s)| == 5 && IsDigits(NormalizeNumber(s))
    ensures Value(NormalizeNumber(s)) == Value(s)
  {
    if |s| <= 4 {
      ValueZerosPrefix(5 - |s|, s);
    }
  }

  /** For digit strings of length 1 to 5, the padded strings compare lexically
      exactly as the numbers compare. */
  lemma NormalizeNumberOrder(a: string, b: string)
    requires IsDigits(a) && 1 <= |a| <= 5
    requires IsDigits(b) && 1 <= |b| <= 5
    ensures LexLess(NormalizeNumber(a), NormalizeNumber(b)) <==> Value(a) < Value(b)
  {
    NormalizeNumberValue(a);
    NormalizeNumberValue(b);
    DigitsLexOrder(NormalizeNumber(a), NormalizeNumber(b));
  }

  /** Padded digit strings are equal exactly when the numbers are. */
  lemma NormalizeNumberEqual(a: string, b: string)
    requires IsDigits(a) && 1 <= |a| <= 5
    requires IsDigits(b) && 1 <= |b| <= 5
    ensures NormalizeNumber(a) == NormalizeNumber(b) <==> Value(a) == Value(b)
  {
    NormalizeNumberValue(a);
    NormalizeNumberValue(b);
    if Value(a) == Value(b) {
      DigitsValueInjective(NormalizeNumber(a), NormalizeNumber(b));
    }
  }

  /** Every element of `parts` padded by normalizeNumber. */
  function NormalizeAll(parts: seq<string>): (r: seq<string>)
    ensures |r| == |parts|
    ensures forall k :: 0 <= k < |parts| ==> r[k] == NormalizeNumber(parts[k])
  {
    seq(|parts|, k requires 0 <= k < |parts| => NormalizeNumber(parts[k]))
  }

  /** Pieces that are all digit strings of length 1 to 5. */
  predicate ShortDigitParts(parts: seq<string>)
  {
    forall k :: 0 <= k < |parts| ==> IsDigits(parts[k]) && 1 <= |parts[k]| <= 5
  }

  /** Padding digit pieces of length 1 to 5 gives five-digit pieces of the
      same values. */
  lemma NormalizeAllDigits(parts: seq<string>)
    ensures ShortDigitParts(parts) ==>
      forall k :: 0 <= k < |parts| ==>
        var p := NormalizeAll(parts)[k];
        |p| == 5 && IsDigits(p) && Value(p) == Value(parts[k])
  {
    if ShortDigitParts(parts) {
      forall k | 0 <= k < |parts|
        ensures |NormalizeAll(parts)[k]| == 5 && IsDigits(NormalizeAll(parts)[k])
        ensures Value(NormalizeAll(parts)[k]) == Value(parts[k])
      {
        NormalizeNumberValue(parts[k]);
      }
    }
  }

  /** normalizeIP: the dot-separated pieces of an address, each padded.  The
      pieces of an address of one- to five-digit numbers become five-digit
      strings of the same values. */
  function NormalizeIP(ip: string): (r: seq<string>)
    ensures |r| == |Split(ip, '.')|
    ensures ShortDigitParts(Split(ip, '.')) ==>
      forall k :: 0 <= k < |r| ==> |r[k]| == 5 && IsDigits(r[k]) && Value(r[k]) == Value(Split(ip, '.')[k])
  {
    NormalizeAllDigits(Split(ip, '.'));
    NormalizeAll(Split(ip, '.'))
  }

  /** The key `Array.prototype.sort` compares: a relational comparison of two
      arrays compares their comma-joined string forms.  For an address of
      one- to five-digit numbers the key loses nothing: splitting it on ','
      gives the padded pieces back. */
  function SortKey(ip: string): (r: string)
    ensures ShortDigitParts(Split(ip, '.')) ==> Split(r, ',') == NormalizeIP(ip)
  {
    var pieces := NormalizeIP(ip);
    if ShortDigitParts(Split(ip, '.')) then
      SplitJoin(pieces, ',');
      Join(pieces, ',')
    else
      Join(pieces, ',')
  }

  /** The numeric value of each piece. */
  function Values(parts: seq<string>): (r: seq<nat>)
    requires ShortDigitParts(parts)
    ensures |r| == |parts|
    ensures forall k :: 0 <= k < |parts| ==> r[k] == Value(parts[k])
  {
    seq(|parts|, k requires 0 <= k < |parts| => Value(parts[k]))
  }

  /** Lexicographic order on number tuples of the same length. */
  predicate TupleLess(u: seq<nat>, v: seq<nat>)
    requires |u| == |v|
  {
    |u| > 0 && (u[0] < v[0] || (u[0] == v[0] && TupleLess(u[1..], v[1..])))
  }

  lemma {:induction false} TupleTotal(u: seq<nat>, v: seq<nat>)
    requires |u| == |v| && u != v
    ensures TupleLess(u, v) || TupleLess(v, u)
  {
    if u[0] == v[0] {
      assert u == [u[0]] + u[1..] && v == [v[0]] + v[1..];
      TupleTotal(u[1..], v[1..]);
    }
  }

  lemma JoinCons(x: string, rest: seq<string>, sep: char)
    requires |rest| >= 1
    ensures Join([x] + rest, sep) == x + [sep] + Join(rest, sep)
  {
    assert ([x] + rest)[1..] == rest;
  }

  /** Comparing the comma-joined padded pieces is comparing the numbers
      piece by piece. */
  lemma {:induction false} JoinedKeyOrder(pa: seq<string>, pb: seq<string>)
    requires |pa| == |pb| >= 1
    requires ShortDigitParts(pa) && ShortDigitParts(pb)
    ensures LexLess(Join(NormalizeAll(pa), ','), Join(NormalizeAll(pb), ','))
            <==> TupleLess(Values(pa), Values(pb))
  {
    var na, nb := NormalizeAll(pa), NormalizeAll(pb);
    var x, y := na[0], nb[0];
    NormalizeNumberOrder(pa[0], pb[0]);
    NormalizeNumberEqual(pa[0], pb[0]);
    if |pa| > 1 {
      var ra, rb := pa[1..], pb[1..];
      assert NormalizeAll(ra) == na[1..] && NormalizeAll(rb) == nb[1..];
      assert Values(ra) == Values(pa)[1..] && Values(rb) == Values(pb)[1..];
      JoinedKeyOrder(ra, rb);
      var ja, jb := Join(na[1..], ','), Join(nb[1..], ',');
      assert Join(na, ',') == x + ([','] + ja);
      assert Join(nb, ',') == y + ([','] + jb);
      NormalizeNumberValue(pa[0]);
      NormalizeNumberValue(pb[0]);
      LexConcat(x, y, [','] + ja, [','] + jb);
      assert ([','] + ja)[1..] == ja && ([','] + jb)[1..] == jb;
    }
  }

  /** Four dot-separated digit strings of one to three digits. */
  predicate IsDottedQuad(ip: string)
  {
    var parts := Split(ip, '.');
    |parts| == 4 && forall k :: 0 <= k < 4 ==> IsDigits(parts[k]) && 1 <= |parts[k]| <= 3
  }

  /** A dotted quad written without leading zeros, as EC2 reports addresses. */
  predicate IsCanonicalQuad(ip: string)
  {
    IsDottedQuad(ip) && forall k :: 0 <= k < 4 ==> Canonical(Split(ip, '.')[k])
  }

  /** The four octet values of a dotted quad. */
  function Octets(ip: string): (r: seq<nat>)
    requires IsDottedQuad(ip)
    ensures |r| == 4
  {
    Values(Split(ip, '.'))
  }

  /** The sort key orders dotted quads numerically, octet by octet. */
  lemma SortKeyOrder(a: string, b: string)
    requires IsDottedQuad(a) && IsDottedQuad(b)
    ensures LexLess(SortKey(a), SortKey(b)) <==> TupleLess(Octets(a), Octets(b))
  {
    JoinedKeyOrder(Split(a, '.'), Split(b, '.'));
  }

  /** Two canonical dotted quads with the same sort key are the same address. */
  lemma SortKeyInjective(a: string, b: string)
    requires IsCanonicalQuad(a) && IsCanonicalQuad(b)
    requires SortKey(a) == SortKey(b)
    ensures a == b
  {
    LexIrreflexive(SortKey(a));
    SortKeyOrder(a, b);
    SortKeyOrder(b, a);
    if Octets(a) != Octets(b) {
      TupleTotal(Octets(a), Octets(b));
    }
    var pa, pb := Split(a, '.'), Split(b, '.');
    forall k | 0 <= k < 4 ensures pa[k] == pb[k] {
      assert Octets(a)[k] == Octets(b)[k];
      CanonicalInjective(pa[k], pb[k]);
    }
    assert pa == pb;
    JoinSplit(a, '.');
    JoinSplit(b, '.');
  }

  /** reverseIP: the in-addr.arpa owner name of an address, octets reversed.
      A missing octet renders as "undefined", as in JavaScript. */
  function ReverseIP(ip: string): (r: string)
    ensures |r| >= 14 && r[|r| - 14..] == ".in-addr.arpa."
  {
    var parts := Split(ip, '.');
    Show(Part(parts, 3)) + "." + Show(Part(parts, 2)) + "." + Show(Part(parts, 1)) + "."
      + Show(Part(parts, 0)) + ".in-addr.arpa."
  }

  /** The labels of the reverse name of a four-piece address. */
  function ReverseLabels(parts: seq<string>): seq<string>
    requires |parts| == 4
  {
    [parts[3], parts[2], parts[1], parts[0], "in-addr", "arpa", ""]
  }

  lemma ReverseLabelsJoin(p3: string, p2: string, p1: string, p0: string)
    ensures Join([p3, p2, p1, p0, "in-addr", "arpa", ""], '.')
            == p3 + "." + p2 + "." + p1 + "." + p0 + ".in-addr.arpa."
  {
    var t0 := "in-addr.arpa.";
    JoinCons("arpa", [""], '.');
    JoinCons("in-addr", ["arpa", ""], '.');
    assert Join(["in-addr", "arpa", ""], '.') == t0;
    var t1 := p0 + "." + t0;
    JoinCons(p0, ["in-addr", "arpa", ""], '.');
    assert [p0] + ["in-addr", "arpa", ""] == [p0, "in-addr", "arpa", ""];
    var t2 := p1 + "." + t1;
    JoinCons(p1, [p0, "in-addr", "arpa", ""], '.');
    assert [p1] + [p0, "in-addr", "arpa", ""] == [p1, p0, "in-addr", "arpa", ""];
    var t3 := p2 + "." + t2;
    JoinCons(p2, [p1, p0, "in-addr", "arpa", ""], '.');
    assert [p2] + [p1, p0, "in-addr", "arpa", ""] == [p2, p1, p0, "in-addr", "arpa", ""];
    var t4 := p3 + "." + t3;
    JoinCons(p3, [p2, p1, p0, "in-addr", "arpa", ""], '.');
    assert [p3] + [p2, p1, p0, "in-addr", "arpa", ""] == [p3, p2, p1, p0, "in-addr", "arpa", ""];
    assert p0 + "." + t0 == p0 + ".in-addr.arpa.";
    assert t4 == p3 + "." + p2 + "." + p1 + "." + p0 + ".in-addr.arpa.";
  }

  lemma ReverseIPIsJoin(ip: string)
    requires |Split(ip, '.')| == 4
    ensures ReverseIP(ip) == Join(ReverseLabels(Split(ip, '.')), '.')
  {
    var p := Split(ip, '.');
    ReverseLabelsJoin(p[3], p[2], p[1], p[0]);
  }

  /** The reverse name of "a.b.c.d" is "d.c.b.a.in-addr.arpa.". */
  lemma ReverseIPOfOctets(a: string, b: string, c: string, d: string)
    requires '.' !in a && '.' !in b && '.' !in c && '.' !in d
    ensures ReverseIP(a + "." + b + "." + c + "." + d) == d + "." + c + "." + b + "." + a + ".in-addr.arpa."
  {
    var ip := a + "." + b + "." + c + "." + d;
    JoinCons(c, [d], '.');
    JoinCons(b, [c, d], '.');
    JoinCons(a, [b, c, d], '.');
    assert Join([a, b, c, d], '.') == ip;
    SplitJoin([a, b, c, d], '.');
  }

  /** The labels of the reverse name give the address back: its first four
      labels, in reverse order, are the octets, and joining them rebuilds it. */
  lemma ReverseIPRoundTrip(ip: string)
    requires |Split(ip, '.')| == 4
    ensures var r := Split(ReverseIP(ip), '.');
      |r| == 7 && [r[3], r[2], r[1], r[0]] == Split(ip, '.')
      && Join([r[3], r[2], r[1], r[0]], '.') == ip
  {
    var p := Split(ip, '.');
    ReverseIPIsJoin(ip);
    SplitJoin(ReverseLabels(p), '.');
    assert [p[0], p[1], p[2], p[3]] == p;
    JoinSplit(ip, '.');
  }

  /** isEmpty: `undefined` or the empty string. */
  function IsEmpty(str: Option<string>): (r: bool)
    ensures r <==> str == None || str == Some("")
  {
    !Truthy(str) || (str.Some? && |str.value| == 0)
  }
}
