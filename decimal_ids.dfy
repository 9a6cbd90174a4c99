/**
 * Decimal rendering of ids, as JavaScript's template literals render a BigInt,
 * and the composite like id `${userId}_${entityId}` that the repository builds
 * for every like record.  The parse functions are the inverse that shows the
 * rendering loses nothing: two different pairs never share a composite id.
 */
module DecimalIds {
  import opened Wrappers

  predicate IsDigit(c: char) {
    '0' <= c <= '9'
  }

  predicate AllDigits(s: string) {
    forall i | 0 <= i < |s| :: IsDigit(s[i])
  }

  function DigitChar(d: nat): (c: char)
    requires d < 10
    ensures IsDigit(c)
  {
    ('0' as int + d) as char
  }

  function DigitValue(c: char): (d: nat)
    requires IsDigit(c)
    ensures d < 10
    ensures DigitChar(d) == c
  {
    c as int - '0' as int
  }

  /** The decimal digits of `n`, most significant first, without leading zeros. */
  function NatToString(n: nat): (s: string)
    ensures |s| >= 1 && AllDigits(s)
    decreases n
  {
    if n < 10 then [DigitChar(n)] else NatToString(n / 10) + [DigitChar(n % 10)]
  }

  /** `BigInt.prototype.toString()`: a minus sign in front of the magnitude for negatives. */
  function IntToString(i: int): (s: string)
    ensures |s| >= 1
    ensures '_' !in s
  {
    if i < 0 then "-" + NatToString(-i) else NatToString(i)
  }

  function ParseNat(s: string): nat
    requires AllDigits(s)
    decreases |s|
  {
    if s == [] then 0 else ParseNat(s[..|s| - 1]) * 10 + DigitValue(s[|s| - 1])
  }

  function ParseInt(s: string): Option<int> {
    if |s| >= 2 && s[0] == '-' && AllDigits(s[1..]) then Some(-(ParseNat(s[1..]) as int))
    else if |s| >= 1 && AllDigits(s) then Some(ParseNat(s))
    else None
  }

  /** Position of the first occurrence of `c` in `s`. */
  function IndexOf(s: string, c: char): (r: Option<nat>)
    ensures r.Some? ==> r.value < |s| && s[r.value] == c && c !in s[..r.value]
    ensures r.None? ==> c !in s
  {
    if s == [] then None
    else if s[0] == c then Some(0)
    else match IndexOf(s[1..], c)
      case None => None
      case Some(k) => Some(k + 1)
  }

  /** The like-record id: the user id and the entity id joined by an underscore. */
  function CompositeId(userId: int, entityId: int): string {
    IntToString(userId) + "_" + IntToString(entityId)
  }

  /** Splits a composite id at its first underscore and parses both halves. */
  function SplitCompositeId(s: string): Option<(int, int)> {
    match IndexOf(s, '_')
    case None => None
    case Some(k) =>
      match (ParseInt(s[..k]), ParseInt(s[k + 1..]))
      case (Some(u), Some(e)) => Some((u, e))
      case _ => None
  }

  lemma {:induction false} ParseNatToString(n: nat)
    ensures ParseNat(NatToString(n)) == n
    decreases n
  {
    if n >= 10 {
      var s := NatToString(n);
      ParseNatToString(n / 10);
      assert s[..|s| - 1] == NatToString(n / 10);
      assert s[|s| - 1] == DigitChar(n % 10);
    }
  }

  lemma ParseIntToString(i: int)
    ensures ParseInt(IntToString(i)) == Some(i)
  {
    var s := IntToString(i);
    if i < 0 {
      assert s[1..] == NatToString(-i);
      ParseNatToString(-i);
    } else {
      ParseNatToString(i);
      assert s[0] != '-';
    }
  }

  lemma {:induction false} IndexOfJoin(a: string, c: char, b: string)
    requires c !in a
    ensures IndexOf(a + [c] + b, c) == Some(|a|)
    decreases |a|
  {
    if a != [] {
      assert (a + [c] + b)[1..] == a[1..] + [c] + b;
      IndexOfJoin(a[1..], c, b);
    }
  }

  /** Parsing a composite id gives back the pair it was built from. */
  lemma CompositeIdRoundTrip(userId: int, entityId: int)
    ensures SplitCompositeId(CompositeId(userId, entityId)) == Some((userId, entityId))
  {
    var a, b := IntToString(userId), IntToString(entityId);
    var s := CompositeId(userId, entityId);
    IndexOfJoin(a, '_', b);
    assert s[..|a|] == a;
    assert s[|a| + 1..] == b;
    ParseIntToString(userId);
    ParseIntToString(entityId);
  }

  /** Distinct pairs have distinct composite ids. */
  lemma CompositeIdInjective(u1: int, e1: int, u2: int, e2: int)
    requires CompositeId(u1, e1) == CompositeId(u2, e2)
    ensures u1 == u2 && e1 == e2
  {
    CompositeIdRoundTrip(u1, e1);
    CompositeIdRoundTrip(u2, e2);
  }

  /** Distinct ids have distinct renderings. */
  lemma IntToStringInjective(i: int, j: int)
    requires IntToString(i) == IntToString(j)
    ensures i == j
  {
    ParseIntToString(i);
    ParseIntToString(j);
  }
}
