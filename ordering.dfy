/**
 * The B-tree operator class: a three-way comparison of stored values
 * (domain first, then local) and the operators built on it, plus the
 * same-domain test.
 */
module Ordering {
  import opened Address

  /** strcmp, reduced to its sign: character-wise comparison, a proper prefix first. */
  function StrCmp(a: string, b: string): (r: int)
    ensures -1 <= r <= 1
    ensures r == 0 <==> a == b
  {
    if |a| == 0 then (if |b| == 0 then 0 else -1)
    else if |b| == 0 then 1
    else if a[0] < b[0] then -1
    else if a[0] > b[0] then 1
    else
      assert a == [a[0]] + a[1..] && b == [b[0]] + b[1..];
      StrCmp(a[1..], b[1..])
  }

  /** Lexicographic order: after a common prefix, `a` ends first or has the smaller character. */
  predicate LexLess(a: string, b: string) {
    exists k | 0 <= k <= |a| && k <= |b| ::
      a[..k] == b[..k] && (k == |a| < |b| || (k < |a| && k < |b| && a[k] < b[k]))
  }

  /** StrCmp is negative exactly on lexicographically smaller strings. */
  lemma {:induction false} StrCmpLexLess(a: string, b: string)
    ensures StrCmp(a, b) < 0 <==> LexLess(a, b)
    decreases |a|
  {
    if |a| > 0 && |b| > 0 && a[0] == b[0] {
      StrCmpLexLess(a[1..], b[1..]);
      if LexLess(a[1..], b[1..]) {
        var k :| 0 <= k <= |a[1..]| && k <= |b[1..]| && a[1..][..k] == b[1..][..k] &&
          (k == |a[1..]| < |b[1..]| || (k < |a[1..]| && k < |b[1..]| && a[1..][k] < b[1..][k]));
        assert a[..k + 1] == [a[0]] + a[1..][..k];
        assert b[..k + 1] == [b[0]] + b[1..][..k];
      }
      if LexLess(a, b) {
        var k :| 0 <= k <= |a| && k <= |b| && a[..k] == b[..k] &&
          (k == |a| < |b| || (k < |a| && k < |b| && a[k] < b[k]));
        assert k > 0;
        assert a[1..][..k - 1] == a[..k][1..];
        assert b[1..][..k - 1] == b[..k][1..];
      }
    } else {
      assert a[..0] == b[..0];
    }
  }

  lemma {:induction false} StrCmpAntisymmetric(a: string, b: string)
    ensures StrCmp(a, b) == -StrCmp(b, a)
    decreases |a|
  {
    if |a| > 0 && |b| > 0 && a[0] == b[0] {
      StrCmpAntisymmetric(a[1..], b[1..]);
    }
  }

  lemma {:induction false} StrCmpTransitive(a: string, b: string, c: string)
    requires StrCmp(a, b) < 0 && StrCmp(b, c) < 0
    ensures StrCmp(a, c) < 0
    decreases |a|
  {
    if |a| > 0 && |b| > 0 && |c| > 0 && a[0] == b[0] && b[0] == c[0] {
      StrCmpTransitive(a[1..], b[1..], c[1..]);
    }
  }

  /** email_abs_cmp_internal: the domains decide unless they are equal, then the locals. */
  function CompareInternal(a: Email, b: Email): (r: int)
    ensures -1 <= r <= 1
    ensures r == 0 <==> a == b
    ensures a.domain != b.domain ==> r == StrCmp(a.domain, b.domain)
    ensures a.domain == b.domain ==> r == StrCmp(a.local, b.local)
  {
    if StrCmp(a.domain, b.domain) > 0 then 1
    else if StrCmp(a.domain, b.domain) < 0 then -1
    else if StrCmp(a.local, b.local) == 0 then 0
    else if StrCmp(a.local, b.local) > 0 then 1
    else -1
  }

  /** The order on (domain, local) pairs, domain first, each compared lexicographically. */
  predicate PairLess(a: Email, b: Email) {
    LexLess(a.domain, b.domain) || (a.domain == b.domain && LexLess(a.local, b.local))
  }

  /** The comparison is negative exactly when `a` precedes `b` domain-first. */
  lemma CompareIsPairOrder(a: Email, b: Email)
    ensures CompareInternal(a, b) < 0 <==> PairLess(a, b)
    ensures CompareInternal(a, b) > 0 <==> PairLess(b, a)
  {
    StrCmpLexLess(a.domain, b.domain);
    StrCmpLexLess(a.local, b.local);
    StrCmpLexLess(b.domain, a.domain);
    StrCmpLexLess(b.local, a.local);
    StrCmpAntisymmetric(a.domain, b.domain);
    StrCmpAntisymmetric(a.local, b.local);
  }

  lemma CompareAntisymmetric(a: Email, b: Email)
    ensures CompareInternal(a, b) == -CompareInternal(b, a)
  {
    StrCmpAntisymmetric(a.domain, b.domain);
    StrCmpAntisymmetric(a.local, b.local);
  }

  lemma CompareTransitive(a: Email, b: Email, c: Email)
    requires CompareInternal(a, b) < 0 && CompareInternal(b, c) < 0
    ensures CompareInternal(a, c) < 0
  {
    if a.domain != b.domain && b.domain != c.domain {
      StrCmpTransitive(a.domain, b.domain, c.domain);
    } else if a.domain == b.domain && b.domain == c.domain {
      StrCmpTransitive(a.local, b.local, c.local);
    }
  }

  /** email_abs_cmp: the three-way comparison handed to the index. */
  function AbsCmp(a: Email, b: Email): (r: int)
    ensures r == -1 || r == 0 || r == 1
    ensures r == 0 <==> a == b
    ensures r < 0 <==> PairLess(a, b)
    ensures r > 0 <==> PairLess(b, a)
  {
    CompareIsPairOrder(a, b);
    CompareInternal(a, b)
  }

  /** email_abs_lt */
  function Lt(a: Email, b: Email): (r: bool)
    ensures r <==> PairLess(a, b)
  {
    CompareIsPairOrder(a, b);
    CompareInternal(a, b) < 0
  }

  /** email_abs_le */
  function Le(a: Email, b: Email): (r: bool)
    ensures r <==> PairLess(a, b) || a == b
  {
    CompareIsPairOrder(a, b);
    CompareInternal(a, b) <= 0
  }

  /** email_abs_eq */
  function Eq(a: Email, b: Email): (r: bool)
    ensures r <==> a == b
  {
    CompareInternal(a, b) == 0
  }

  /** email_abs_ne */
  function Ne(a: Email, b: Email): (r: bool)
    ensures r <==> a != b
  {
    CompareInternal(a, b) != 0
  }

  /** email_abs_ge */
  function Ge(a: Email, b: Email): (r: bool)
    ensures r <==> PairLess(b, a) || a == b
  {
    CompareIsPairOrder(a, b);
    CompareInternal(a, b) >= 0
  }

  /** email_abs_gt */
  function Gt(a: Email, b: Email): (r: bool)
    ensures r <==> PairLess(b, a)
  {
    CompareIsPairOrder(a, b);
    CompareInternal(a, b) > 0
  }

  /** The six operators agree with one another as the index requires. */
  lemma OperatorsAgree(a: Email, b: Email)
    ensures Lt(a, b) == Gt(b, a) && Le(a, b) == Ge(b, a)
    ensures Le(a, b) == !Gt(a, b) && Ge(a, b) == !Lt(a, b)
    ensures Eq(a, b) == !Ne(a, b) && Eq(a, b) == Eq(b, a)
    ensures Le(a, b) == (Lt(a, b) || Eq(a, b))
    ensures (Lt(a, b) && !Eq(a, b) && !Gt(a, b)) || (!Lt(a, b) && Eq(a, b) && !Gt(a, b)) || (!Lt(a, b) && !Eq(a, b) && Gt(a, b))
  {
  }

  /** Stored values compare equal exactly when email_out renders them alike. */
  lemma CompareZeroIffSameOutput(a: Email, b: Email)
    requires '@' !in a.local && '@' !in b.local
    ensures CompareInternal(a, b) == 0 <==> EmailOut(a) == EmailOut(b)
  {
    OutputInjective(a, b);
  }

  /** Le is a total order on stored values. */
  lemma LeTotalOrder(a: Email, b: Email, c: Email)
    ensures Le(a, a)
    ensures Le(a, b) && Le(b, a) ==> a == b
    ensures Le(a, b) && Le(b, c) ==> Le(a, c)
    ensures Le(a, b) || Le(b, a)
  {
    CompareAntisymmetric(a, b);
    CompareIsPairOrder(a, b);
    CompareIsPairOrder(b, c);
    CompareIsPairOrder(a, c);
    if CompareInternal(a, b) < 0 && CompareInternal(b, c) < 0 {
      CompareTransitive(a, b, c);
    }
  }

  /**
   * internal_same_domain as written: it compares the local fields, returns 1
   * when they are equal and falls off its end otherwise; that path is read
   * here as false.
   */
  function InternalSameDomain(a: Email, b: Email): (r: bool)
    ensures r <==> a.local == b.local
  {
    StrCmp(a.local, b.local) == 0
  }

  /** email_abs_same_domain, as written. */
  function SameDomainOperator(a: Email, b: Email): (r: bool)
    ensures r <==> a.local == b.local
  {
    InternalSameDomain(a, b)
  }

  /** email_abs_not_same_domain, as written: the negation of email_abs_same_domain. */
  function NotSameDomainOperator(a: Email, b: Email): (r: bool)
    ensures r <==> !SameDomainOperator(a, b)
  {
    !InternalSameDomain(a, b)
  }

  /** The as-written test says "not the same domain" for two addresses in one domain, and the reverse. */
  lemma SameDomainOperatorIgnoresDomain()
    ensures !SameDomainOperator(Email("x", "b.com"), Email("y", "b.com"))
    ensures SameDomainOperator(Email("x", "b.com"), Email("x", "c.org"))
  {
  }

  /** The intended same-domain test: the domain fields are equal. */
  function SameDomain(a: Email, b: Email): (r: bool)
    ensures r <==> a.domain == b.domain
  {
    StrCmp(a.domain, b.domain) == 0
  }

  /** The intended not-same-domain test: the negation of SameDomain. */
  function NotSameDomain(a: Email, b: Email): (r: bool)
    ensures r <==> a.domain != b.domain
  {
    !SameDomain(a, b)
  }

  /** SameDomain agrees with the comparison: equal values share a domain, and different domains decide the order. */
  lemma SameDomainAgreesWithCompare(a: Email, b: Email)
    ensures CompareInternal(a, b) == 0 ==> SameDomain(a, b)
    ensures !SameDomain(a, b) ==> CompareInternal(a, b) == StrCmp(a.domain, b.domain) != 0
    ensures SameDomain(a, b) <==> a.Canonical()[|a.local| + 1..] == b.Canonical()[|b.local| + 1..]
  {
  }
}
