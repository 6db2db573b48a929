/**
 * The e-mail value and its text form: is_valid_email (pattern check, split
 * at the '@', then the local-part and domain grammars), email_in (fold case,
 * validate, store both halves) and email_out (render "[local@domain]").
 */
module Address {
  import opened CType
  import opened Wrappers
  import opened CaseFold
  import opened NameGrammar

  /** The stored value: the text before and after the '@'. */
  datatype Email = Email(local: string, domain: string) {
    /** The text the value was read from: "local@domain". */
    function Canonical(): string {
      local + "@" + domain
    }
  }

  /** The bracket expression [a-z0-9.-] of the address pattern. */
  predicate InMailClass(c: char) {
    IsLower(c) || IsDigit(c) || c == '.' || c == '-'
  }

  predicate AllInMailClass(s: string) {
    forall k | 0 <= k < |s| :: InMailClass(s[k])
  }

  /**
   * regexec of "^[a-z0-9.-]+@[a-z0-9.-]+$": the first '@' has text on both
   * sides and every other character is in the bracket expression.
   */
  predicate MatchesMailPattern(s: string) {
    var i := IndexOf(s, '@');
    0 < i && i + 1 < |s| && forall k | 0 <= k < |s| && k != i :: InMailClass(s[k])
  }

  /** The pattern read as "one or more class characters, '@', one or more class characters". */
  lemma MailPatternJoin(l: string, d: string)
    ensures MatchesMailPattern(l + "@" + d) <==> |l| > 0 && |d| > 0 && AllInMailClass(l) && AllInMailClass(d)
  {
    var s := l + "@" + d;
    if AllInMailClass(l) {
      IndexOfJoin(l, '@', d);
      assert forall k | 0 <= k < |d| :: d[k] == s[|l| + 1 + k];
      assert forall k | 0 <= k < |l| :: l[k] == s[k];
    } else {
      var k :| 0 <= k < |l| && !InMailClass(l[k]);
      assert s[k] == l[k] && s[|l|] == '@';
    }
  }

  /**
   * sscanf of "local@domain": the text before the first '@' and the text
   * after it, both non-empty; no value when there is no '@' or a side is empty.
   */
  function SplitAtSign(s: string): (r: Option<(string, string)>)
    ensures r.Some? <==> 0 < IndexOf(s, '@') < |s| - 1
    ensures r.Some? ==> s == r.value.0 + "@" + r.value.1 && '@' !in r.value.0
    ensures r.Some? ==> |r.value.0| > 0 && |r.value.1| > 0
  {
    var i := IndexOf(s, '@');
    if 0 < i < |s| - 1 then
      assert s == s[..i] + "@" + s[i + 1..];
      Some((s[..i], s[i + 1..]))
    else
      None
  }

  /** A well-formed address in its stored, lower-case form. */
  predicate IsAddress(l: string, d: string) {
    LocalShape(l) && DomainShape(d) && AllInMailClass(l) && AllInMailClass(d)
  }

  /** Text accepted by is_valid_email: some "l@d" with `l`, `d` a well-formed address. */
  predicate ValidAddress(s: string) {
    exists i | 0 <= i < |s| :: s[i] == '@' && IsAddress(s[..i], s[i + 1..])
  }

  /** A well-formed address holds no '@' on either side. */
  lemma AddressNoAt(l: string, d: string)
    requires IsAddress(l, d)
    ensures '@' !in l && '@' !in d
  {
  }

  /** An accepted text holds exactly one '@', with text on both sides. */
  lemma ValidAddressOneAt(s: string)
    requires ValidAddress(s)
    ensures var i := IndexOf(s, '@');
      0 < i < |s| - 1 && '@' !in s[i + 1..] && IsAddress(s[..i], s[i + 1..])
  {
    var i :| 0 <= i < |s| && s[i] == '@' && IsAddress(s[..i], s[i + 1..]);
    AddressNoAt(s[..i], s[i + 1..]);
    IndexOfAt(s, '@', i);
  }

  /** The '@' of an accepted text is its only one, so the split is determined. */
  lemma ValidAddressJoin(l: string, d: string)
    ensures ValidAddress(l + "@" + d) <==> IsAddress(l, d)
  {
    var s := l + "@" + d;
    assert s[..|l|] == l && s[|l| + 1..] == d && s[|l|] == '@';
    if ValidAddress(s) {
      ValidAddressOneAt(s);
      assert IndexOf(s, '@') == |l|;
    }
  }

  /** is_valid_email: the pattern check, the split at the '@', then both grammars. */
  method IsValidEmail(email: string) returns (b: bool)
    ensures b <==> ValidAddress(email)
  {
    if !MatchesMailPattern(email) {
      if ValidAddress(email) {
        ValidAddressOneAt(email);
        var i := IndexOf(email, '@');
        MailPatternJoin(email[..i], email[i + 1..]);
      }
      return false;
    }
    var parts := SplitAtSign(email);
    var local, domain := parts.value.0, parts.value.1;
    MailPatternJoin(local, domain);
    ValidAddressJoin(local, domain);
    var okLocal := IsValidLocal(local);
    if !okLocal {
      return false;
    }
    var okDomain := IsValidDomain(domain);
    if !okDomain {
      return false;
    }
    return true;
  }

  /**
   * email_in: folds the input's case, validates it and stores the text
   * before and after the '@'; rejected input yields no value.
   */
  method EmailIn(str: string) returns (r: Option<Email>)
    ensures r.None? <==> !ValidAddress(Lowered(str))
    ensures r.Some? ==> Parses(str, r.value)
  {
    var email := StrLwr(str);
    var ok := IsValidEmail(email);
    if !ok {
      return None;
    }
    ValidAddressOneAt(email);
    var parts := SplitAtSign(email);
    r := Some(Email(parts.value.0, parts.value.1));
  }

  /** `e` is what email_in stores for the input `str`. */
  predicate Parses(str: string, e: Email) {
    Lowered(str) == e.Canonical() && IsAddress(e.local, e.domain)
  }

  /** email_out: the stored halves, rendered in square brackets. */
  function EmailOut(e: Email): (r: string)
    ensures |r| == |e.local| + |e.domain| + 3
    ensures r[0] == '[' && r[|r| - 1] == ']' && r[1..|r| - 1] == e.Canonical()
  {
    "[" + e.local + "@" + e.domain + "]"
  }

  /** With no '@' in the local parts, the canonical text determines the value. */
  lemma CanonicalInjective(a: Email, b: Email)
    requires '@' !in a.local && '@' !in b.local
    requires a.Canonical() == b.Canonical()
    ensures a == b
  {
    var s := a.Canonical();
    IndexOfJoin(a.local, '@', a.domain);
    IndexOfJoin(b.local, '@', b.domain);
    assert s[..|a.local|] == a.local && s[|a.local| + 1..] == a.domain;
    assert s[..|b.local|] == b.local && s[|b.local| + 1..] == b.domain;
  }

  /** What email_in stores is determined by its input. */
  lemma ParsesUnique(str: string, e1: Email, e2: Email)
    requires Parses(str, e1) && Parses(str, e2)
    ensures e1 == e2
  {
    AddressNoAt(e1.local, e1.domain);
    AddressNoAt(e2.local, e2.domain);
    CanonicalInjective(e1, e2);
  }

  /** A stored value's canonical text is accepted and stores the same value again. */
  lemma CanonicalReparses(str: string, e: Email)
    requires Parses(str, e)
    ensures ValidAddress(Lowered(e.Canonical()))
    ensures Parses(e.Canonical(), e)
  {
    LoweredIdempotent(str);
    ValidAddressJoin(e.local, e.domain);
  }

  /** email_out's output is not accepted back by email_in: the brackets are outside the pattern. */
  lemma OutputNotReparsed(e: Email)
    ensures !ValidAddress(Lowered(EmailOut(e)))
  {
  }

  /** Two stored values render alike exactly when they are equal. */
  lemma OutputInjective(a: Email, b: Email)
    requires '@' !in a.local && '@' !in b.local
    ensures EmailOut(a) == EmailOut(b) <==> a == b
  {
    if EmailOut(a) == EmailOut(b) {
      assert a.Canonical() == EmailOut(a)[1..|EmailOut(a)| - 1];
      CanonicalInjective(a, b);
    }
  }
}
