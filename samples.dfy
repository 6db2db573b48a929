/** Concrete inputs and the verdicts the recognisers and the parser give them. */
module Samples {
  import opened CType
  import opened CaseFold
  import opened NameGrammar
  import opened Address

  /** The hyphen rule of is_name_chars: only a '-' right before the terminator is refused. */
  lemma HyphenRule()
    ensures TrailingHyphen("a-", 0)
    ensures !TrailingHyphen("a--b", 0) && RunEnd("a--b", 0) == 4
    ensures !TrailingHyphen("b-.com", 0) && RunEnd("b-.com", 0) == 2
  {
  }

  lemma LocalSamples()
    ensures LocalShape("a.b-c") && LocalShape("a--b") && LocalShape("a-.b")
    ensures !LocalShape("a-") && !LocalShape(".a") && !LocalShape("a.")
    ensures !LocalShape("a..b") && !LocalShape("1a") && !LocalShape("")
  {
    assert "a."[1] == '.';
    assert "a..b"[1] == '.' && !IsAlpha("a..b"[2]);
  }

  lemma DomainSamples()
    ensures DomainShape("b.com") && DomainShape("b-.com")
  {
    assert "b.com"[1] == '.';
    assert "b-.com"[2] == '.';
  }

  lemma NotDomainSamples()
    ensures !DomainShape("bcom") && !DomainShape("b.com-")
  {
  }

  lemma RejectedNoDomain()
    ensures !ValidAddress("a@")
  {
  }

  lemma RejectedNoLocal()
    ensures !ValidAddress("@b.com")
  {
  }

  lemma RejectedTwoAts()
    ensures !ValidAddress("a@@b.com")
  {
  }

  lemma RejectedTrailingHyphen()
    ensures !ValidAddress("a-@b.com")
  {
  }

  lemma RejectedNoDot()
    ensures !ValidAddress("a@bcom")
  {
  }

  lemma AddressHyphenDot()
    ensures IsAddress("a", "b-.com")
  {
    assert "b-.com"[2] == '.';
  }

  /** A '-' before a '.' of the domain passes, as is_name_chars only looks for the terminator. */
  lemma HyphenBeforeDotAccepted()
    ensures ValidAddress("a@b-.com")
  {
    AddressHyphenDot();
    ValidAddressJoin("a", "b-.com");
    assert "a@b-.com" == "a" + "@" + "b-.com";
  }

  lemma FoldMixedCase()
    ensures Lowered("User@Example.COM") == "user@example.com"
  {
  }

  lemma FoldLowerCase()
    ensures Lowered("a.b-c@sub.example.org") == "a.b-c@sub.example.org"
  {
    LoweredFixed("a.b-c@sub.example.org");
  }

  lemma AddressMixedCase()
    ensures IsAddress("user", "example.com")
  {
    assert "example.com"[7] == '.';
  }

  lemma DottedHalves()
    ensures LocalShape("a.b-c") && DomainShape("sub.example.org")
  {
    assert "sub.example.org"[3] == '.';
  }

  lemma AddressDotted()
    ensures IsAddress("a.b-c", "sub.example.org")
  {
    DottedHalves();
    assert AllInMailClass("a.b-c") && AllInMailClass("sub.example.org");
  }

  /** email_in folds case before it validates and splits. */
  lemma ParsedMixedCase()
    ensures Parses("User@Example.COM", Email("user", "example.com"))
  {
    FoldMixedCase();
    AddressMixedCase();
  }

  lemma ParsedDotted()
    ensures Parses("a.b-c@sub.example.org", Email("a.b-c", "sub.example.org"))
  {
    FoldLowerCase();
    AddressDotted();
  }
}
