# E-mail type: recogniser, parser and ordering

A Dafny model of `email.c`, a PostgreSQL extension type that stores an
e-mail address as a pair (local, domain). The model covers:

- **case folding** (`strlwr`), a loop over a fresh buffer (`CaseFold`);
- the **recursive-descent recogniser** over a cursor (`is_name_chars`,
  `is_name_part`, `is_name_parts`, `is_valid_local`, `is_valid_domain`).
  Each recogniser is a method that takes a cursor position and returns the
  position it advanced to, or `None` on failure (`NameGrammar`). The
  accepted languages are stated as character-level grammars
  (`LocalShape`, `DomainShape`). They are also characterised as
  dot-joined lists of name parts (`Labels`);
- **address checking and splitting** (`is_valid_email`, `email_in`,
  `email_out`) (`Address`);
- the **ordering**: `email_abs_cmp_internal`, the lt/le/eq/ne/ge/gt/cmp
  wrappers and the same-domain operators (`Ordering`);
- concrete accepted and rejected inputs (`Samples`).

The cursor `char **` becomes an index into an immutable string. `*p` is
`CType.At`: the character at the index, or NUL at or past the end. C
character classes (`isalpha`, `isdigit`, `tolower`) are those of the "C"
locale.

Where the source and its design description disagree, the model follows the source:

- A name part may end in `-` when a `.` follows. `is_name_chars` only
  refuses a `-` that is followed by the terminator (email.c:403). So
  `a@b-.com` is accepted (`Samples.HyphenBeforeDotAccepted`) and `a-@b.com`
  is rejected.
- `email_out` renders `[local@domain]` with brackets (email.c:110). Its
  output is therefore never accepted by `email_in` (`Address.OutputNotReparsed`).
  What does round-trip is the canonical text `local@domain`
  (`Address.CanonicalReparses`).
- No length bound is applied to either half. The code has none.
- The same-domain operators compare the local parts (see Findings).

## Model

| member | source | states |
|---|---|---|
| `CaseFold.Lowered` | email.c:313-330 | same length as the input; each upper-case letter becomes its lower-case partner, every other character is unchanged; the result has no upper-case letter |
| `CaseFold.StrLwr` | email.c:313-330 | the buffer filled by the loop has the input's length, lowers each upper-case letter and copies every other character; it equals `Lowered` |
| `CaseFold.LoweredIdempotent` | email.c:313-330 | folding twice is folding once |
| `CaseFold.LoweredFixed` | email.c:313-330 | a string with no upper-case letter folds to itself |
| `CaseFold.LoweredAppend` | email.c:313-330 | folding is character by character, so it distributes over concatenation |
| `NameGrammar.RunEnd` | email.c:401-408 | the end of the maximal run of letters, digits and `-` from the cursor: every character before it is in the class, the one at it is not |
| `NameGrammar.DottedEnd` | email.c:384-398 | the end of the maximal run of letters, digits, `-` and `.` from the cursor |
| `NameGrammar.NameChars` | email.c:400-410 | fails exactly when the run ends in a `-` right before the terminator; otherwise stops at the run's end without consuming the first character outside the class |
| `NameGrammar.NamePart` | email.c:368-382 | fails when the cursor is not on a letter or the run has that trailing hyphen; otherwise returns the end of the maximal letter/digit/hyphen run |
| `NameGrammar.DotStep` | email.c:388-396 | a `.` followed by a good name part: the rest of the dotted run, and its verdict, are those after that name part |
| `NameGrammar.DotStepFails` | email.c:388-392 | a `.` not followed by a letter, or followed by a part with a trailing hyphen, spoils the dotted run |
| `NameGrammar.NameParts` | email.c:384-398 | on a name character, or at the terminator or any non-`.` character, succeeds without moving; after a name part, succeeds exactly when every `.` in the dotted run is followed by a letter and the run does not end in `-` before the terminator, and then stops at the run's end |
| `NameGrammar.LocalShapeCursor` | email.c:332-345 | the local-part grammar holds exactly when the first name part succeeds, its continuations succeed and they reach the end |
| `NameGrammar.IsValidLocal` | email.c:332-345 | accepts exactly the non-empty strings that start with a letter, contain only letters, digits, `-` and `.`, have a letter after every `.` and do not end in `-` |
| `NameGrammar.IsValidDomain` | email.c:347-366 | accepts exactly the strings of the local-part grammar that contain at least one `.` |
| `Labels.SplitDots` | email.c:384-398 | the segments between the dots: at least one, none holding a `.`, and joined by dots they give back the string |
| `Labels.SplitJoin` | email.c:384-398 | splitting dot-joined segments that hold no dot gives back the segments |
| `Labels.LocalShapeDot` | email.c:384-398 | a string passes the local-part grammar exactly when its first segment is a name part and the text after the first dot passes |
| `Labels.LocalShapeSegments` | email.c:332-345 | a string passes the local-part grammar exactly when it is non-empty, every dot-separated segment is a name part (a letter, then letters, digits, `-`) and it does not end in `-` |
| `Labels.DomainSegments` | email.c:347-366 | a domain additionally has at least two segments |
| `Labels.JoinedIsLocal` | email.c:332-366 | name parts joined by dots, not ending in `-`, form a local part, and a domain when there are two or more |
| `Address.MailPatternJoin` | email.c:286-293 | `l@d` matches `^[a-z0-9.-]+@[a-z0-9.-]+$` exactly when `l` and `d` are non-empty and drawn from `[a-z0-9.-]` |
| `Address.SplitAtSign` | email.c:296-300 | succeeds exactly when the first `@` has text on both sides; the parts are the text before and after it, rejoined by `@` they give the input, the first holds no `@` |
| `Address.AddressNoAt` | email.c:286 | neither half of a well-formed address holds an `@` |
| `Address.ValidAddressOneAt` | email.c:283-311 | an accepted text has exactly one `@`, with non-empty text on both sides, and the halves are a well-formed address |
| `Address.ValidAddressJoin` | email.c:283-311 | `l@d` is accepted exactly when `l` is a lower-case local part and `d` a lower-case domain |
| `Address.IsValidEmail` | email.c:283-311 | true exactly when the text is some `l@d` with `l` a local part and `d` a domain, both over `[a-z0-9.-]` |
| `Address.EmailIn` | email.c:70-100 | yields no value exactly when the folded input is rejected; otherwise the stored local and domain are the folded text before and after its `@`, and they form a well-formed address |
| `Address.EmailOut` | email.c:105-111 | the output is `[`, the canonical `local@domain` text, then `]` |
| `Address.CanonicalInjective` | email.c:90-94 | with no `@` in the local parts, equal canonical texts mean equal values |
| `Address.ParsesUnique` | email.c:90-94 | what `email_in` stores is determined by its input |
| `Address.CanonicalReparses` | email.c:80-94 | the canonical text of a stored value is accepted and stores the same value again |
| `Address.OutputNotReparsed` | email.c:110 | the bracketed output of `email_out` is never accepted by `email_in` |
| `Address.OutputInjective` | email.c:110 | two values render alike exactly when they are equal |
| `Ordering.StrCmp` | email.c:178-188 | the sign of the comparison is -1, 0 or 1, and 0 exactly on equal strings |
| `Ordering.StrCmpLexLess` | email.c:178-188 | negative exactly when the first string is lexicographically smaller: after a common prefix, it ends first or has the smaller character |
| `Ordering.StrCmpAntisymmetric` | email.c:178-188 | swapping the arguments negates the sign |
| `Ordering.StrCmpTransitive` | email.c:178-188 | the string order is transitive |
| `Ordering.CompareInternal` | email.c:176-190 | returns -1, 0 or 1; 0 exactly on equal values; the domain comparison when the domains differ, else the local comparison |
| `Ordering.CompareIsPairOrder` | email.c:176-190 | negative exactly when `a` precedes `b` in the domain-first lexicographic order, positive exactly when `b` precedes `a` |
| `Ordering.CompareAntisymmetric` | email.c:176-190 | cmp(a, b) = -cmp(b, a) |
| `Ordering.CompareTransitive` | email.c:176-190 | the comparison is transitive |
| `Ordering.CompareZeroIffSameOutput` | email.c:105-111 | values compare equal exactly when `email_out` renders them alike |
| `Ordering.AbsCmp` | email.c:253-261 | the three-way result handed to the index: -1, 0 or 1, zero exactly on equal values, the sign following the domain-first order |
| `Ordering.Lt` | email.c:193-201 | true exactly when `a` precedes `b` domain-first |
| `Ordering.Le` | email.c:203-211 | true exactly when `a` precedes or equals `b` |
| `Ordering.Eq` | email.c:213-221 | true exactly when both fields are equal |
| `Ordering.Ne` | email.c:223-231 | true exactly when some field differs |
| `Ordering.Ge` | email.c:233-241 | true exactly when `b` precedes or equals `a` |
| `Ordering.Gt` | email.c:243-251 | true exactly when `b` precedes `a` |
| `Ordering.OperatorsAgree` | email.c:193-251 | lt/gt and le/ge are mirror images, le = not gt, ge = not lt, eq and ne are complements, le = lt or eq, and exactly one of lt, eq, gt holds |
| `Ordering.LeTotalOrder` | email.c:158-190 | le is reflexive, antisymmetric, transitive and total |
| `Ordering.InternalSameDomain` | email.c:169-173 | as written: true exactly when the local fields are equal (the path that returns nothing is read as false) |
| `Ordering.SameDomainOperator` | email.c:263-271 | as written: true exactly when the local fields are equal |
| `Ordering.NotSameDomainOperator` | email.c:273-281 | the negation of the same-domain operator |
| `Ordering.SameDomainOperatorIgnoresDomain` | email.c:169-173 | two addresses in one domain are reported as not sharing it, and two in different domains as sharing one |
| `Ordering.SameDomain` | email.c:169-173 | corrected: true exactly when the domain fields are equal |
| `Ordering.NotSameDomain` | email.c:275-281 | corrected: true exactly when the domain fields differ |
| `Ordering.SameDomainAgreesWithCompare` | email.c:169-190 | equal values share a domain, different domains decide the comparison, and the test agrees with comparing the text after the `@` |
| `Samples.HyphenRule` | email.c:400-410 | `a-` has the trailing hyphen; `a--b` and the `b-` of `b-.com` do not |
| `Samples.LocalSamples` | email.c:332-345 | `a.b-c`, `a--b`, `a-.b` are local parts; `a-`, `.a`, `a.`, `a..b`, `1a` and the empty string are not |
| `Samples.DomainSamples` | email.c:347-366 | `b.com` and `b-.com` are domains |
| `Samples.NotDomainSamples` | email.c:347-366 | `bcom` (no dot) and `b.com-` (trailing hyphen) are not domains |
| `Samples.DottedHalves` | email.c:332-366 | `a.b-c` is a local part and `sub.example.org` a domain |
| `Samples.FoldMixedCase` | email.c:313-330 | `User@Example.COM` folds to `user@example.com` |
| `Samples.RejectedNoDomain` | email.c:283-311 | `a@` is rejected |
| `Samples.RejectedNoLocal` | email.c:283-311 | `@b.com` is rejected |
| `Samples.RejectedTwoAts` | email.c:283-311 | `a@@b.com` is rejected |
| `Samples.RejectedTrailingHyphen` | email.c:283-311 | `a-@b.com` is rejected |
| `Samples.RejectedNoDot` | email.c:347-366 | `a@bcom` is rejected |
| `Samples.HyphenBeforeDotAccepted` | email.c:403 | `a@b-.com` is accepted |
| `Samples.ParsedMixedCase` | email.c:70-100 | `User@Example.COM` stores (`user`, `example.com`) |
| `Samples.ParsedDotted` | email.c:70-100 | `a.b-c@sub.example.org` stores (`a.b-c`, `sub.example.org`) |

## Left out

- PostgreSQL glue is not modelled: argument and result macros, `palloc`, `PG_MODULE_MAGIC`. An `ereport` rejection in `email_in` becomes the value `None`.
- `email_recv` and `email_send` (email.c:123-147) are not modelled. They are wire framing by library calls.
- `regcomp`/`regexec` are not modelled as library calls. In their place is the predicate `MatchesMailPattern`, the language of the pattern at email.c:286. The `regfree` skipped on the failure path is a leak with no effect on results.
- `sscanf` (email.c:90, email.c:296) is modelled as a split at the first `@` with both sides non-empty. Its `%[...]` set and its `%s` skipping of white space are not modelled. The pattern check that runs first admits only text on which they make no difference.
- The one-pointer-sized `malloc` buffers (email.c:72-73, email.c:284-285) are not modelled: strings are unbounded sequences. So are the freed or leaked allocations.
- `Address.EmailOut`: does not model the truncation of the 100-byte `snprintf` buffer (email.c:109-110). It renders the whole text.
- `Ordering.StrCmp`: returns only the sign of C's `strcmp`, not its magnitude. Every caller uses only the sign.
- `Ordering.InternalSameDomain`: the path that falls off the end of the function without a return (email.c:173) is undefined behaviour in C. The model reads it as false.
- `NameGrammar.NameChars`, `NameGrammar.NamePart` and `NameGrammar.NameParts` drop the cursor position on failure. In C the shared cursor is left wherever scanning stopped. Every caller gives up on failure.
- `NameGrammar.IsValidLocal` and `NameGrammar.IsValidDomain` require a string without NUL characters, which is what a C string's content is. `Address.IsValidEmail` and `Address.EmailIn` need no such requirement, because the pattern check refuses a NUL character.
- Character classes are those of the "C" locale. Locale-dependent `isalpha`/`tolower` and non-ASCII input are not modelled. A negative `char` passed to `isalpha` is undefined behaviour, and that is not modelled either.
- The `printf` diagnostics (email.c:334, email.c:338) and the commented-out code are not modelled.
- No hash function is modelled, because `email.c` defines none.

## Findings

| source | as written | input that shows it | evidently intended | confidence | as-written member | corrected member |
|---|---|---|---|---|---|---|
| email.c:169-173 | `internal_same_domain` compares the local fields. On unequal local fields it returns no value. | (`x`, `b.com`) and (`y`, `b.com`) are reported as not sharing a domain. (`x`, `b.com`) and (`x`, `c.org`) are reported as sharing one. | true exactly when the domain fields are equal | high, not executed | `Ordering.SameDomainOperatorIgnoresDomain` | `Ordering.SameDomain` |
