/**
 * Case folding of the raw input (strlwr): a fresh buffer of the same length
 * in which every letter is passed through tolower.
 */
module CaseFold {
  import opened CType

  /** The character strlwr stores for `c`: tolower when isalpha, otherwise `c`. */
  function FoldChar(c: char): char {
    if IsAlpha(c) then ToLower(c) else c
  }

  /** The folded string, character by character. */
  function Lowered(s: string): (r: string)
    ensures |r| == |s|
    ensures forall k | 0 <= k < |s| ::
      (IsUpper(s[k]) ==> IsLower(r[k]) && r[k] as int == s[k] as int + 32) &&
      (!IsUpper(s[k]) ==> r[k] == s[k])
    ensures forall k | 0 <= k < |r| :: !IsUpper(r[k])
  {
    seq(|s|, k requires 0 <= k < |s| => FoldChar(s[k]))
  }

  /** Folding twice is folding once. */
  lemma LoweredIdempotent(s: string)
    ensures Lowered(Lowered(s)) == Lowered(s)
  {
  }

  /** A string without upper-case letters is its own folding. */
  lemma LoweredFixed(s: string)
    requires forall k | 0 <= k < |s| :: !IsUpper(s[k])
    ensures Lowered(s) == s
  {
  }

  /** Folding distributes over concatenation. */
  lemma LoweredAppend(s: string, t: string)
    ensures Lowered(s + t) == Lowered(s) + Lowered(t)
  {
  }

  /** strlwr: fills a freshly allocated buffer of the input's length in one pass. */
  method StrLwr(s: string) returns (r: string)
    ensures |r| == |s|
    ensures forall k | 0 <= k < |s| ::
      (IsUpper(s[k]) ==> IsLower(r[k]) && r[k] as int == s[k] as int + 32) &&
      (!IsUpper(s[k]) ==> r[k] == s[k])
    ensures r == Lowered(s)
  {
    var email := new char[|s|];
    for i := 0 to |s|
      invariant forall k | 0 <= k < i :: email[k] == FoldChar(s[k])
    {
      if IsAlpha(s[i]) {
        email[i] := ToLower(s[i]);
      } else {
        email[i] := s[i];
      }
    }
    r := email[..];
  }
}
