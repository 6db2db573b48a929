/**
 * Character classification as the C library's <ctype.h> does it in the
 * "C" locale, and the NUL-terminated reading of a string.
 *
 * A C string is modelled by the characters before its terminator; the
 * terminator itself is what `At` reads one step past the end.
 */
module CType {

  /** A C string's content never holds the terminating NUL. */
  predicate NoNul(s: string) {
    forall k | 0 <= k < |s| :: s[k] != '\0'
  }

  /** `*p` for a cursor at index `p`: the character there, or NUL at and past the end. */
  function At(s: string, p: nat): (c: char)
    ensures p < |s| ==> c == s[p]
    ensures p >= |s| ==> c == '\0'
  {
    if p < |s| then s[p] else '\0'
  }

  lemma AtEnd(s: string, p: nat)
    requires NoNul(s) && p <= |s|
    ensures At(s, p) == '\0' <==> p == |s|
  {
  }

  predicate IsUpper(c: char) { 'A' <= c <= 'Z' }

  predicate IsLower(c: char) { 'a' <= c <= 'z' }

  /** isalpha */
  predicate IsAlpha(c: char) { IsUpper(c) || IsLower(c) }

  /** isdigit */
  predicate IsDigit(c: char) { '0' <= c <= '9' }

  /** The characters the name-part scanner runs over: letters, digits and '-'. */
  predicate IsNameChar(c: char) { IsAlpha(c) || IsDigit(c) || c == '-' }

  /** The index of the first `c` in `s` (strchr), or `|s|` when there is none. */
  function IndexOf(s: string, c: char): (i: nat)
    ensures i <= |s|
    ensures forall k | 0 <= k < i :: s[k] != c
    ensures i < |s| ==> s[i] == c
  {
    if |s| == 0 || s[0] == c then 0 else 1 + IndexOf(s[1..], c)
  }

  /** In `l + [c] + d` with no `c` in `l`, the first `c` is the one after `l`. */
  lemma IndexOfJoin(l: string, c: char, d: string)
    requires c !in l
    ensures IndexOf(l + [c] + d, c) == |l|
  {
    var s := l + [c] + d;
    assert s[|l|] == c;
  }

  /** A `c` with no `c` before it is the first one. */
  lemma IndexOfAt(s: string, c: char, i: nat)
    requires i < |s| && s[i] == c && c !in s[..i]
    ensures IndexOf(s, c) == i
  {
    assert s == s[..i] + [c] + s[i + 1..];
    IndexOfJoin(s[..i], c, s[i + 1..]);
  }

  /** tolower: maps an upper-case letter to its lower-case partner, any other character to itself. */
  function ToLower(c: char): (r: char)
    ensures IsUpper(c) ==> IsLower(r) && r as int == c as int + 32
    ensures !IsUpper(c) ==> r == c
  {
    if IsUpper(c) then (c as int + 32) as char else c
  }
}
