/**
 * The recursive-descent recogniser for name parts (is_name_part,
 * is_name_chars, is_name_parts) and the two checks built on it
 * (is_valid_local, is_valid_domain).
 *
 * Each recogniser takes the cursor position `p` and gives back the position
 * it advanced to, or `None` when it reports failure. The position a failing
 * recogniser leaves behind is dropped: every caller gives up on failure.
 *
 * The recognisers are specified by the end of the maximal run they scan
 * (`RunEnd`, `DottedEnd`) and by the conditions under which that run is
 * refused (`TrailingHyphen`, `DotsOk`); the checks are specified by the
 * character-level grammars `LocalShape` and `DomainShape`.
 */
module NameGrammar {
  import opened CType
  import opened Wrappers

  /** Characters of a dotted name: name characters and '.'. */
  predicate IsDotNameChar(c: char) { IsNameChar(c) || c == '.' }

  /** The end of the maximal run of name characters that starts at `p`. */
  function RunEnd(s: string, p: nat): (q: nat)
    requires p <= |s|
    ensures p <= q <= |s|
    ensures forall k | p <= k < q :: IsNameChar(s[k])
    ensures !IsNameChar(At(s, q))
    decreases |s| - p
  {
    if p < |s| && IsNameChar(s[p]) then RunEnd(s, p + 1) else p
  }

  /** The run from `p` is non-empty and ends in a '-' directly followed by the terminator. */
  predicate TrailingHyphen(s: string, p: nat)
    requires p <= |s|
  {
    var q := RunEnd(s, p);
    p < q && s[q - 1] == '-' && At(s, q) == '\0'
  }

  /** The end of the maximal run of dotted-name characters that starts at `p`. */
  function DottedEnd(s: string, p: nat): (q: nat)
    requires p <= |s|
    ensures p <= q <= |s|
    ensures forall k | p <= k < q :: IsDotNameChar(s[k])
    ensures !IsDotNameChar(At(s, q))
    decreases |s| - p
  {
    if p < |s| && IsDotNameChar(s[p]) then DottedEnd(s, p + 1) else p
  }

  /**
   * The dotted run from `p` is made of well-formed continuations: every '.'
   * in it is followed by a letter, and it does not end in a '-' that is
   * directly followed by the terminator.
   */
  predicate DotsOk(s: string, p: nat)
    requires p <= |s|
  {
    var e := DottedEnd(s, p);
    && (forall k | p <= k < e && s[k] == '.' :: IsAlpha(At(s, k + 1)))
    && !(p < e && s[e - 1] == '-' && At(s, e) == '\0')
  }

  /**
   * is_name_chars: advances over letters, digits and '-', failing as soon as
   * it meets a '-' whose next character is the terminator.
   */
  method NameChars(s: string, p: nat) returns (r: Option<nat>)
    requires p <= |s|
    ensures r == if TrailingHyphen(s, p) then None else Some(RunEnd(s, p))
  {
    var q := p;
    while IsNameChar(At(s, q))
      invariant p <= q <= |s|
      invariant RunEnd(s, q) == RunEnd(s, p)
      invariant forall k | p <= k < q :: !(s[k] == '-' && At(s, k + 1) == '\0')
      decreases |s| - q
    {
      if At(s, q) == '-' && At(s, q + 1) == '\0' {
        assert RunEnd(s, q + 1) == q + 1;
        return None;
      }
      q := q + 1;
    }
    return Some(q);
  }

  /**
   * is_name_part: demands a letter at the cursor, advances over the letters
   * and then over the name characters that follow.
   */
  method NamePart(s: string, p: nat) returns (r: Option<nat>)
    requires p <= |s|
    ensures r == if !IsAlpha(At(s, p)) || TrailingHyphen(s, p) then None else Some(RunEnd(s, p))
  {
    if !IsAlpha(At(s, p)) {
      return None;
    }
    var q := p;
    while IsAlpha(At(s, q))
      invariant p <= q <= |s|
      invariant RunEnd(s, q) == RunEnd(s, p)
      invariant p < q ==> IsAlpha(s[q - 1])
      decreases |s| - q
    {
      q := q + 1;
    }
    r := NameChars(s, q);
  }

  /** A '.' followed by a good name part: the dotted run and its verdict are those of the rest. */
  lemma DotStep(s: string, p: nat)
    requires p < |s| && s[p] == '.'
    requires IsAlpha(At(s, p + 1)) && !TrailingHyphen(s, p + 1)
    ensures DottedEnd(s, p) == DottedEnd(s, RunEnd(s, p + 1))
    ensures DotsOk(s, p) <==> DotsOk(s, RunEnd(s, p + 1))
  {
  }

  /** A '.' not followed by a good name part spoils the dotted run. */
  lemma DotStepFails(s: string, p: nat)
    requires p < |s| && s[p] == '.'
    requires !IsAlpha(At(s, p + 1)) || TrailingHyphen(s, p + 1)
    ensures !DotsOk(s, p)
  {
  }

  /**
   * is_name_parts: consumes '.'-name-part continuations. At the terminator
   * or at any character other than '.' it succeeds without moving.
   */
  method NameParts(s: string, p: nat) returns (r: Option<nat>)
    requires p <= |s|
    ensures IsNameChar(At(s, p)) ==> r == Some(p)
    ensures !IsNameChar(At(s, p)) ==> r == if DotsOk(s, p) then Some(DottedEnd(s, p)) else None
    decreases |s| - p
  {
    if At(s, p) == '\0' {
      return Some(p);
    }
    if At(s, p) == '.' {
      var q := NamePart(s, p + 1);
      if q.None? {
        DotStepFails(s, p);
        return None;
      }
      DotStep(s, p);
      r := NameParts(s, q.value);
      return;
    }
    return Some(p);
  }

  /**
   * The local-part grammar: one or more name parts (a letter, then letters,
   * digits and '-') joined by single dots, not ending in '-'.
   */
  predicate LocalShape(t: string) {
    && |t| > 0
    && IsAlpha(t[0])
    && (forall k | 0 <= k < |t| :: IsDotNameChar(t[k]))
    && (forall k | 0 <= k < |t| && t[k] == '.' :: k + 1 < |t| && IsAlpha(t[k + 1]))
    && t[|t| - 1] != '-'
  }

  /** The domain grammar: the local-part grammar with at least two name parts. */
  predicate DomainShape(t: string) {
    LocalShape(t) && '.' in t
  }

  /** The grammar in terms of the cursor recognisers' specifications. */
  lemma LocalShapeCursor(s: string)
    requires NoNul(s)
    ensures var q := RunEnd(s, 0);
      LocalShape(s) <==> IsAlpha(At(s, 0)) && !TrailingHyphen(s, 0) && DotsOk(s, q) && DottedEnd(s, q) == |s|
  {
  }

  /** is_valid_local: a name part, its continuations, then the terminator. */
  method IsValidLocal(loc: string) returns (b: bool)
    requires NoNul(loc)
    ensures b <==> LocalShape(loc)
  {
    LocalShapeCursor(loc);
    var r := NamePart(loc, 0);
    if r.None? {
      return false;
    }
    var q := NameParts(loc, r.value);
    if q.None? {
      return false;
    }
    AtEnd(loc, q.value);
    if At(loc, q.value) != '\0' {
      return false;
    }
    return true;
  }

  /** is_valid_domain: a name part, a literal '.', a name part, its continuations, then the terminator. */
  method IsValidDomain(dom: string) returns (b: bool)
    requires NoNul(dom)
    ensures b <==> DomainShape(dom)
  {
    LocalShapeCursor(dom);
    var r := NamePart(dom, 0);
    if r.None? {
      return false;
    }
    var q := r.value;
    if At(dom, q) == '.' {
      var r2 := NamePart(dom, q + 1);
      if r2.None? {
        DotStepFails(dom, q);
        return false;
      }
      DotStep(dom, q);
      var r3 := NameParts(dom, r2.value);
      if r3.None? {
        return false;
      }
      q := r3.value;
    } else {
      assert !DomainShape(dom) by {
        if LocalShape(dom) {
          AtEnd(dom, q);
          assert q == |dom|;
        }
      }
      return false;
    }
    AtEnd(dom, q);
    return At(dom, q) == '\0';
  }
}
