/**
 * The grammar of local parts and domains read as a list of name parts:
 * a checked string is exactly its dot-separated segments joined by '.',
 * each segment a name part, the whole not ending in '-'.
 */
module Labels {
  import opened CType
  import opened NameGrammar

  /** A name part: a letter, then letters, digits and '-'. */
  predicate IsNamePart(l: string) {
    |l| > 0 && IsAlpha(l[0]) && forall k | 0 <= k < |l| :: IsNameChar(l[k])
  }

  predicate AllNameParts(ls: seq<string>) {
    forall j | 0 <= j < |ls| :: IsNamePart(ls[j])
  }

  /** The segments joined by single dots. */
  function JoinDots(ls: seq<string>): string
    requires |ls| > 0
  {
    if |ls| == 1 then ls[0] else ls[0] + "." + JoinDots(ls[1..])
  }

  /** The segments of `t` between its dots. */
  function SplitDots(t: string): (ls: seq<string>)
    ensures |ls| > 0
    ensures JoinDots(ls) == t
    ensures forall j | 0 <= j < |ls| :: '.' !in ls[j]
    decreases |t|
  {
    var i := IndexOf(t, '.');
    if i == |t| then
      assert '.' !in t;
      [t]
    else
      var rest := SplitDots(t[i + 1..]);
      assert t == t[..i] + "." + t[i + 1..];
      [t[..i]] + rest
  }

  /** Splitting what was joined gives back the segments. */
  lemma {:induction false} SplitJoin(ls: seq<string>)
    requires |ls| > 0
    requires forall j | 0 <= j < |ls| :: '.' !in ls[j]
    ensures SplitDots(JoinDots(ls)) == ls
  {
    if |ls| > 1 {
      SplitJoin(ls[1..]);
      var t := JoinDots(ls);
      assert t == ls[0] + "." + JoinDots(ls[1..]);
      assert t[|ls[0]|] == '.';
      assert IndexOf(t, '.') == |ls[0]|;
      assert t[|ls[0]| + 1..] == JoinDots(ls[1..]);
      assert t[..|ls[0]|] == ls[0];
    }
  }

  /** The first segment of a shaped string and the rest after its first dot. */
  lemma LocalShapeDot(t: string, i: nat)
    requires i < |t| && t[i] == '.' && '.' !in t[..i]
    ensures LocalShape(t) <==> IsNamePart(t[..i]) && LocalShape(t[i + 1..])
  {
  }

  /**
   * A string passes the local-part grammar exactly when it is non-empty,
   * all its dot-separated segments are name parts, and it does not end in '-'.
   */
  lemma {:induction false} LocalShapeSegments(t: string)
    ensures LocalShape(t) <==> |t| > 0 && AllNameParts(SplitDots(t)) && t[|t| - 1] != '-'
    decreases |t|
  {
    var i := IndexOf(t, '.');
    if i == |t| {
      assert SplitDots(t) == [t];
      assert '.' !in t;
    } else {
      var rest := t[i + 1..];
      assert '.' !in t[..i];
      LocalShapeDot(t, i);
      LocalShapeSegments(rest);
      var parts := SplitDots(rest);
      assert SplitDots(t) == [t[..i]] + parts;
      assert AllNameParts([t[..i]] + parts) <==> IsNamePart(t[..i]) && AllNameParts(parts) by {
        assert forall j | 0 <= j < |parts| :: ([t[..i]] + parts)[j + 1] == parts[j];
      }
      if |rest| > 0 {
        assert rest[|rest| - 1] == t[|t| - 1];
      }
    }
  }

  /** A domain has at least two segments. */
  lemma DomainSegments(t: string)
    ensures DomainShape(t) <==> |t| > 0 && AllNameParts(SplitDots(t)) && t[|t| - 1] != '-' && |SplitDots(t)| >= 2
  {
    LocalShapeSegments(t);
    var i := IndexOf(t, '.');
    if i < |t| {
      assert t[i] in t;
    }
  }

  /** Joining name parts with dots, not ending in '-', gives a local part. */
  lemma JoinedIsLocal(ls: seq<string>)
    requires |ls| > 0 && AllNameParts(ls)
    requires var t := JoinDots(ls); t[|t| - 1] != '-'
    ensures LocalShape(JoinDots(ls))
    ensures |ls| >= 2 ==> DomainShape(JoinDots(ls))
  {
  }
}
