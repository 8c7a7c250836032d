/**
 * The two string operations the movie filters use: lower-casing
 * (`String.prototype.toLowerCase`) and substring search
 * (`String.prototype.includes`). Lower-casing is modelled on ASCII only.
 */
module Text {

  predicate IsUpper(c: char) {
    'A' <= c <= 'Z'
  }

  /** Lower-cases one ASCII letter; every other character is kept. */
  function LowerChar(c: char): (r: char)
    ensures !IsUpper(r)
    ensures r != c ==> IsUpper(c)
    ensures IsUpper(c) ==> 'a' <= r <= 'z' && r as int - 'a' as int == c as int - 'A' as int
  {
    if IsUpper(c) then (c as int + 32) as char else c
  }

  /** `s.toLowerCase()`, character by character. */
  function ToLower(s: string): (r: string)
    ensures |r| == |s|
    ensures forall i :: 0 <= i < |s| ==> r[i] == LowerChar(s[i])
  {
    if s == [] then [] else [LowerChar(s[0])] + ToLower(s[1..])
  }

  /** `sub` occurs in `s` starting at position `i`. */
  ghost predicate OccursAt(sub: string, s: string, i: int) {
    0 <= i && i + |sub| <= |s| && s[i..i + |sub|] == sub
  }

  /** `sub` occurs somewhere in `s` (the empty string occurs everywhere). */
  ghost predicate Occurs(sub: string, s: string) {
    exists i :: OccursAt(sub, s, i)
  }

  /** `s.includes(sub)`: tries each starting position from the left. */
  function Includes(s: string, sub: string): (r: bool)
    ensures r <==> Occurs(sub, s)
    decreases |s|
  {
    if |sub| <= |s| && s[..|sub|] == sub then
      assert OccursAt(sub, s, 0);
      true
    else if s == [] then
      false
    else
      OccursShift(sub, s);
      Includes(s[1..], sub)
  }

  /** When `sub` is not a prefix of a non-empty `s`, it occurs in `s` exactly when it occurs in `s[1..]`. */
  lemma OccursShift(sub: string, s: string)
    requires s != []
    requires !(|sub| <= |s| && s[..|sub|] == sub)
    ensures Occurs(sub, s) <==> Occurs(sub, s[1..])
  {
    if Occurs(sub, s) {
      var i :| OccursAt(sub, s, i);
      assert i != 0;
      assert s[1..][i - 1..i - 1 + |sub|] == s[i..i + |sub|];
      assert OccursAt(sub, s[1..], i - 1);
    }
    if Occurs(sub, s[1..]) {
      var i :| OccursAt(sub, s[1..], i);
      assert s[i + 1..i + 1 + |sub|] == s[1..][i..i + |sub|];
      assert OccursAt(sub, s, i + 1);
    }
  }

  /** Case-insensitive containment as the list filters use it: both sides lower-cased, then `includes`. */
  function ContainsIgnoringCase(s: string, query: string): (r: bool)
    ensures r <==> Occurs(ToLower(query), ToLower(s))
  {
    Includes(ToLower(s), ToLower(query))
  }

  /** `t` is `s` lower-cased when they agree character by character under `LowerChar`. */
  lemma LowerEach(s: string, t: string)
    requires |s| == |t| && forall i :: 0 <= i < |s| ==> LowerChar(s[i]) == t[i]
    ensures ToLower(s) == t
  {
  }

  /** A query is found ignoring case when its lower-cased form occurs in the lower-cased text. */
  lemma FoundIgnoringCase(s: string, query: string, lowered: string, loweredQuery: string, i: int)
    requires |s| == |lowered| && forall k :: 0 <= k < |s| ==> LowerChar(s[k]) == lowered[k]
    requires |query| == |loweredQuery| && forall k :: 0 <= k < |query| ==> LowerChar(query[k]) == loweredQuery[k]
    requires OccursAt(loweredQuery, lowered, i)
    ensures ContainsIgnoringCase(s, query)
  {
    LowerEach(s, lowered);
    LowerEach(query, loweredQuery);
  }

  /** A mixed-case query is found in a title whatever the case of either: "MaTrIx" in "The Matrix". */
  lemma MixedCaseQueryFound()
    ensures ContainsIgnoringCase("The Matrix", "MaTrIx")
  {
    var t := "the matrix";
    assert t[4..10] == "matrix";
    FoundIgnoringCase("The Matrix", "MaTrIx", t, "matrix", 4);
  }

  /** A query is not found ignoring case when the first letter of its lower-cased form is nowhere in the lower-cased text. */
  lemma AbsentIgnoringCase(s: string, query: string, lowered: string, loweredQuery: string)
    requires |s| == |lowered| && forall k :: 0 <= k < |s| ==> LowerChar(s[k]) == lowered[k]
    requires |query| == |loweredQuery| && forall k :: 0 <= k < |query| ==> LowerChar(query[k]) == loweredQuery[k]
    requires loweredQuery != [] && forall k :: 0 <= k < |lowered| ==> lowered[k] != loweredQuery[0]
    ensures !ContainsIgnoringCase(s, query)
  {
    LowerEach(s, lowered);
    LowerEach(query, loweredQuery);
    forall i ensures !OccursAt(loweredQuery, lowered, i) {
      if 0 <= i && i + |loweredQuery| <= |lowered| {
        assert lowered[i..i + |loweredQuery|][0] == lowered[i];
      }
    }
  }

  /** The query "MaTrIx" is not found in the title "Inception", which has no 'm' in any case. */
  lemma MixedCaseQueryAbsent()
    ensures !ContainsIgnoringCase("Inception", "MaTrIx")
  {
    AbsentIgnoringCase("Inception", "MaTrIx", "inception", "matrix");
  }

  /** Lower-casing is idempotent, so a query that is already lower case is compared as it is. */
  lemma {:induction false} ToLowerIdempotent(s: string)
    ensures ToLower(ToLower(s)) == ToLower(s)
  {
    if s != [] {
      ToLowerIdempotent(s[1..]);
    }
  }
}
