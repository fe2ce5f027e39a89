/** The search box: `doSearch` over a record's text fields and the filter
    `applySortFilter` applies when the search text is not empty. */
module Search {
  import opened Text
  import opened Users

  /** One field value matches the search text: the lowered text occurs in
      the lowered value. */
  predicate ValueMatches(value: string, query: string) {
    Occurs(Lower(value), Lower(query))
  }

  /** Some value of the list matches the search text. */
  predicate AnyMatches(values: seq<string>, query: string) {
    exists i :: 0 <= i < |values| && ValueMatches(values[i], query)
  }

  /** The record shows up under the search text. */
  predicate UserMatches(u: User, query: string) {
    AnyMatches(SearchFields(u), query)
  }

  /** `doSearch`: tries the values in turn and answers true at the first one
      whose lowered form contains the lowered search text. */
  method DoSearch(values: seq<string>, query: string) returns (found: bool)
    ensures found <==> AnyMatches(values, query)
    ensures values == [] ==> !found
  {
    for i := 0 to |values|
      invariant forall j :: 0 <= j < i ==> !ValueMatches(values[j], query)
    {
      if IndexOf(Lower(values[i]), Lower(query)) != -1 {
        return true;
      }
    }
    return false;
  }

  /** The search ignores case on both sides: lowering the value or the text
      first changes nothing. */
  lemma MatchIgnoresCase(value: string, query: string)
    ensures ValueMatches(value, query) <==> ValueMatches(Lower(value), Lower(query))
  {
    LowerIdempotent(value);
    LowerIdempotent(query);
  }

  /** An empty search text matches every value. */
  lemma EmptyQueryMatchesEveryValue(value: string)
    ensures ValueMatches(value, "")
  {
    assert OccursAt(Lower(value), Lower(""), 0);
  }

  /** The records the search keeps, in their original order: lodash's
      `filter` with `doSearch` over the four text fields. */
  function Matching(users: seq<User>, query: string): (r: seq<User>)
    ensures |r| <= |users|
    ensures forall u :: u in r <==> u in users && UserMatches(u, query)
  {
    if users == [] then []
    else
      var init := Matching(users[..|users| - 1], query);
      var last := users[|users| - 1];
      assert users == users[..|users| - 1] + [last];
      if UserMatches(last, query) then init + [last] else init
  }

  /** The positions of the records the search keeps. */
  ghost function MatchPositions(users: seq<User>, query: string): (idx: seq<int>)
    ensures forall k :: 0 <= k < |idx| ==> 0 <= idx[k] < |users|
    ensures forall i :: 0 <= i < |users| ==> (i in idx <==> UserMatches(users[i], query))
  {
    if users == [] then []
    else
      var init := MatchPositions(users[..|users| - 1], query);
      if UserMatches(users[|users| - 1], query) then init + [|users| - 1] else init
  }

  /** One step of the filter: the last record is kept exactly when it
      matches, and its position with it. */
  lemma MatchingSnoc(users: seq<User>, query: string)
    requires users != []
    ensures var prefix, last := users[..|users| - 1], users[|users| - 1];
      && Matching(users, query) == (if UserMatches(last, query) then Matching(prefix, query) + [last] else Matching(prefix, query))
      && MatchPositions(users, query) ==
        (if UserMatches(last, query) then MatchPositions(prefix, query) + [|users| - 1] else MatchPositions(prefix, query))
  {
  }

  /** The matching positions are listed in increasing order. */
  lemma {:induction false} MatchPositionsIncrease(users: seq<User>, query: string)
    ensures forall k, l :: 0 <= k < l < |MatchPositions(users, query)| ==>
      MatchPositions(users, query)[k] < MatchPositions(users, query)[l]
  {
    if users != [] {
      MatchPositionsIncrease(users[..|users| - 1], query);
      MatchingSnoc(users, query);
    }
  }

  /** The i-th kept record is the record at the i-th matching position. */
  lemma {:induction false} MatchingAtPositions(users: seq<User>, query: string)
    ensures |Matching(users, query)| == |MatchPositions(users, query)|
    ensures forall k :: 0 <= k < |Matching(users, query)| ==>
      Matching(users, query)[k] == users[MatchPositions(users, query)[k]]
  {
    if users != [] {
      var prefix, last := users[..|users| - 1], users[|users| - 1];
      MatchingAtPositions(prefix, query);
      MatchingSnoc(users, query);
      var m, p := Matching(prefix, query), MatchPositions(prefix, query);
      var r, q := Matching(users, query), MatchPositions(users, query);
      forall k | 0 <= k < |r|
        ensures r[k] == users[q[k]]
      {
        if k < |m| {
          assert r[k] == m[k] == prefix[p[k]];
        }
      }
    }
  }

  /** The filter keeps the matching records as a subsequence: the i-th kept
      record is the one at the i-th matching position, and those positions
      increase, so the original order survives. */
  lemma MatchingIsOrderedSubsequence(users: seq<User>, query: string)
    ensures |Matching(users, query)| == |MatchPositions(users, query)|
    ensures forall k :: 0 <= k < |Matching(users, query)| ==>
      Matching(users, query)[k] == users[MatchPositions(users, query)[k]]
    ensures forall k, l :: 0 <= k < l < |MatchPositions(users, query)| ==>
      MatchPositions(users, query)[k] < MatchPositions(users, query)[l]
  {
    MatchingAtPositions(users, query);
    MatchPositionsIncrease(users, query);
  }
}
