/** The three-way comparators the table sorts with: `descendingComparator`
    and `getComparator`. A comparator returns a negative number when its
    first argument belongs before its second. */
module Comparators {
  import opened Text
  import opened Users

  /** `a` has a strictly smaller value than `b` in field `key`; false when
      the field is undefined, as `undefined < undefined` is. */
  predicate KeyLess(a: User, b: User, key: string) {
    Field(a, key).Some? && Field(b, key).Some? && Less(Field(a, key).value, Field(b, key).value)
  }

  /** Orders by field `orderBy`, largest value first. */
  function DescendingComparator(a: User, b: User, orderBy: string): (r: int)
    ensures -1 <= r <= 1
    ensures r < 0 <==> KeyLess(b, a, orderBy)
    ensures r > 0 <==> KeyLess(a, b, orderBy)
    ensures r == 0 <==> Field(a, orderBy) == Field(b, orderBy)
  {
    match (Field(a, orderBy), Field(b, orderBy))
    case (Some(x), Some(y)) =>
      LessTrichotomy(x, y);
      LessIrreflexive(x);
      if Less(y, x) then
        LessAsymmetric(y, x);
        -1
      else if Less(x, y) then 1
      else 0
    case _ => 0
  }

  /** The comparator for a sort direction: `"desc"` puts larger values
      first, every other direction puts smaller values first. Records that
      agree on the field compare equal either way. */
  function GetComparator(order: string, orderBy: string): (cmp: (User, User) -> int)
    ensures forall a, b :: cmp(a, b) < 0 <==>
      (if order == "desc" then KeyLess(b, a, orderBy) else KeyLess(a, b, orderBy))
    ensures forall a, b :: cmp(a, b) == 0 <==> Field(a, orderBy) == Field(b, orderBy)
  {
    if order == "desc" then
      (a, b) => DescendingComparator(a, b, orderBy)
    else
      (a, b) => -DescendingComparator(a, b, orderBy)
  }

  /** What a sort needs of its comparator (the "consistent comparator" of
      `Array.prototype.sort`): swapping the arguments flips the sign, and
      "not after" is transitive. */
  ghost predicate Consistent(cmp: (User, User) -> int) {
    && (forall a, b :: cmp(a, b) < 0 <==> cmp(b, a) > 0)
    && (forall a, b, c :: cmp(a, b) <= 0 && cmp(b, c) <= 0 ==> cmp(a, c) <= 0)
  }

  /** Swapping the records negates the descending comparator. */
  lemma DescendingComparatorAntisymmetric(a: User, b: User, orderBy: string)
    ensures DescendingComparator(a, b, orderBy) == -DescendingComparator(b, a, orderBy)
  {
  }

  /** `"desc"` uses the descending comparator as it is; any other
      direction is its exact negation, which is the same as comparing the two
      records the other way round. */
  lemma AscendingReversesDescending(order: string, orderBy: string, a: User, b: User)
    requires order != "desc"
    ensures GetComparator("desc", orderBy)(a, b) == DescendingComparator(a, b, orderBy)
    ensures GetComparator(order, orderBy)(a, b) == -DescendingComparator(a, b, orderBy)
    ensures GetComparator(order, orderBy)(a, b) == GetComparator("desc", orderBy)(b, a)
  {
    DescendingComparatorAntisymmetric(a, b, orderBy);
  }

  /** Every comparator `getComparator` builds is consistent, so sorting with
      it is well defined. */
  lemma GetComparatorConsistent(order: string, orderBy: string)
    ensures Consistent(GetComparator(order, orderBy))
  {
    var cmp := GetComparator(order, orderBy);
    forall a, b, c | cmp(a, b) <= 0 && cmp(b, c) <= 0
      ensures cmp(a, c) <= 0
    {
      if Field(a, orderBy).Some? {
        var x, y, z := Field(a, orderBy).value, Field(b, orderBy).value, Field(c, orderBy).value;
        if order == "desc" {
          NotLessTransitive(z, y, x);
        } else {
          NotLessTransitive(x, y, z);
        }
      }
    }
  }
}
