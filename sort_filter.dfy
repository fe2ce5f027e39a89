/** `applySortFilter`: a stable sort built from the comparator and each
    record's original position, which the search then overrides. */
module SortFilter {
  import opened Users
  import opened Comparators
  import opened Search

  /** One entry of the index-paired array: a record and its position in the
      input. */
  datatype Tagged = Tagged(el: User, index: int)

  /** `array.map((el, index) => [el, index])`. */
  function Stabilize(users: seq<User>): (r: seq<Tagged>)
    ensures |r| == |users|
    ensures forall k :: 0 <= k < |r| ==> r[k].el == users[k] && r[k].index == k
    ensures Elements(r) == users
  {
    seq(|users|, i requires 0 <= i < |users| => Tagged(users[i], i))
  }

  /** `map((el) => el[0])`: the records, without their positions. */
  function Elements(ps: seq<Tagged>): seq<User> {
    seq(|ps|, k requires 0 <= k < |ps| => ps[k].el)
  }

  /** The positions the records came from. */
  function Indices(ps: seq<Tagged>): seq<int> {
    seq(|ps|, k requires 0 <= k < |ps| => ps[k].index)
  }

  /** The callback handed to `sort`: the comparator decides, and on a tie
      the difference of the original positions does. */
  function StableCompare(cmp: (User, User) -> int, p: Tagged, q: Tagged): (r: int)
    ensures r < 0 <==> cmp(p.el, q.el) < 0 || (cmp(p.el, q.el) == 0 && p.index < q.index)
    ensures r == 0 <==> cmp(p.el, q.el) == 0 && p.index == q.index
  {
    var order := cmp(p.el, q.el);
    if order != 0 then order else p.index - q.index
  }

  /** `p` belongs strictly before `q`. */
  predicate Before(cmp: (User, User) -> int, p: Tagged, q: Tagged) {
    StableCompare(cmp, p, q) < 0
  }

  lemma BeforeAsymmetric(cmp: (User, User) -> int, p: Tagged, q: Tagged)
    requires Consistent(cmp)
    requires Before(cmp, p, q)
    ensures !Before(cmp, q, p)
  {
  }

  /** "Not after" is transitive once the comparator is consistent. */
  lemma NotBeforeTransitive(cmp: (User, User) -> int, p: Tagged, q: Tagged, r: Tagged)
    requires Consistent(cmp)
    requires !Before(cmp, q, p) && !Before(cmp, r, q)
    ensures !Before(cmp, r, p)
  {
  }

  /** Each entry is not after its successor. */
  predicate AdjacentSorted(s: seq<Tagged>, cmp: (User, User) -> int) {
    forall k :: 0 < k < |s| ==> !Before(cmp, s[k], s[k - 1])
  }

  /** No entry is after a later one. */
  predicate SortedTagged(s: seq<Tagged>, cmp: (User, User) -> int) {
    forall k, l :: 0 <= k < l < |s| ==> !Before(cmp, s[l], s[k])
  }

  lemma {:induction false} AdjacentSortedIsSorted(s: seq<Tagged>, cmp: (User, User) -> int)
    requires Consistent(cmp)
    requires AdjacentSorted(s, cmp)
    ensures SortedTagged(s, cmp)
  {
    if |s| > 1 {
      var init := s[..|s| - 1];
      AdjacentSortedIsSorted(init, cmp);
      var n := |s| - 1;
      forall k | 0 <= k < n
        ensures !Before(cmp, s[n], s[k])
      {
        if k < n - 1 {
          assert !Before(cmp, init[n - 1], init[k]);
          NotBeforeTransitive(cmp, s[k], s[n - 1], s[n]);
        }
      }
    }
  }

  /** Insertion sort's state while entry `j` sinks: the first `i + 1`
      entries are in order with each neighbour except around `j`, and the
      neighbours of `j` are in order with each other. */
  predicate Sinking(s: seq<Tagged>, i: int, j: int, cmp: (User, User) -> int)
    requires 0 <= j <= i < |s|
  {
    && (forall k :: 0 < k < j ==> !Before(cmp, s[k], s[k - 1]))
    && (forall k :: j < k <= i ==> !Before(cmp, s[k], s[k - 1]))
    && (0 < j < i ==> !Before(cmp, s[j + 1], s[j - 1]))
  }

  /** Swapping the sinking entry with its left neighbour when it is before
      that neighbour keeps the state one position further left. */
  lemma SinkStep(s: seq<Tagged>, i: int, j: int, cmp: (User, User) -> int)
    requires Consistent(cmp)
    requires 0 < j <= i < |s| && Sinking(s, i, j, cmp)
    requires Before(cmp, s[j], s[j - 1])
    ensures Sinking(s[j - 1 := s[j]][j := s[j - 1]], i, j - 1, cmp)
  {
    BeforeAsymmetric(cmp, s[j], s[j - 1]);
  }

  /** Once the sinking entry is not before its left neighbour (or has
      reached the front), the first `i + 1` entries are in order. */
  lemma SinkDone(s: seq<Tagged>, i: int, j: int, cmp: (User, User) -> int)
    requires 0 <= j <= i < |s| && Sinking(s, i, j, cmp)
    requires j == 0 || !Before(cmp, s[j], s[j - 1])
    ensures AdjacentSorted(s[..i + 1], cmp)
  {
  }

  /** Swapping two neighbours keeps the entries. */
  lemma SwapKeepsMultiset<T>(s: seq<T>, j: int)
    requires 0 < j < |s|
    ensures multiset(s[j - 1 := s[j]][j := s[j - 1]]) == multiset(s)
  {
  }

  /** `stabilizedThis.sort(...)`, the engine's sort, modelled by an in-place
      insertion sort with the same callback. */
  method Sort(a: array<Tagged>, cmp: (User, User) -> int)
    requires Consistent(cmp)
    modifies a
    ensures multiset(a[..]) == multiset(old(a[..]))
    ensures SortedTagged(a[..], cmp)
  {
    var i := 0;
    while i < a.Length
      invariant 0 <= i <= a.Length
      invariant AdjacentSorted(a[..i], cmp)
      invariant multiset(a[..]) == multiset(old(a[..]))
    {
      var j := i;
      while j > 0 && Before(cmp, a[j], a[j - 1])
        invariant 0 <= j <= i
        invariant Sinking(a[..], i, j, cmp)
        invariant multiset(a[..]) == multiset(old(a[..]))
      {
        ghost var s := a[..];
        SinkStep(s, i, j, cmp);
        SwapKeepsMultiset(s, j);
        a[j - 1], a[j] := a[j], a[j - 1];
        assert a[..] == s[j - 1 := s[j]][j := s[j - 1]];
        j := j - 1;
      }
      SinkDone(a[..], i, j, cmp);
      i := i + 1;
    }
    assert a[..] == a[..a.Length];
    AdjacentSortedIsSorted(a[..], cmp);
  }

  /** `r` is `users` rearranged: its k-th record is the input's `idx[k]`-th,
      and no input position is used twice. */
  predicate Rearranges(r: seq<User>, idx: seq<int>, users: seq<User>) {
    && |r| == |users| && |idx| == |users|
    && (forall k :: 0 <= k < |r| ==> 0 <= idx[k] < |users| && r[k] == users[idx[k]])
    && (forall k, l :: 0 <= k < l < |idx| ==> idx[k] != idx[l])
  }

  /** No record is after a later one. */
  predicate SortedBy(r: seq<User>, cmp: (User, User) -> int) {
    forall k, l :: 0 <= k < l < |r| ==> cmp(r[k], r[l]) <= 0
  }

  /** Records that compare equal keep their original relative order. */
  predicate StableBy(r: seq<User>, idx: seq<int>, cmp: (User, User) -> int)
    requires |idx| == |r|
  {
    forall k, l :: 0 <= k < l < |r| && cmp(r[k], r[l]) == 0 ==> idx[k] < idx[l]
  }

  /** `r` is a stable sort of `users`, with `idx` saying where each record
      came from. */
  predicate StableSortOf(r: seq<User>, idx: seq<int>, users: seq<User>, cmp: (User, User) -> int) {
    Rearranges(r, idx, users) && SortedBy(r, cmp) && StableBy(r, idx, cmp)
  }

  /** The positions `[0, n)`. */
  function Range(n: nat): (r: set<int>)
    ensures forall v :: v in r <==> 0 <= v < n
    ensures |r| == n
  {
    if n == 0 then {} else Range(n - 1) + {n - 1}
  }

  /** The positions a sequence uses. */
  function Image(idx: seq<int>): (r: set<int>)
    ensures forall v :: v in r <==> v in idx
  {
    set k | 0 <= k < |idx| :: idx[k]
  }

  /** Distinct positions, as many as the sequence is long. */
  lemma {:induction false} DistinctImageSize(idx: seq<int>)
    requires forall k, l :: 0 <= k < l < |idx| ==> idx[k] != idx[l]
    ensures |Image(idx)| == |idx|
  {
    if idx != [] {
      var init, last := idx[..|idx| - 1], idx[|idx| - 1];
      DistinctImageSize(init);
      assert idx == init + [last];
      assert Image(idx) == Image(init) + {last};
      assert last !in Image(init);
    }
  }

  /** A rearrangement uses every input position (the pigeonhole principle). */
  lemma RearrangesIsOnto(r: seq<User>, idx: seq<int>, users: seq<User>)
    requires Rearranges(r, idx, users)
    ensures forall v :: 0 <= v < |users| ==> v in idx
  {
    var image, range := Image(idx), Range(|users|);
    DistinctImageSize(idx);
    forall v | 0 <= v < |users|
      ensures v in idx
    {
      if v !in image {
        assert image <= range - {v};
        assert |range - {v}| == |users| - 1;
        SubsetSize(image, range - {v});
        assert false;
      }
    }
  }

  lemma SubsetSize(a: set<int>, b: set<int>)
    requires a <= b
    ensures |a| <= |b|
  {
    assert b == (b - a) + a;
    assert (b - a) * a == {};
  }

  /** A stable sort has only one possible outcome: any two stable sorts of
      the same records with the same consistent comparator agree, so the
      result does not depend on the sorting algorithm. */
  lemma StableSortIsUnique(users: seq<User>, cmp: (User, User) -> int,
                           r1: seq<User>, idx1: seq<int>, r2: seq<User>, idx2: seq<int>)
    requires Consistent(cmp)
    requires StableSortOf(r1, idx1, users, cmp) && StableSortOf(r2, idx2, users, cmp)
    ensures idx1 == idx2 && r1 == r2
  {
    RearrangesIsOnto(r1, idx1, users);
    RearrangesIsOnto(r2, idx2, users);
    forall k | 0 <= k < |users|
      ensures idx1[k] == idx2[k]
    {
      SamePosition(users, cmp, r1, idx1, r2, idx2, k);
    }
  }

  lemma {:induction false} SamePosition(users: seq<User>, cmp: (User, User) -> int,
                                        r1: seq<User>, idx1: seq<int>, r2: seq<User>, idx2: seq<int>, k: nat)
    requires Consistent(cmp)
    requires StableSortOf(r1, idx1, users, cmp) && StableSortOf(r2, idx2, users, cmp)
    requires forall v :: 0 <= v < |users| ==> v in idx1 && v in idx2
    requires k < |users|
    ensures idx1[k] == idx2[k]
    decreases k
  {
    forall m | 0 <= m < k
      ensures idx1[m] == idx2[m]
    {
      SamePosition(users, cmp, r1, idx1, r2, idx2, m);
    }
    var a, b := idx1[k], idx2[k];
    if a != b {
      assert b in idx1 && a in idx2;
      var m1 :| 0 <= m1 < |idx1| && idx1[m1] == b;
      var m2 :| 0 <= m2 < |idx2| && idx2[m2] == a;
      assert false;
    }
  }

  function Reverse<T>(s: seq<T>): seq<T> {
    seq(|s|, k requires 0 <= k < |s| => s[|s| - 1 - k])
  }

  /** Toggling the direction reverses the table: when no two records share
      a value in the sort field, the descending stable sort is the ascending
      one read backwards. */
  lemma ToggleReverses(users: seq<User>, orderBy: string,
                       up: seq<User>, upIdx: seq<int>, down: seq<User>, downIdx: seq<int>)
    requires forall i, j :: 0 <= i < j < |users| ==> Field(users[i], orderBy) != Field(users[j], orderBy)
    requires StableSortOf(up, upIdx, users, GetComparator("asc", orderBy))
    requires StableSortOf(down, downIdx, users, GetComparator("desc", orderBy))
    ensures down == Reverse(up) && downIdx == Reverse(upIdx)
  {
    var asc, desc := GetComparator("asc", orderBy), GetComparator("desc", orderBy);
    var r, idx, n := Reverse(up), Reverse(upIdx), |up|;
    forall k, l | 0 <= k < l < n
      ensures desc(r[k], r[l]) < 0
    {
      AscendingReversesDescending("asc", orderBy, r[l], r[k]);
      var i, j := upIdx[n - 1 - k], upIdx[n - 1 - l];
      assert i != j;
      if i < j {
        assert Field(users[i], orderBy) != Field(users[j], orderBy);
      } else {
        assert Field(users[j], orderBy) != Field(users[i], orderBy);
      }
    }
    assert StableSortOf(r, idx, users, desc);
    GetComparatorConsistent("desc", orderBy);
    StableSortIsUnique(users, desc, r, idx, down, downIdx);
  }

  /** "Not after, then strictly before" is strictly before. */
  lemma NotAfterThenBefore(cmp: (User, User) -> int, a: User, b: User, c: User)
    requires Consistent(cmp)
    requires cmp(a, b) <= 0 && cmp(b, c) < 0
    ensures cmp(a, c) < 0
  {
  }

  /** The input positions whose records are strictly before `x`. */
  function Below(users: seq<User>, cmp: (User, User) -> int, x: User): (r: set<int>)
    ensures forall v :: v in r <==> 0 <= v < |users| && cmp(users[v], x) < 0
  {
    set v | 0 <= v < |users| && cmp(users[v], x) < 0
  }

  /** When entry `k` of a sorted rearrangement is strictly before `x`, so
      is every entry up to it. */
  lemma PrefixBelow(users: seq<User>, cmp: (User, User) -> int, r: seq<User>, idx: seq<int>, k: int, x: User)
    requires Consistent(cmp)
    requires Rearranges(r, idx, users) && SortedBy(r, cmp)
    requires 0 <= k < |users| && cmp(r[k], x) < 0
    ensures Image(idx[..k + 1]) <= Below(users, cmp, x)
  {
    forall v | v in Image(idx[..k + 1])
      ensures v in Below(users, cmp, x)
    {
      var m :| 0 <= m <= k && idx[m] == v;
      if m < k {
        NotAfterThenBefore(cmp, r[m], r[k], x);
      }
    }
  }

  /** Every record strictly before entry `k` of a sorted rearrangement
      stands before position `k` in it. */
  lemma BelowPrefix(users: seq<User>, cmp: (User, User) -> int, r: seq<User>, idx: seq<int>, k: int)
    requires Consistent(cmp)
    requires Rearranges(r, idx, users) && SortedBy(r, cmp)
    requires 0 <= k < |users|
    ensures Below(users, cmp, r[k]) <= Image(idx[..k])
  {
    RearrangesIsOnto(r, idx, users);
    forall v | v in Below(users, cmp, r[k])
      ensures v in Image(idx[..k])
    {
      assert v in idx;
      var m :| 0 <= m < |idx| && idx[m] == v;
      if m >= k {
        assert false;
      }
    }
  }

  /** In a sorted rearrangement, entry `k` is never strictly before the
      entry at position `k` of another sorted rearrangement: the records
      strictly before the latter would number more than `k` by the first
      and fewer by the second. */
  lemma NotStrictlyBefore(users: seq<User>, cmp: (User, User) -> int,
                          r1: seq<User>, idx1: seq<int>, r2: seq<User>, idx2: seq<int>, k: int)
    requires Consistent(cmp)
    requires Rearranges(r1, idx1, users) && SortedBy(r1, cmp)
    requires Rearranges(r2, idx2, users) && SortedBy(r2, cmp)
    requires 0 <= k < |users|
    ensures cmp(r1[k], r2[k]) >= 0
  {
    if cmp(r1[k], r2[k]) < 0 {
      var first, second, below := idx1[..k + 1], idx2[..k], Below(users, cmp, r2[k]);
      PrefixBelow(users, cmp, r1, idx1, k, r2[k]);
      BelowPrefix(users, cmp, r2, idx2, k);
      DistinctImageSize(first);
      DistinctImageSize(second);
      SubsetSize(Image(first), below);
      SubsetSize(below, Image(second));
      assert false;
    }
  }

  /** Two sorted rearrangements of the same records agree position by
      position up to ties: the entries at each position compare equal. */
  lemma SortedRearrangementsAgree(users: seq<User>, cmp: (User, User) -> int,
                                  r1: seq<User>, idx1: seq<int>, r2: seq<User>, idx2: seq<int>)
    requires Consistent(cmp)
    requires Rearranges(r1, idx1, users) && SortedBy(r1, cmp)
    requires Rearranges(r2, idx2, users) && SortedBy(r2, cmp)
    ensures forall k :: 0 <= k < |users| ==> cmp(r1[k], r2[k]) == 0
  {
    forall k | 0 <= k < |users|
      ensures cmp(r1[k], r2[k]) == 0
    {
      NotStrictlyBefore(users, cmp, r1, idx1, r2, idx2, k);
      NotStrictlyBefore(users, cmp, r2, idx2, r1, idx1, k);
    }
  }

  /** The ascending sort read backwards is a descending-sorted
      rearrangement of the same records. */
  lemma ReversedAscendingIsDescending(users: seq<User>, orderBy: string, up: seq<User>, upIdx: seq<int>)
    requires Rearranges(up, upIdx, users) && SortedBy(up, GetComparator("asc", orderBy))
    ensures Rearranges(Reverse(up), Reverse(upIdx), users)
    ensures SortedBy(Reverse(up), GetComparator("desc", orderBy))
  {
    var r, n := Reverse(up), |up|;
    forall k, l | 0 <= k < l < n
      ensures GetComparator("desc", orderBy)(r[k], r[l]) <= 0
    {
      AscendingReversesDescending("asc", orderBy, r[l], r[k]);
    }
  }

  /** Toggling the direction reverses the sort column, ties included: the
      descending stable sort shows at each row the key the ascending one
      shows at the mirrored row. Only records with equal keys may keep
      their input order in both. */
  lemma ToggleReversesKeys(users: seq<User>, orderBy: string,
                           up: seq<User>, upIdx: seq<int>, down: seq<User>, downIdx: seq<int>)
    requires StableSortOf(up, upIdx, users, GetComparator("asc", orderBy))
    requires StableSortOf(down, downIdx, users, GetComparator("desc", orderBy))
    ensures |down| == |up|
    ensures forall k :: 0 <= k < |up| ==> Field(down[k], orderBy) == Field(up[|up| - 1 - k], orderBy)
  {
    var desc := GetComparator("desc", orderBy);
    var r := Reverse(up);
    ReversedAscendingIsDescending(users, orderBy, up, upIdx);
    GetComparatorConsistent("desc", orderBy);
    SortedRearrangementsAgree(users, desc, r, Reverse(upIdx), down, downIdx);
    forall k | 0 <= k < |up|
      ensures Field(down[k], orderBy) == Field(up[|up| - 1 - k], orderBy)
    {
      assert desc(r[k], down[k]) == 0;
    }
  }

  lemma InStabilize(users: seq<User>, t: Tagged)
    requires t in Stabilize(users)
    ensures 0 <= t.index < |users| && t.el == users[t.index]
  {
  }

  predicate DistinctIndices(s: seq<Tagged>) {
    forall k, l :: 0 <= k < l < |s| ==> s[k].index != s[l].index
  }

  /** With distinct positions, no entry occurs twice. */
  lemma {:induction false} AtMostOnce(s: seq<Tagged>, x: Tagged)
    requires DistinctIndices(s)
    ensures multiset(s)[x] <= 1
  {
    if s != [] {
      var init, last := s[..|s| - 1], s[|s| - 1];
      assert s == init + [last];
      AtMostOnce(init, x);
      if last == x {
        assert forall k :: 0 <= k < |init| ==> init[k] != x by {
          forall k | 0 <= k < |init|
            ensures init[k].index != x.index
          {
            assert s[k] == init[k];
          }
        }
        assert x !in init;
      }
    }
  }

  /** A rearrangement of the index-paired array still has each position
      once. */
  lemma RearrangedKeepsIndicesDistinct(ps: seq<Tagged>, users: seq<User>)
    requires multiset(ps) == multiset(Stabilize(users))
    ensures DistinctIndices(ps)
  {
    forall k, l | 0 <= k < l < |ps|
      ensures ps[k].index != ps[l].index
    {
      if ps[k].index == ps[l].index {
        assert ps[k] in multiset(ps) && ps[l] in multiset(ps);
        InStabilize(users, ps[k]);
        InStabilize(users, ps[l]);
        var x := ps[k];
        assert ps == ps[..l] + ps[l..];
        assert x in ps[..l] && x in ps[l..];
        assert multiset(ps)[x] == multiset(ps[..l])[x] + multiset(ps[l..])[x];
        AtMostOnce(Stabilize(users), x);
        assert false;
      }
    }
  }

  lemma ElementsOfConcat(p: seq<Tagged>, q: seq<Tagged>)
    ensures Elements(p + q) == Elements(p) + Elements(q)
  {
  }

  /** Taking out the entry at position `j`. */
  lemma ElementsWithout(qs: seq<Tagged>, j: int)
    requires 0 <= j < |qs|
    ensures multiset(qs) == multiset(qs[..j] + qs[j + 1..]) + multiset{qs[j]}
    ensures multiset(Elements(qs)) == multiset(Elements(qs[..j] + qs[j + 1..])) + multiset{qs[j].el}
  {
    var front, back := qs[..j], qs[j + 1..];
    assert qs == front + [qs[j]] + back;
    ElementsOfConcat(front + [qs[j]], back);
    ElementsOfConcat(front, [qs[j]]);
    ElementsOfConcat(front, back);
  }

  lemma MultisetCancel<T>(a: multiset<T>, b: multiset<T>, x: T)
    requires a + multiset{x} == b + multiset{x}
    ensures a == b
  {
    forall y
      ensures a[y] == b[y]
    {
      assert (a + multiset{x})[y] == (b + multiset{x})[y];
    }
  }

  /** Rearranging the pairs rearranges the records. */
  lemma {:induction false} ElementsKeepMultiset(ps: seq<Tagged>, qs: seq<Tagged>)
    requires multiset(ps) == multiset(qs)
    ensures multiset(Elements(ps)) == multiset(Elements(qs))
    decreases |ps|
  {
    if ps == [] {
      assert |qs| == |multiset(qs)| == 0;
    } else {
      var x := ps[0];
      assert x in multiset(qs);
      var j :| 0 <= j < |qs| && qs[j] == x;
      var rest, tail := qs[..j] + qs[j + 1..], ps[..0] + ps[1..];
      ElementsWithout(qs, j);
      ElementsWithout(ps, 0);
      MultisetCancel(multiset(tail), multiset(rest), x);
      ElementsKeepMultiset(tail, rest);
    }
  }

  /** What the sort leaves, stripped of positions, is a stable sort of the
      input and a rearrangement of it. */
  lemma SortedPairsGiveStableSort(users: seq<User>, cmp: (User, User) -> int, ps: seq<Tagged>)
    requires Consistent(cmp)
    requires multiset(ps) == multiset(Stabilize(users))
    requires SortedTagged(ps, cmp)
    ensures StableSortOf(Elements(ps), Indices(ps), users, cmp)
    ensures multiset(Elements(ps)) == multiset(users)
  {
    assert |ps| == |multiset(ps)| == |multiset(Stabilize(users))| == |users|;
    var r, idx := Elements(ps), Indices(ps);
    forall k | 0 <= k < |ps|
      ensures 0 <= idx[k] < |users| && r[k] == users[idx[k]]
    {
      assert ps[k] in multiset(ps);
      InStabilize(users, ps[k]);
    }
    RearrangedKeepsIndicesDistinct(ps, users);
    forall k, l | 0 <= k < l < |r|
      ensures cmp(r[k], r[l]) <= 0
      ensures cmp(r[k], r[l]) == 0 ==> idx[k] < idx[l]
    {
      assert !Before(cmp, ps[l], ps[k]);
      assert cmp(r[k], r[l]) < 0 <==> cmp(r[l], r[k]) > 0;
      assert cmp(r[l], r[k]) < 0 <==> cmp(r[k], r[l]) > 0;
    }
    ElementsKeepMultiset(ps, Stabilize(users));
    assert Elements(Stabilize(users)) == users;
  }

  /** lodash's `filter(array, (_user) => doSearch([...], query))`: the
      records for which `doSearch` answers true, in input order. */
  method Filter(users: seq<User>, query: string) returns (r: seq<User>)
    ensures r == Matching(users, query)
  {
    r := [];
    for i := 0 to |users|
      invariant r == Matching(users[..i], query)
    {
      var keep := DoSearch(SearchFields(users[i]), query);
      assert users[..i + 1][..i] == users[..i];
      MatchingSnoc(users[..i + 1], query);
      if keep {
        r := r + [users[i]];
      }
    }
    assert users[..|users|] == users;
  }

  /** `applySortFilter`: sorts the index-paired records; with a non-empty
      search text returns the matching records in input order instead, so
      the sort has no effect; otherwise returns the sorted records. */
  method ApplySortFilter(users: seq<User>, comparator: (User, User) -> int, query: string)
    returns (r: seq<User>, ghost idx: seq<int>)
    requires Consistent(comparator)
    ensures query != "" ==> r == Matching(users, query)
    ensures query == "" ==> multiset(r) == multiset(users)
    ensures query == "" ==> StableSortOf(r, idx, users, comparator)
  {
    var stabilized := new Tagged[|users|](i requires 0 <= i < |users| => Tagged(users[i], i));
    assert stabilized[..] == Stabilize(users);
    Sort(stabilized, comparator);
    if query != "" {
      r := Filter(users, query);
      idx := [];
      return;
    }
    var sorted := stabilized[..];
    r := Elements(sorted);
    idx := Indices(sorted);
    SortedPairsGiveStableSort(users, comparator, sorted);
  }
}
