/** Ordered listings of rows. The store returns the rows of a query in the
    order of an `orderBy` column; rows that tie on that column come back in
    an order the store does not specify, which this model fixes as
    ascending id. */
module Ordering {

  /** Row `a` may be listed before row `b`: both are ranked, and `a` has a
      smaller rank, or the same rank and an id no larger. */
  predicate Before(rank: map<int, int>, a: int, b: int) {
    a in rank && b in rank && (rank[a] < rank[b] || (rank[a] == rank[b] && a <= b))
  }

  lemma BeforeTotal(rank: map<int, int>, a: int, b: int)
    requires a in rank && b in rank
    ensures Before(rank, a, b) || Before(rank, b, a)
  {
  }

  lemma BeforeTransitive(rank: map<int, int>, a: int, b: int, c: int)
    requires Before(rank, a, b) && Before(rank, b, c)
    ensures Before(rank, a, c)
  {
  }

  lemma Element(ids: set<int>) returns (y: int)
    requires ids != {}
    ensures y in ids
  {
    if forall x: int :: x !in ids {
      assert false;
    }
    var x: int :| x in ids;
    y := x;
  }

  /** Every non-empty set of ranked rows has a row that may be listed
      before all the others. */
  lemma {:induction false} FirstExists(ids: set<int>, rank: map<int, int>)
    requires ids != {} && ids <= rank.Keys
    ensures exists m :: m in ids && forall x :: x in ids ==> Before(rank, m, x)
    decreases |ids|
  {
    var y := Element(ids);
    if ids == {y} {
      assert Before(rank, y, y);
    } else {
      FirstExists(ids - {y}, rank);
      var m :| m in ids - {y} && forall x :: x in ids - {y} ==> Before(rank, m, x);
      BeforeTotal(rank, m, y);
      if Before(rank, m, y) {
        assert forall x :: x in ids ==> Before(rank, m, x);
      } else {
        forall x | x in ids ensures Before(rank, y, x) {
          if x != y {
            BeforeTransitive(rank, y, m, x);
          }
        }
      }
    }
  }

  /** The row listed first. Ranks tie-broken by id order the rows totally, so
      it is unique. */
  function First(ids: set<int>, rank: map<int, int>): (m: int)
    requires ids != {} && ids <= rank.Keys
    ensures m in ids && forall x :: x in ids ==> Before(rank, m, x)
  {
    FirstExists(ids, rank);
    var m :| m in ids && forall x :: x in ids ==> Before(rank, m, x);
    m
  }

  /** The rows of `ids` in listing order. */
  function SortedBy(ids: set<int>, rank: map<int, int>): (r: seq<int>)
    requires ids <= rank.Keys
    ensures |r| == |ids|
    ensures forall x :: x in r <==> x in ids
    ensures forall i, j :: 0 <= i < j < |r| ==> r[i] != r[j]
    ensures forall i, j :: 0 <= i < j < |r| ==> Before(rank, r[i], r[j])
    decreases |ids|
  {
    if ids == {} then []
    else
      var m := First(ids, rank);
      var rest := SortedBy(ids - {m}, rank);
      ConsSorted(rank, ids, m, rest);
      [m] + rest
  }

  /** Putting the first row in front of a sorted listing of the others gives
      a sorted listing without repeats. */
  lemma ConsSorted(rank: map<int, int>, ids: set<int>, m: int, rest: seq<int>)
    requires ids <= rank.Keys && m in ids && forall x :: x in ids ==> Before(rank, m, x)
    requires forall x :: x in rest <==> x in ids - {m}
    requires forall i, j :: 0 <= i < j < |rest| ==> rest[i] != rest[j]
    requires forall i, j :: 0 <= i < j < |rest| ==> Before(rank, rest[i], rest[j])
    ensures forall i, j :: 0 <= i < j < |[m] + rest| ==> ([m] + rest)[i] != ([m] + rest)[j]
    ensures forall i, j :: 0 <= i < j < |[m] + rest| ==> Before(rank, ([m] + rest)[i], ([m] + rest)[j])
  {
    var r := [m] + rest;
    forall i, j | 0 <= i < j < |r| ensures r[i] != r[j] && Before(rank, r[i], r[j]) {
      assert r[j] == rest[j - 1] && rest[j - 1] in rest;
      if i > 0 {
        assert r[i] == rest[i - 1];
      }
    }
  }

  /** The position of `x` in `rows`. */
  function IndexOf(rows: seq<int>, x: int): (i: nat)
    requires x in rows
    ensures i < |rows| && rows[i] == x
  {
    if rows[0] == x then 0 else 1 + IndexOf(rows[1..], x)
  }

  /** `rows.slice(skip, skip + take)`: the rows from position `skip`, at most
      `take` of them. */
  function Slice(rows: seq<int>, skip: nat, take: nat): (r: seq<int>)
    ensures |r| <= take
    ensures skip >= |rows| ==> r == []
    ensures skip < |rows| ==> |r| == (if skip + take <= |rows| then take else |rows| - skip)
    ensures forall i :: 0 <= i < |r| ==> skip + i < |rows| && r[i] == rows[skip + i]
  {
    if skip >= |rows| then []
    else if skip + take >= |rows| then rows[skip..]
    else rows[skip..skip + take]
  }

  /** A slice of a listing without repeats has none either, and holds only
      rows of the listing. */
  lemma SliceOfDistinct(rows: seq<int>, skip: nat, take: nat)
    requires forall a, b :: 0 <= a < b < |rows| ==> rows[a] != rows[b]
    ensures forall a, b :: 0 <= a < b < |Slice(rows, skip, take)| ==> Slice(rows, skip, take)[a] != Slice(rows, skip, take)[b]
    ensures forall x :: x in Slice(rows, skip, take) ==> x in rows
  {
    var r := Slice(rows, skip, take);
    forall a, b | 0 <= a < b < |r| ensures r[a] != r[b] {
      assert r[a] == rows[skip + a] && r[b] == rows[skip + b];
    }
    forall x | x in r ensures x in rows {
      var k :| 0 <= k < |r| && r[k] == x;
      assert rows[skip + k] == x;
    }
  }

  /** `Math.ceil(total / limit)` for a positive limit. */
  function CeilDiv(total: nat, limit: nat): (n: nat)
    requires limit > 0
    ensures (n - 1) * limit < total <= n * limit || (total == 0 && n == 0)
  {
    (total + limit - 1) / limit
  }

  /** Pages of `limit` rows, numbered from 1, cover the listing exactly once:
      the row at position `i` is on page `i / limit + 1` and on no other. */
  lemma {:induction false} PagesPartition(rows: seq<int>, limit: nat, i: nat, page: nat)
    requires limit > 0 && i < |rows| && page >= 1
    requires forall a, b :: 0 <= a < b < |rows| ==> rows[a] != rows[b]
    ensures rows[i] in Slice(rows, (page - 1) * limit, limit) <==> page == i / limit + 1
    ensures i / limit + 1 <= CeilDiv(|rows|, limit)
  {
    var q := page - 1;
    if q == i / limit {
      OnOwnPage(rows, limit, i);
    } else {
      NotOnOtherPage(rows, limit, i, q);
    }
    DivisionBelowCeil(i, |rows|, limit);
  }

  lemma OnOwnPage(rows: seq<int>, limit: nat, i: nat)
    requires limit > 0 && i < |rows|
    ensures rows[i] in Slice(rows, (i / limit) * limit, limit)
  {
    var skip := (i / limit) * limit;
    DivBounds(i, limit);
    var r := Slice(rows, skip, limit);
    assert r[i - skip] == rows[i];
  }

  lemma NotOnOtherPage(rows: seq<int>, limit: nat, i: nat, q: nat)
    requires limit > 0 && i < |rows| && q != i / limit
    requires forall a, b :: 0 <= a < b < |rows| ==> rows[a] != rows[b]
    ensures rows[i] !in Slice(rows, q * limit, limit)
  {
    var r := Slice(rows, q * limit, limit);
    if rows[i] in r {
      var k :| 0 <= k < |r| && r[k] == rows[i];
      assert q * limit + k == i;
      DivisionPins(i, limit, q);
    }
  }

  lemma MulLe(a: int, b: int, c: nat)
    requires a <= b
    ensures a * c <= b * c
  {
    assert b * c - a * c == (b - a) * c;
  }

  lemma MulStep(a: int, c: int)
    ensures (a + 1) * c == a * c + c
  {
  }

  lemma DivBounds(i: nat, c: nat)
    requires c > 0
    ensures (i / c) * c <= i < (i / c) * c + c
  {
  }

  lemma DivNonNegative(i: nat, c: nat)
    requires c > 0
    ensures i / c >= 0
  {
  }

  /** A number between `q * c` and the next multiple of `c` has quotient `q`. */
  lemma DivisionPins(i: nat, c: nat, q: nat)
    requires c > 0 && q * c <= i < q * c + c
    ensures i / c == q
  {
    var d := i / c;
    DivBounds(i, c);
    if d < q {
      MulStep(d, c);
      MulLe(d + 1, q, c);
    } else if d > q {
      MulStep(q, c);
      MulLe(q + 1, d, c);
    }
  }

  /** A multiple of `c` no larger than `n` is at most `c * (n / c)`. */
  lemma MultipleBelow(k: nat, c: nat, n: nat)
    requires c > 0 && k * c <= n
    ensures k <= n / c
  {
    var e := n / c;
    DivBounds(n, c);
    if k > e {
      MulStep(e, c);
      MulLe(e + 1, k, c);
    }
  }

  lemma DivisionBelowCeil(i: nat, total: nat, c: nat)
    requires c > 0 && i < total
    ensures i / c + 1 <= CeilDiv(total, c)
  {
    var d := i / c;
    DivBounds(i, c);
    MulStep(d, c);
    MultipleBelow(d + 1, c, total + c - 1);
  }
}
