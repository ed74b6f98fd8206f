/** Result ordering and paging: `order` by a column in either direction,
    then `skip`/`take`. */
module Ordering {
  import opened UserEntity

  /** `'ASC' | 'DESC'`. */
  datatype Direction = Asc | Desc

  /** The timestamp columns a listing can be ordered by. */
  datatype DateColumn = CreatedAt | UpdatedAt | DeletedAt

  /** The sort key of a row under a timestamp column. An unset `deleted_at`
      (NULL) sorts before every instant, as NULL does in MySQL. */
  function Key(u: User, c: DateColumn): int {
    match c
    case CreatedAt => u.created_at
    case UpdatedAt => u.updated_at
    case DeletedAt => if u.deleted_at.Some? then u.deleted_at.value else -1
  }

  predicate Ascending(xs: seq<User>, c: DateColumn) {
    forall i, j :: 0 <= i < j < |xs| ==> Key(xs[i], c) <= Key(xs[j], c)
  }

  predicate Descending(xs: seq<User>, c: DateColumn) {
    forall i, j :: 0 <= i < j < |xs| ==> Key(xs[i], c) >= Key(xs[j], c)
  }

  /** Places `x` in an ascending list, before the first row whose key is not
      smaller: `x` goes ahead of the rows with an equal key. */
  function Insert(x: User, xs: seq<User>, c: DateColumn): (r: seq<User>)
    requires Ascending(xs, c)
    ensures Ascending(r, c)
    ensures multiset(r) == multiset(xs) + multiset{x}
    ensures |r| > 0 && (r[0] == x || (xs != [] && r[0] == xs[0]))
  {
    if xs == [] then [x]
    else if Key(x, c) <= Key(xs[0], c) then
      ConsAscending(x, xs, c);
      [x] + xs
    else
      var rest := Insert(x, xs[1..], c);
      assert multiset(xs) == multiset{xs[0]} + multiset(xs[1..]) by {
        assert xs == [xs[0]] + xs[1..];
      }
      assert Key(xs[0], c) <= Key(rest[0], c) by {
        if rest[0] != x {
          assert rest[0] == xs[1];
        }
      }
      ConsAscending(xs[0], rest, c);
      [xs[0]] + rest
  }

  /** A row no later than the head of an ascending list extends it. */
  lemma ConsAscending(y: User, ys: seq<User>, c: DateColumn)
    requires Ascending(ys, c)
    requires ys != [] ==> Key(y, c) <= Key(ys[0], c)
    ensures Ascending([y] + ys, c)
  {
  }

  /** The rows ordered by the column, ascending. Each row is inserted ahead
      of the later rows with its key, so rows with equal keys keep their
      incoming order. */
  function SortAscending(xs: seq<User>, c: DateColumn): (r: seq<User>)
    ensures Ascending(r, c)
    ensures multiset(r) == multiset(xs)
  {
    if xs == [] then []
    else
      assert xs == [xs[0]] + xs[1..];
      Insert(xs[0], SortAscending(xs[1..], c), c)
  }

  /** The list back to front. */
  function Reverse<T>(xs: seq<T>): (r: seq<T>)
    ensures |r| == |xs|
    ensures forall i :: 0 <= i < |xs| ==> r[i] == xs[|xs| - 1 - i]
    ensures multiset(r) == multiset(xs)
  {
    if xs == [] then []
    else
      assert xs == [xs[0]] + xs[1..];
      Reverse(xs[1..]) + [xs[0]]
  }

  /** The rows ordered by the column in the requested direction. */
  function SortBy(xs: seq<User>, c: DateColumn, d: Direction): (r: seq<User>)
    ensures d == Asc ==> Ascending(r, c)
    ensures d == Desc ==> Descending(r, c)
    ensures multiset(r) == multiset(xs)
  {
    var up := SortAscending(xs, c);
    if d == Asc then up else Reverse(up)
  }

  /** `skip`/`take`: at most `take` consecutive elements, starting after the
      first `skip`. */
  function Page<T>(xs: seq<T>, skip: nat, take: nat): (r: seq<T>)
    ensures |r| <= take
    ensures r == [] <==> skip >= |xs| || take == 0
    ensures skip < |xs| ==> |r| == if |xs| - skip < take then |xs| - skip else take
    ensures forall i :: 0 <= i < |r| ==> skip + i < |xs| && r[i] == xs[skip + i]
  {
    if skip >= |xs| then []
    else if |xs| - skip < take then xs[skip..]
    else xs[skip..skip + take]
  }

  /** No element occurs twice. */
  predicate Distinct<T(==)>(xs: seq<T>) {
    forall i, j :: 0 <= i < j < |xs| ==> xs[i] != xs[j]
  }

  /** A list without repeats holds each value at most once. */
  lemma {:induction false} DistinctCounts<T>(xs: seq<T>)
    requires Distinct(xs)
    ensures forall x :: multiset(xs)[x] <= 1
  {
    if xs != [] {
      var t := xs[1..];
      assert xs == [xs[0]] + t;
      assert Distinct(t);
      DistinctCounts(t);
      assert xs[0] !in t;
      assert multiset(t)[xs[0]] == 0;
    }
  }

  /** A list holding each value at most once has no repeats. */
  lemma CountsDistinct<T>(xs: seq<T>)
    requires forall x :: multiset(xs)[x] <= 1
    ensures Distinct(xs)
  {
    forall i, j | 0 <= i < j < |xs| ensures xs[i] != xs[j] {
      assert xs == xs[..j] + xs[j..];
      assert xs[i] in multiset(xs[..j]);
      assert xs[j] in multiset(xs[j..]);
      assert multiset(xs)[xs[j]] == multiset(xs[..j])[xs[j]] + multiset(xs[j..])[xs[j]];
    }
  }

  /** Reordering a list without repeats gives a list without repeats. */
  lemma DistinctPermutation<T>(xs: seq<T>, ys: seq<T>)
    requires Distinct(xs)
    requires multiset(xs) == multiset(ys)
    ensures Distinct(ys)
  {
    DistinctCounts(xs);
    CountsDistinct(ys);
  }

  /** A window of a list without repeats has none. */
  lemma DistinctPage<T>(xs: seq<T>, skip: nat, take: nat)
    requires Distinct(xs)
    ensures Distinct(Page(xs, skip, take))
  {
  }
}
