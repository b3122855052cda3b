/**
  The record store as the issue list uses it: the `Issue` rows, and what the Prisma client's
  `findMany({ where, orderBy, skip, take })` and `count({ where })` mean over them. The database
  engine itself is abstract: any order of rows that is sorted by the requested key is admissible.
*/
module IssueStore {
  import opened Wrappers

  /** One row of the `Issue` table. `createdAt` is a timestamp in milliseconds. */
  datatype Issue = Issue(
    id: int,
    title: string,
    description: string,
    status: string,
    createdAt: int,
    assignedToUserId: Option<string>)

  /** The fields of `Issue` a listing may be ordered by. */
  datatype SortField = Title | Status | CreatedAt

  /** The database: the members of the `Status` enum in declaration order, and the rows of `Issue`. */
  datatype Db = Db(statusEnum: seq<string>, issues: seq<Issue>)

  /** The position of a status in the enum's declaration order; values outside the enum come last. */
  function StatusRank(statusEnum: seq<string>, s: string): (k: nat)
    ensures k <= |statusEnum|
    ensures k < |statusEnum| ==> statusEnum[k] == s
    ensures forall j :: 0 <= j < k ==> statusEnum[j] != s
  {
    if statusEnum == [] || statusEnum[0] == s then 0 else 1 + StatusRank(statusEnum[1..], s)
  }

  /** Lexicographic order on strings, character by character. */
  predicate LexLe(a: string, b: string)
    decreases |a|
  {
    a == [] || (b != [] && (a[0] < b[0] || (a[0] == b[0] && LexLe(a[1..], b[1..]))))
  }

  lemma {:induction false} LexLeTotal(a: string, b: string)
    ensures LexLe(a, b) || LexLe(b, a)
    decreases |a|
  {
    if a != [] && b != [] && a[0] == b[0] {
      LexLeTotal(a[1..], b[1..]);
    }
  }

  lemma {:induction false} LexLeTransitive(a: string, b: string, c: string)
    requires LexLe(a, b) && LexLe(b, c)
    ensures LexLe(a, c)
    decreases |a|
  {
    if a != [] && a[0] == b[0] && b[0] == c[0] {
      LexLeTransitive(a[1..], b[1..], c[1..]);
    }
  }

  /** `x` may come before `y` in a listing sorted ascending by `f`. */
  predicate KeyLe(statusEnum: seq<string>, f: SortField, x: Issue, y: Issue) {
    match f
    case Title => LexLe(x.title, y.title)
    case Status => StatusRank(statusEnum, x.status) <= StatusRank(statusEnum, y.status)
    case CreatedAt => x.createdAt <= y.createdAt
  }

  lemma KeyLeTotal(statusEnum: seq<string>, f: SortField, x: Issue, y: Issue)
    ensures KeyLe(statusEnum, f, x, y) || KeyLe(statusEnum, f, y, x)
  {
    if f == Title {
      LexLeTotal(x.title, y.title);
    }
  }

  lemma KeyLeTransitive(statusEnum: seq<string>, f: SortField, x: Issue, y: Issue, z: Issue)
    requires KeyLe(statusEnum, f, x, y) && KeyLe(statusEnum, f, y, z)
    ensures KeyLe(statusEnum, f, x, z)
  {
    if f == Title {
      LexLeTransitive(x.title, y.title, z.title);
    }
  }

  /** Ascending by `f`; rows with equal keys may stand in any order. */
  predicate Sorted(statusEnum: seq<string>, f: SortField, rows: seq<Issue>) {
    forall i, j :: 0 <= i < j < |rows| ==> KeyLe(statusEnum, f, rows[i], rows[j])
  }

  /** `ordered` holds exactly the rows of `rows`, sorted ascending by `f`. */
  predicate OrderedBy(statusEnum: seq<string>, f: SortField, ordered: seq<Issue>, rows: seq<Issue>) {
    multiset(ordered) == multiset(rows) && Sorted(statusEnum, f, ordered)
  }

  /** A `where` argument `{ status }`: `None` is an undefined status, which constrains nothing. */
  datatype Where = Where(status: Option<string>)

  predicate Matches(w: Where, x: Issue) {
    w.status.None? || x.status == w.status.value
  }

  /** The rows that satisfy `w`, in storage order. */
  function Filter(rows: seq<Issue>, w: Where): (r: seq<Issue>)
    ensures |r| <= |rows|
    ensures forall x :: x in r ==> x in rows && Matches(w, x)
  {
    if rows == [] then []
    else if Matches(w, rows[0]) then [rows[0]] + Filter(rows[1..], w)
    else Filter(rows[1..], w)
  }

  /** `Filter` keeps every matching row as often as it occurs and drops every other row. */
  lemma {:induction false} FilterMultiset(rows: seq<Issue>, w: Where, x: Issue)
    ensures multiset(Filter(rows, w))[x] == if Matches(w, x) then multiset(rows)[x] else 0
  {
    if rows != [] {
      assert rows == [rows[0]] + rows[1..];
      FilterMultiset(rows[1..], w, x);
    }
  }

  /** A `where` without a status is no constraint at all. */
  lemma {:induction false} FilterNoConstraint(rows: seq<Issue>)
    ensures Filter(rows, Where(None)) == rows
  {
    if rows != [] {
      FilterNoConstraint(rows[1..]);
      assert rows == [rows[0]] + rows[1..];
    }
  }

  /** The `skip`/`take` window of a sequence of rows (`take` undefined: every row from `skip` on). */
  function Window(rows: seq<Issue>, skip: nat, take: Option<nat>): (r: seq<Issue>)
    ensures |r| == if skip >= |rows| then 0
                   else if take.Some? && take.value < |rows| - skip then take.value
                   else |rows| - skip
    ensures forall i :: 0 <= i < |r| ==> r[i] == rows[skip + i]
  {
    if skip >= |rows| then []
    else rows[skip..if take.Some? && skip + take.value < |rows| then skip + take.value else |rows|]
  }

  /** `rows` is the contiguous run of `ordered` that starts at position `skip`. */
  predicate SliceAt(rows: seq<Issue>, ordered: seq<Issue>, skip: nat) {
    forall i :: 0 <= i < |rows| ==> skip + i < |ordered| && rows[i] == ordered[skip + i]
  }

  /** A window of a sorted sequence is sorted. */
  lemma WindowSorted(statusEnum: seq<string>, f: SortField, rows: seq<Issue>, skip: nat, take: Option<nat>)
    requires Sorted(statusEnum, f, rows)
    ensures Sorted(statusEnum, f, Window(rows, skip, take))
  {
  }

  /** The arguments of one `findMany` call, always ordered ascending on one field. */
  datatype FindArgs = FindArgs(where: Where, orderBy: SortField, skip: Option<int>, take: Option<nat>)

  /** The client refuses a negative `skip` before querying the database. */
  datatype StoreError = NegativeSkip(skip: int)

  /** `r` is a result `findMany(a)` may return: the window of SOME sorted ordering of the matching rows. */
  ghost predicate FindManyReturns(db: Db, a: FindArgs, r: Result<seq<Issue>, StoreError>)
    ensures FindManyReturns(db, a, r) ==> (r.Failure? <==> a.skip.Some? && a.skip.value < 0)
    ensures FindManyReturns(db, a, r) && r.Success? && a.take.Some? ==> |r.value| <= a.take.value
  {
    if a.skip.Some? && a.skip.value < 0 then
      r == Failure(NegativeSkip(a.skip.value))
    else
      var skip: nat := if a.skip.Some? then a.skip.value else 0;
      r.Success? &&
      exists ordered :: OrderedBy(db.statusEnum, a.orderBy, ordered, Filter(db.issues, a.where))
                        && r.value == Window(ordered, skip, a.take)
  }

  /** What any successful `findMany(a)` returns: a sorted window of matching rows, at offset `skip` of a
      sorted order of all of them, full up to `take` unless it reaches their end. */
  lemma FoundWindow(db: Db, a: FindArgs, rows: seq<Issue>)
    requires FindManyReturns(db, a, Success(rows))
    ensures a.skip.Some? ==> a.skip.value >= 0
    ensures var skip := a.skip.GetOr(0);
            var n := |Filter(db.issues, a.where)|;
            && (rows != [] ==> skip + |rows| <= n)
            && |rows| == if skip >= n then 0 else if a.take.Some? && a.take.value < n - skip then a.take.value else n - skip
    ensures Sorted(db.statusEnum, a.orderBy, rows)
    ensures forall x :: x in rows ==> x in db.issues && Matches(a.where, x)
    ensures exists ordered :: OrderedBy(db.statusEnum, a.orderBy, ordered, Filter(db.issues, a.where))
              && SliceAt(rows, ordered, a.skip.GetOr(0))
  {
    var matching := Filter(db.issues, a.where);
    var skip: nat := a.skip.GetOr(0);
    var ordered :| OrderedBy(db.statusEnum, a.orderBy, ordered, matching)
                   && rows == Window(ordered, skip, a.take);
    assert |ordered| == |multiset(ordered)| == |multiset(matching)| == |matching|;
    WindowSorted(db.statusEnum, a.orderBy, ordered, skip, a.take);
    forall x | x in rows ensures x in db.issues && Matches(a.where, x) {
      var i :| 0 <= i < |rows| && rows[i] == x;
      assert x in multiset(ordered);
    }
    assert SliceAt(rows, ordered, skip);
  }

  /** Every row of a sorted `rows` may follow `x` when `x` may precede the first one. */
  lemma LowerBound(statusEnum: seq<string>, f: SortField, x: Issue, rows: seq<Issue>)
    requires Sorted(statusEnum, f, rows) && rows != [] && KeyLe(statusEnum, f, x, rows[0])
    ensures forall z :: z in rows ==> KeyLe(statusEnum, f, x, z)
  {
    forall z | z in rows ensures KeyLe(statusEnum, f, x, z) {
      var j :| 0 <= j < |rows| && rows[j] == z;
      if j > 0 {
        KeyLeTransitive(statusEnum, f, x, rows[0], z);
      }
    }
  }

  lemma ConsSorted(statusEnum: seq<string>, f: SortField, y: Issue, t: seq<Issue>)
    requires Sorted(statusEnum, f, t)
    requires forall z :: z in t ==> KeyLe(statusEnum, f, y, z)
    ensures Sorted(statusEnum, f, [y] + t)
  {
  }

  /** Inserts `x` into a sorted sequence after every row it may not precede. */
  function Insert(statusEnum: seq<string>, f: SortField, x: Issue, rows: seq<Issue>): (r: seq<Issue>)
    requires Sorted(statusEnum, f, rows)
    ensures multiset(r) == multiset(rows) + multiset{x}
    ensures Sorted(statusEnum, f, r)
    decreases |rows|
  {
    if rows == [] then [x]
    else if KeyLe(statusEnum, f, x, rows[0]) then
      LowerBound(statusEnum, f, x, rows);
      ConsSorted(statusEnum, f, x, rows);
      [x] + rows
    else
      var t := Insert(statusEnum, f, x, rows[1..]);
      assert rows == [rows[0]] + rows[1..];
      assert forall z :: z in t ==> KeyLe(statusEnum, f, rows[0], z) by {
        forall z | z in t ensures KeyLe(statusEnum, f, rows[0], z) {
          assert z in multiset(t);
          if z == x {
            KeyLeTotal(statusEnum, f, x, rows[0]);
          } else {
            assert z in multiset(rows[1..]);
            var j :| 0 <= j < |rows[1..]| && rows[1..][j] == z;
            assert rows[j + 1] == z;
          }
        }
      }
      ConsSorted(statusEnum, f, rows[0], t);
      [rows[0]] + t
  }

  /** One admissible ordering of `rows` by `f` (a stable insertion sort). */
  function SortBy(statusEnum: seq<string>, f: SortField, rows: seq<Issue>): (r: seq<Issue>)
    ensures OrderedBy(statusEnum, f, r, rows)
  {
    if rows == [] then []
    else
      assert rows == [rows[0]] + rows[1..];
      Insert(statusEnum, f, rows[0], SortBy(statusEnum, f, rows[1..]))
  }

  /** One admissible evaluation of `findMany(a)`: ties are broken by storage order. */
  function FindMany(db: Db, a: FindArgs): (r: Result<seq<Issue>, StoreError>)
    ensures FindManyReturns(db, a, r)
  {
    if a.skip.Some? && a.skip.value < 0 then Failure(NegativeSkip(a.skip.value))
    else
      var skip: nat := if a.skip.Some? then a.skip.value else 0;
      var ordered := SortBy(db.statusEnum, a.orderBy, Filter(db.issues, a.where));
      Success(Window(ordered, skip, a.take))
  }

  /** The number of rows satisfying `w`, one by one. */
  function CountMatching(rows: seq<Issue>, w: Where): (n: nat)
    ensures n <= |rows|
  {
    if rows == [] then 0 else (if Matches(w, rows[0]) then 1 else 0) + CountMatching(rows[1..], w)
  }

  /** `count({ where: w })`. */
  function Count(db: Db, w: Where): (n: nat)
    ensures n <= |db.issues|
    ensures w.status.None? ==> n == |db.issues|
  {
    CountNoConstraint(db.issues);
    CountMatching(db.issues, w)
  }

  lemma {:induction false} CountNoConstraint(rows: seq<Issue>)
    ensures CountMatching(rows, Where(None)) == |rows|
  {
    if rows != [] {
      CountNoConstraint(rows[1..]);
    }
  }

  /** The count query and the listing query agree: `count` is the number of rows `findMany` filters in. */
  lemma {:induction false} CountIsFilterLength(rows: seq<Issue>, w: Where)
    ensures CountMatching(rows, w) == |Filter(rows, w)|
  {
    if rows != [] {
      CountIsFilterLength(rows[1..], w);
    }
  }
}
