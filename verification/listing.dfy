/** The list endpoint's filtering (todo/views/routes.py:24-49): an optional
    equality on `completed` and an optional upper bound on `deadline_at`,
    applied to the rows in the order the store yields them. */
module Listing {
  import opened Options
  import opened Json
  import opened Todos
  import opened Query

  /** One day as a `timedelta`, in microseconds. */
  const MicrosPerDay: int := 86_400_000_000

  /** The filters a list request supplies; `None` means "not supplied". */
  datatype Filter = Filter(completed: Option<bool>, cutoff: Option<Timestamp>)

  const NoFilter := Filter(None, None)

  /** Modelling assumption: the store evaluates `deadline_at <= cutoff` with
      SQL's rules, under which a row without a deadline compares as unknown
      and is left out. */
  function DueBy(t: Todo, cutoff: Timestamp): (due: bool)
    ensures t.deadline.None? ==> !due
    ensures t.deadline.Some? ==> (due <==> t.deadline.value <= cutoff)
  {
    t.deadline.Some? && t.deadline.value <= cutoff
  }

  /** A later cutoff never drops a row that an earlier one admits. */
  lemma DueByLater(t: Todo, earlier: Timestamp, later: Timestamp)
    requires earlier <= later
    ensures DueBy(t, earlier) ==> DueBy(t, later)
  {
  }

  /** How many of the two filters are supplied. */
  function Supplied(f: Filter): nat {
    (if f.completed.Some? then 1 else 0) + (if f.cutoff.Some? then 1 else 0)
  }

  /** A row passes every filter that was supplied. Each filter only
      narrows: a passing row still passes with either filter dropped, and
      under any later cutoff. */
  function Matches(t: Todo, f: Filter): (pass: bool)
    ensures f == NoFilter ==> pass
    ensures pass && f.completed.Some? ==> Matches(t, Filter(None, f.cutoff))
    ensures pass && f.cutoff.Some? ==> Matches(t, Filter(f.completed, None))
    ensures forall later :: pass && f.cutoff.Some? && f.cutoff.value <= later ==> DueBy(t, later)
    ensures pass && f.completed.Some? ==> t.completed == Bool(f.completed.value)
    ensures pass && f.cutoff.Some? ==> t.deadline.Some? && t.deadline.value <= f.cutoff.value
    ensures
      ((f.completed.None? || t.completed == Bool(f.completed.value)) && (f.cutoff.None? || DueBy(t, f.cutoff.value)))
      ==> pass
    decreases Supplied(f)
  {
    && (f.completed.Some? ==> t.completed == Bool(f.completed.value))
    && (f.cutoff.Some? ==> DueBy(t, f.cutoff.value))
  }

  /** The filters a request's raw query arguments denote at time `now`
      (todo/views/routes.py:27-41). */
  function QueryFilter(completedArg: Option<string>, windowArg: Option<string>, now: Timestamp): (f: Filter)
    ensures f.completed.Some? <==> completedArg.Some?
    ensures completedArg.Some? ==> (f.completed.value <==> SpelledTruthy(completedArg.value))
    ensures f.cutoff.Some? <==> windowArg.Some? && IsIntLiteral(windowArg.value)
    ensures f.cutoff.Some? ==> f.cutoff.value == now + ParseInt(windowArg.value).value * MicrosPerDay
  {
    var window := if windowArg.Some? then ParseInt(windowArg.value) else None;
    Filter(
      if completedArg.Some? then Some(IsTruthyToken(completedArg.value)) else None,
      if window.Some? then Some(now + window.value * MicrosPerDay) else None)
  }

  /** A `window` a client writes as the decimal text of `w` days bounds
      deadlines by `now + w` days. */
  lemma QueryFilterMeaning(completedArg: Option<string>, windowArg: Option<string>, now: Timestamp)
    ensures forall w :: windowArg == Some(Show(w)) ==>
      QueryFilter(completedArg, windowArg, now).cutoff == Some(now + w * MicrosPerDay)
  {
    forall w | windowArg == Some(Show(w)) {
      ParseShow(w);
    }
  }

  /** The rows named by `scan` that pass `f`, in scan order. */
  function Select(rows: map<Id, Todo>, scan: seq<Id>, f: Filter): (r: seq<Todo>)
    ensures |r| <= |scan|
    ensures forall t :: t in r ==> t in rows.Values && Matches(t, f)
    ensures forall id :: id in scan && id in rows && Matches(rows[id], f) ==> rows[id] in r
    decreases |scan|
  {
    if scan == [] then []
    else
      var rest := Select(rows, scan[1..], f);
      if scan[0] in rows && Matches(rows[scan[0]], f) then [rows[scan[0]]] + rest else rest
  }

  /** `scan` is an order in which the store can yield its rows: every stored
      id exactly once. */
  predicate IsScan(scan: seq<Id>, rows: map<Id, Todo>) {
    && (forall i, j :: 0 <= i < j < |scan| ==> scan[i] != scan[j])
    && (forall i :: 0 <= i < |scan| ==> scan[i] in rows)
    && (forall id :: id in rows ==> id in scan)
  }

  /** A stored row is listed exactly when it passes every supplied filter. */
  lemma SelectExact(rows: map<Id, Todo>, scan: seq<Id>, f: Filter, id: Id)
    requires IsScan(scan, rows)
    requires id in rows
    ensures rows[id] in Select(rows, scan, f) <==> Matches(rows[id], f)
  {
  }

  /** With no filter supplied, the listing is every row, in scan order. */
  lemma {:induction false} SelectNoFilter(rows: map<Id, Todo>, scan: seq<Id>)
    requires forall i :: 0 <= i < |scan| ==> scan[i] in rows
    ensures |Select(rows, scan, NoFilter)| == |scan|
    ensures forall i :: 0 <= i < |scan| ==> Select(rows, scan, NoFilter)[i] == rows[scan[i]]
    decreases |scan|
  {
    if scan != [] {
      SelectNoFilter(rows, scan[1..]);
    }
  }

  /** A stronger filter lists a sub-sequence of what a weaker one lists. */
  lemma {:induction false} SelectNarrows(rows: map<Id, Todo>, scan: seq<Id>, strong: Filter, weak: Filter)
    requires forall t :: Matches(t, strong) ==> Matches(t, weak)
    ensures IsSubsequence(Select(rows, scan, strong), Select(rows, scan, weak))
    decreases |scan|
  {
    if scan != [] {
      SelectNarrows(rows, scan[1..], strong, weak);
      var a := Select(rows, scan[1..], strong);
      var b := Select(rows, scan[1..], weak);
      if scan[0] in rows && Matches(rows[scan[0]], strong) {
        SubsequenceCons(rows[scan[0]], a, b);
      } else if scan[0] in rows && Matches(rows[scan[0]], weak) {
        SubsequenceExtend(rows[scan[0]], a, b);
      }
    }
  }

  /** `a` can be obtained from `b` by deleting elements. */
  predicate IsSubsequence<T(==)>(a: seq<T>, b: seq<T>)
    decreases |b|
  {
    if a == [] then true
    else if b == [] then false
    else if a[0] == b[0] then IsSubsequence(a[1..], b[1..])
    else IsSubsequence(a, b[1..])
  }

  lemma SubsequenceCons<T>(x: T, a: seq<T>, b: seq<T>)
    requires IsSubsequence(a, b)
    ensures IsSubsequence([x] + a, [x] + b)
  {
    assert ([x] + a)[1..] == a;
    assert ([x] + b)[1..] == b;
  }

  lemma SubsequenceExtend<T>(x: T, a: seq<T>, b: seq<T>)
    requires IsSubsequence(a, b)
    ensures IsSubsequence(a, [x] + b)
    decreases |b|, 1
  {
    assert ([x] + b)[1..] == b;
    if a != [] && a[0] == x {
      SubsequenceDrop(a, b);
    }
  }

  /** Dropping the first element keeps a sub-sequence a sub-sequence. */
  lemma {:induction false} SubsequenceDrop<T>(a: seq<T>, b: seq<T>)
    requires a != []
    requires IsSubsequence(a, b)
    ensures IsSubsequence(a[1..], b)
    decreases |b|, 0
  {
    if b != [] {
      if a[0] == b[0] {
        SubsequenceExtend(b[0], a[1..], b[1..]);
        assert [b[0]] + b[1..] == b;
      } else {
        SubsequenceDrop(a, b[1..]);
        SubsequenceExtend(b[0], a[1..], b[1..]);
        assert [b[0]] + b[1..] == b;
      }
    }
  }

  /** A sub-sequence is no longer than its super-sequence. */
  lemma {:induction false} SubsequenceLength<T>(a: seq<T>, b: seq<T>)
    requires IsSubsequence(a, b)
    ensures |a| <= |b|
    decreases |b|
  {
    if a != [] {
      if a[0] == b[0] {
        SubsequenceLength(a[1..], b[1..]);
      } else {
        SubsequenceLength(a, b[1..]);
      }
    }
  }

  /** Supplying a filter only narrows the listing: with `completed` added or
      `window` added, the result is a sub-sequence of the result without it. */
  lemma EachFilterNarrows(rows: map<Id, Todo>, scan: seq<Id>, completed: Option<bool>, cutoff: Option<Timestamp>)
    ensures IsSubsequence(Select(rows, scan, Filter(completed, cutoff)), Select(rows, scan, Filter(None, cutoff)))
    ensures IsSubsequence(Select(rows, scan, Filter(completed, cutoff)), Select(rows, scan, Filter(completed, None)))
    ensures |Select(rows, scan, Filter(completed, cutoff))| <= |Select(rows, scan, NoFilter)|
  {
    SelectNarrows(rows, scan, Filter(completed, cutoff), Filter(None, cutoff));
    SelectNarrows(rows, scan, Filter(completed, cutoff), Filter(completed, None));
    SelectNarrows(rows, scan, Filter(completed, cutoff), NoFilter);
    SubsequenceLength(Select(rows, scan, Filter(completed, cutoff)), Select(rows, scan, NoFilter));
  }
}
