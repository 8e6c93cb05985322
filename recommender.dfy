/** The `/recommend` endpoint of the recommendation service: turn a
    browsing history of product ids into at most three product rows, ranked
    by their greatest similarity to the rows already browsed.

    The similarity matrix is taken as a given total function `sim` with
    integer values: `sim(i, j)` is the similarity of rows `i` and `j`. */
module Recommender {

  import opened Common
  import opened Catalog

  /** How many rows the endpoint recommends at most. */
  const TopCount: nat := 3

  /** The two ways the endpoint rejects a request. */
  datatype Error = EmptyHistory | ProductNotFound(id: int)

  /** The HTTP status each rejection is reported with. */
  function Status(e: Error): int
  {
    match e
    case EmptyHistory => 400
    case ProductNotFound(_) => 404
  }

  /** Looks up the rows of the history ids one by one, in history order,
      and stops at the first id that no row carries. */
  method LookupHistory(rows: seq<Product>, ids: seq<int>) returns (r: Result<seq<nat>, int>)
    ensures r.Ok? <==> forall k :: 0 <= k < |ids| ==> FindFirst(rows, ids[k]).Some?
    ensures r.Ok? ==> |r.value| == |ids|
    ensures r.Ok? ==> forall k :: 0 <= k < |ids| ==> FindFirst(rows, ids[k]) == Some(r.value[k])
    ensures r.Ok? ==> r.value == HistoryRows(rows, ids)
    ensures r.Err? ==> exists k :: 0 <= k < |ids| && ids[k] == r.error && FindFirst(rows, ids[k]).None? &&
                                 forall j :: 0 <= j < k ==> FindFirst(rows, ids[j]).Some?
  {
    var indices: seq<nat> := [];
    for k := 0 to |ids|
      invariant |indices| == k
      invariant forall j :: 0 <= j < k ==> FindFirst(rows, ids[j]) == Some(indices[j])
    {
      var idx := FindFirst(rows, ids[k]);
      if idx.None? {
        return Err(ids[k]);
      }
      indices := indices + [idx.value];
    }
    return Ok(indices);
  }

  /** The rows of a history whose ids are all known: each id's first row. */
  function HistoryRows(rows: seq<Product>, ids: seq<int>): (r: seq<nat>)
    requires forall k :: 0 <= k < |ids| ==> FindFirst(rows, ids[k]).Some?
    ensures |r| == |ids|
    ensures forall k :: 0 <= k < |ids| ==> FindFirst(rows, ids[k]) == Some(r[k])
  {
    if ids == [] then [] else [FindFirst(rows, ids[0]).value] + HistoryRows(rows, ids[1..])
  }

  /** The rows `0 .. n-1` that are not history rows, in ascending order. */
  function Candidates(n: nat, hist: seq<nat>): (r: seq<nat>)
    ensures forall i, j :: 0 <= i < j < |r| ==> r[i] < r[j]
    ensures forall x: int :: x in r <==> 0 <= x < n && x !in hist
  {
    if n == 0 then []
    else
      var below := Candidates(n - 1, hist);
      assert forall i :: 0 <= i < |below| ==> below[i] in below;
      below + (if n - 1 in hist then [] else [n - 1])
  }

  /** A candidate's score: its greatest similarity to any history row. */
  function Score(sim: (nat, nat) -> int, hist: seq<nat>, c: nat): (r: int)
    requires |hist| > 0
    ensures exists j :: 0 <= j < |hist| && r == sim(c, hist[j])
    ensures forall j :: 0 <= j < |hist| ==> sim(c, hist[j]) <= r
  {
    if |hist| == 1 then sim(c, hist[0])
    else
      var rest := Score(sim, hist[1..], c);
      if sim(c, hist[0]) >= rest then sim(c, hist[0]) else rest
  }

  /** A position of a best-scoring row of `rem` (the first such position). */
  function BestIn(sim: (nat, nat) -> int, hist: seq<nat>, rem: seq<nat>): (i: nat)
    requires |hist| > 0 && |rem| > 0
    ensures i < |rem|
    ensures forall x :: x in rem ==> Score(sim, hist, x) <= Score(sim, hist, rem[i])
  {
    if |rem| == 1 then 0
    else
      var k := BestIn(sim, hist, rem[1..]);
      if Score(sim, hist, rem[0]) >= Score(sim, hist, rem[k + 1]) then 0 else k + 1
  }

  /** `s` without its element at position `i`. */
  function Remove(s: seq<nat>, i: nat): (r: seq<nat>)
    requires i < |s|
    ensures |r| == |s| - 1
    ensures forall x :: x in r ==> x in s
    ensures forall x :: x in s && x != s[i] ==> x in r
    ensures Distinct(s) ==> Distinct(r) && s[i] !in r
  {
    assert forall k :: 0 <= k < |s| - 1 ==> (s[..i] + s[i + 1..])[k] == if k < i then s[k] else s[k + 1];
    s[..i] + s[i + 1..]
  }

  /** The `k` best-scoring rows of `rem`, best first. Among equal scores the
      choice is left to the ordering of `rem`; the contract does not pin it. */
  function TopK(sim: (nat, nat) -> int, hist: seq<nat>, rem: seq<nat>, k: nat): (r: seq<nat>)
    requires |hist| > 0
    ensures |r| == Min(k, |rem|)
    ensures forall x :: x in r ==> x in rem
    ensures Distinct(rem) ==> Distinct(r)
    ensures forall i, j :: 0 <= i < j < |r| ==> Score(sim, hist, r[i]) >= Score(sim, hist, r[j])
    ensures forall c, x :: c in rem && c !in r && x in r ==> Score(sim, hist, c) <= Score(sim, hist, x)
    decreases k
  {
    if k == 0 || rem == [] then []
    else
      var i := BestIn(sim, hist, rem);
      [rem[i]] + TopK(sim, hist, Remove(rem, i), k - 1)
  }

  /** What the endpoint returns for a history whose rows are `hist`: the
      candidates' top three, or nothing when every row is a history row. */
  function Select(n: nat, sim: (nat, nat) -> int, hist: seq<nat>): (r: seq<nat>)
    requires |hist| > 0
    ensures |r| == Min(TopCount, |Candidates(n, hist)|)
    ensures Distinct(r)
    ensures forall x :: x in r ==> x < n && x !in hist
    ensures forall i, j :: 0 <= i < j < |r| ==> Score(sim, hist, r[i]) >= Score(sim, hist, r[j])
    ensures forall c: nat, x :: c < n && c !in hist && c !in r && x in r ==> Score(sim, hist, c) <= Score(sim, hist, x)
  {
    var others := Candidates(n, hist);
    if |others| == 0 then []
    else TopK(sim, hist, others, TopCount)
  }

  /** `recommend`: the history guard, the lookup of the history rows, and
      the selection over the candidate rows. */
  method Recommend(rows: seq<Product>, sim: (nat, nat) -> int, history: seq<int>) returns (r: Result<seq<nat>, Error>)
    ensures history == [] ==> r == Err(EmptyHistory)
    ensures history != [] && r.Err? ==>
              r.error.ProductNotFound? &&
              exists k :: 0 <= k < |history| && history[k] == r.error.id && FindFirst(rows, history[k]).None? &&
                          forall j :: 0 <= j < k ==> FindFirst(rows, history[j]).Some?
    ensures r.Ok? <==> history != [] && forall k :: 0 <= k < |history| ==> FindFirst(rows, history[k]).Some?
    ensures r.Ok? ==> r.value == Select(|rows|, sim, HistoryRows(rows, history))
    ensures r.Err? ==> Status(r.error) == if history == [] then 400 else 404
  {
    if |history| == 0 {
      return Err(EmptyHistory);
    }
    var looked := LookupHistory(rows, history);
    if looked.Err? {
      return Err(ProductNotFound(looked.error));
    }
    var hist := looked.value;
    return Ok(Select(|rows|, sim, hist));
  }
}
