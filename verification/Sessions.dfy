/**
 Walks through one store while the processes of a cluster go on: what a walk
 takes for granted of the rows it reads is true of every run.
 */
module Sessions {
  import opened Wrappers
  import opened Timestamps
  import opened Observations
  import opened Identifiers
  import Schema
  import opened Store
  import opened Paging
  import opened Server
  import Cluster

  /** Moments of a run, in the order in which they come. */
  ghost predicate Moments(states: seq<Cluster.State>, at: seq<nat>) {
    && (forall k :: 0 <= k < |at| ==> at[k] < |states|)
    && (forall k, l :: 0 <= k < l < |at| ==> at[k] <= at[l])
  }

  /** What is committed at these moments. */
  function Logs(states: seq<Cluster.State>, at: seq<nat>): seq<seq<Record>>
    requires forall k :: 0 <= k < |at| ==> at[k] < |states|
  {
    seq(|at|, k requires 0 <= k < |at| => states[at[k]].rows)
  }

  lemma LogsOfRun(c: Cluster.Config, states: seq<Cluster.State>, events: seq<Cluster.Event>, at: seq<nat>)
    requires Cluster.IsConfig(c) && Cluster.IsRun(c, states, events) && Moments(states, at)
    ensures forall k :: 0 <= k < |at| ==> UniqueIds(Logs(states, at)[k])
    ensures forall k, l :: 0 <= k < l < |at| ==> Logs(states, at)[k] <= Logs(states, at)[l]
  {
    hide Cluster.IsConfig, Cluster.IsRun, Cluster.Inserted, UniqueIds;
    forall k | 0 <= k < |at|
      ensures UniqueIds(Logs(states, at)[k])
    {
      Cluster.RecordsEndure(c, states, events, at[k], at[k]);
    }
    forall k, l | 0 <= k < l < |at|
      ensures Logs(states, at)[k] <= Logs(states, at)[l]
    {
      Cluster.RunGrows(c, states, events, at[k], at[l]);
    }
  }

  /** A walk whose i-th page is read at the i-th of these moments. */
  ghost predicate IsWalkAt(states: seq<Cluster.State>, at: seq<nat>, filters: seq<Filter>, pages: seq<seq<Record>>) {
    && Moments(states, at) && |at| == |filters| == |pages| > 0
    && (forall i :: 0 <= i < |pages| ==> pages[i] == PageOf(states[at[i]].rows, filters[i]))
    && (forall i :: 0 <= i < |pages| - 1 ==> pages[i] != [])
    && (forall i :: 0 < i < |pages| ==> Resumes(filters[i], filters[0], pages[i - 1][|pages[i - 1]| - 1]))
    && pages[|pages| - 1] == []
  }

  /**
   In every run of any number of processes, a walk delivers every row that
   matched when it began, the acknowledged ones among them, and no row twice.
   */
  lemma WalkDeliversInEveryRun(
    c: Cluster.Config, states: seq<Cluster.State>, events: seq<Cluster.Event>, at: seq<nat>,
    filters: seq<Filter>, pages: seq<seq<Record>>)
    requires Cluster.IsConfig(c) && Cluster.IsRun(c, states, events) && IsWalkAt(states, at, filters, pages)
    ensures forall r :: r in states[at[0]].acked ==> r in states[at[0]].rows
    ensures forall r :: r in states[at[0]].rows && Matches(filters[0], r) ==>
      exists i, j :: 0 <= i < |pages| && 0 <= j < |pages[i]| && pages[i][j] == r
    ensures forall i, j, k, l ::
      (0 <= i < |pages| && 0 <= j < |pages[i]| && 0 <= k < |pages| && 0 <= l < |pages[k]|
       && pages[i][j].id == pages[k][l].id) ==> i == k && j == l
  {
    hide Cluster.IsConfig, Cluster.IsRun, Cluster.Inserted, UniqueIds, PageOf, Resumes, Matches;
    LogsOfRun(c, states, events, at);
    Cluster.RecordsEndure(c, states, events, at[0], at[0]);
    assert IsWalk(Logs(states, at), filters, pages);
    WalkDeliversExactlyOnce(Logs(states, at), filters, pages);
  }

  // ---------- The same for callers of the review tool ----------

  /** Every clock is read in the years 0 to 9999 and not in the millisecond that means "absent". */
  ghost predicate ClocksCanPage(events: seq<Cluster.Event>) {
    forall i :: 0 <= i < |events| && events[i].action.Stamp? ==> CanPage(events[i].action.at)
  }

  /** Rows, and records about to be inserted, carry stamps. */
  ghost predicate AllStamped(s: Cluster.State) {
    && (forall r :: r in s.rows ==> Stamped(r))
    && (forall p: Cluster.Pid :: Cluster.At(s, p).Appending? ==> Stamped(Cluster.At(s, p).rec))
  }

  lemma StepStamps(c: Cluster.Config, s: Cluster.State, p: Cluster.Pid, a: Cluster.Action)
    requires Cluster.IsConfig(c) && Cluster.Inv(c, s) && Cluster.Step(c, s, p, a).Some? && AllStamped(s)
    requires a.Stamp? ==> CanPage(a.at)
    ensures AllStamped(Cluster.Step(c, s, p, a).value)
  {
    var t := Cluster.Step(c, s, p, a).value;
    Cluster.RowsOfStep(c, s, p, a);
    forall q: Cluster.Pid | Cluster.At(t, q).Appending?
      ensures Stamped(Cluster.At(t, q).rec)
    {
      if q != p {
        Cluster.OthersStay(c, s, p, a, q);
      } else {
        OwnStamp(c, s, p, a);
      }
    }
  }

  lemma OwnStamp(c: Cluster.Config, s: Cluster.State, p: Cluster.Pid, a: Cluster.Action)
    requires Cluster.Step(c, s, p, a).Some? && (a.Stamp? ==> CanPage(a.at))
    requires Cluster.At(s, p).Appending? ==> Stamped(Cluster.At(s, p).rec)
    ensures Cluster.At(Cluster.Step(c, s, p, a).value, p).Appending? ==>
              Stamped(Cluster.At(Cluster.Step(c, s, p, a).value, p).rec)
  {
    hide FormatTime, Uuid, InLayoutRange, Schema.Apply, Schema.Pending, Schema.Older;
    if a.Stamp? {
      assert StampedAt(Cluster.At(Cluster.Step(c, s, p, a).value, p).rec, a.at, a.random);
    }
  }

  lemma {:induction false} RunStamps(c: Cluster.Config, states: seq<Cluster.State>, events: seq<Cluster.Event>, i: nat)
    requires Cluster.IsConfig(c) && Cluster.IsRun(c, states, events) && ClocksCanPage(events) && i < |states|
    ensures AllStamped(states[i])
  {
    if i > 0 {
      RunStamps(c, states, events, i - 1);
      Cluster.RunKeeps(c, states, events, i - 1);
      Cluster.RunLength(c, states, events);
      Cluster.RunStep(c, states, events, i - 1);
      StepStamps(c, states[i - 1], events[i - 1].pid, events[i - 1].action);
    }
  }

  /**
   In every run whose clocks can page, reviews sent at later and later moments,
   each with the last view of the one before as its cursor, show every
   observation that matched at the first moment exactly once.
   */
  lemma ReviewsShowInEveryRun(
    c: Cluster.Config, states: seq<Cluster.State>, events: seq<Cluster.Event>, at: seq<nat>,
    q: ReviewInput, limits: seq<int>, outs: seq<Review>)
    requires Cluster.IsConfig(c) && Cluster.IsRun(c, states, events) && ClocksCanPage(events)
    requires Moments(states, at) && |at| == |limits| == |outs| > 0
    requires forall i :: 0 <= i < |outs| - 1 ==> outs[i].observations != []
    requires forall i :: 0 <= i < |outs| ==> ReviewOf(states[at[i]].rows, InputAt(q, limits, outs, i)) == Success(outs[i])
    requires outs[|outs| - 1].observations == []
    ensures FilterOf(q).Success?
    ensures forall r :: r in states[at[0]].rows && Matches(FilterOf(q).value, r) ==>
      exists i, j :: 0 <= i < |outs| && 0 <= j < |outs[i].observations| && outs[i].observations[j] == ViewOf(r)
    ensures forall i, j, k, l ::
      (0 <= i < |outs| && 0 <= j < |outs[i].observations| && 0 <= k < |outs| && 0 <= l < |outs[k].observations|
       && outs[i].observations[j].id == outs[k].observations[l].id) ==> i == k && j == l
  {
    hide Cluster.IsConfig, Cluster.IsRun, UniqueIds, ReviewOf, FilterOf, Stamped, Matches, InputAt;
    LogsOfRun(c, states, events, at);
    forall k | 0 <= k < |at|
      ensures forall r :: r in Logs(states, at)[k] ==> Stamped(r)
    {
      RunStamps(c, states, events, at[k]);
    }
    assert IsReviewWalk(Logs(states, at), q, limits, outs);
    ReviewWalkShowsEverythingOnce(Logs(states, at), q, limits, outs);
  }
}
