/** Walking back through a store nobody writes to: the walk ends, and it is the sorted match cut into pages. */
module Quiescent {
  import opened Wrappers
  import opened Timestamps
  import opened Observations
  import Sql
  import opened Store
  import opened Paging
  import opened Server

  function Next(input: ReviewInput, out: Review): ReviewInput
    requires out.observations != []
  {
    var last := out.observations[|out.observations| - 1];
    Below(input, last.recordedAt, last.id)
  }

  /** Reviews of the same rows, each at the last view of the one before, down to an empty one. */
  ghost predicate IsQuietWalk(rows: seq<Record>, input: ReviewInput, outs: seq<Review>)
    decreases |outs|
  {
    && outs != []
    && ReviewOf(rows, input) == Success(outs[0])
    && if outs[0].observations == [] then |outs| == 1 else IsQuietWalk(rows, Next(input, outs[0]), outs[1..])
  }

  ghost predicate Settled(rows: seq<Record>) {
    UniqueIds(rows) && forall r :: r in rows ==> Stamped(r)
  }

  /** input is where a walk from `start` begins, or one of the inputs it comes to. */
  ghost predicate Reached(input: ReviewInput, start: ReviewInput) {
    && FilterOf(start).Success? && FilterOf(input).Success?
    && input == start.(before := input.before, beforeId := input.beforeId)
    && OnWalk(FilterOf(input).value, FilterOf(start).value)
  }

  /** What is left of the match below a page is the match of the next input. */
  lemma NextReview(rows: seq<Record>, start: ReviewInput, input: ReviewInput, out: Review)
    requires Settled(rows) && Reached(input, start)
    requires ReviewOf(rows, input) == Success(out) && out.observations != []
    ensures Reached(Next(input, out), start)
    ensures
      var f, g := FilterOf(input).value, FilterOf(Next(input, out)).value;
      && |out.observations| == |PageOf(rows, f)| <= |Newest(Match(rows, f))|
      && Newest(Match(rows, g)) == Newest(Match(rows, f))[|out.observations|..]
  {
    var f := FilterOf(input).value;
    var last := LastOfPage(rows, input, out);
    assert OnWalk(f, FilterOf(start).value) && UniqueIds(rows);
    hide *;
    NextResumes(rows, start, input, out, last);
    RestAfterPage(rows, f, FilterOf(Next(input, out)).value, FilterOf(start).value);
    ReviewIsFront(rows, input, out);
  }

  lemma LastOfPage(rows: seq<Record>, input: ReviewInput, out: Review) returns (last: Record)
    requires Settled(rows) && ReviewOf(rows, input) == Success(out) && out.observations != []
    ensures
      var page := PageOf(rows, FilterOf(input).value);
      && |page| == |out.observations| && last == page[|page| - 1] && last in rows
      && Next(input, out) == Below(input, last.recordedAt, last.id)
  {
    hide FilterOf, ListingOf, UniqueIds, Stamped;
    ReviewPage(rows, input, out);
    var page := PageOf(rows, FilterOf(input).value);
    last := page[|page| - 1];
    assert last in page;
    assert UniqueIds(rows);
    PageMembers(rows, FilterOf(input).value, last);
  }

  lemma NextResumes(rows: seq<Record>, start: ReviewInput, input: ReviewInput, out: Review, last: Record)
    requires Settled(rows) && Reached(input, start) && last in rows && out.observations != []
    requires Next(input, out) == Below(input, last.recordedAt, last.id)
    ensures Reached(Next(input, out), start)
    ensures Resumes(FilterOf(Next(input, out)).value, FilterOf(start).value, last)
  {
    hide FilterOf, StampedAt, CanPage, UniqueIds;
    assert Stamped(last);
    var t, random :| StampedAt(last, t, random) && CanPage(t);
    CursorRoundTrip(start, last, t, random);
    assert Next(input, out) == Below(start, last.recordedAt, last.id);
  }

  /** A walk of a quiet store comes to its end: the total is smaller at each step. */
  lemma {:induction false} QuietWalkEnds(rows: seq<Record>, start: ReviewInput, input: ReviewInput) returns (outs: seq<Review>)
    requires Settled(rows) && Reached(input, start)
    ensures IsQuietWalk(rows, input, outs)
    decreases |Newest(Match(rows, FilterOf(input).value))|
  {
    var out := ReviewOf(rows, input).value;
    if out.observations == [] {
      outs := [out];
    } else {
      NextReview(rows, start, input, out);
      var rest := QuietWalkEnds(rows, start, Next(input, out));
      outs := [out] + rest;
      assert outs[1..] == rest;
    }
  }

  /** All views of a walk, one page after the other. */
  function Shown(outs: seq<Review>): seq<View> {
    if outs == [] then [] else outs[0].observations + Shown(outs[1..])
  }

  lemma {:induction false} ViewsSplit(s: seq<Record>, n: nat)
    requires n <= |s|
    ensures Views(s) == Views(s[..n]) + Views(s[n..])
  {
    var a, b := Views(s), Views(s[..n]) + Views(s[n..]);
    forall i | 0 <= i < |s|
      ensures a[i] == b[i]
    {
      if i < n {
        assert b[i] == Views(s[..n])[i] == ViewOf(s[..n][i]);
      } else {
        assert b[i] == Views(s[n..])[i - n] == ViewOf(s[n..][i - n]);
      }
    }
  }

  /** One review of a walk: its page is the front of the match, and its total is the match's size. */
  lemma ReviewIsFront(rows: seq<Record>, input: ReviewInput, out: Review)
    requires ReviewOf(rows, input) == Success(out)
    ensures
      var s := Newest(Match(rows, FilterOf(input).value));
      && |out.observations| <= |s| == out.total
      && out.observations == Views(s[..|out.observations|])
      && (out.truncated <==> |out.observations| < |s|)
      && (out.observations == [] <==> s == [])
  {
    hide FilterOf, Match, Newest, Tally, Views;
    var s := Newest(Match(rows, FilterOf(input).value));
    assert out.observations == Views(Sql.FirstRows(s, PageSize(FilterOf(input).value)));
    assert s[..|s|] == s;
  }

  /**
   Each total is the one before less the page just shown, a review is truncated
   exactly when the next one still has rows, and the last leaves nothing.
   */
  ghost predicate CountsDown(outs: seq<Review>) {
    && outs != []
    && (forall i :: 0 <= i < |outs| - 1 ==> outs[i + 1].total == outs[i].total - |outs[i].observations| < outs[i].total)
    && (forall i :: 0 <= i < |outs| - 1 ==> (outs[i].truncated <==> outs[i + 1].observations != []))
    && !outs[|outs| - 1].truncated && outs[|outs| - 1].total == 0
  }

  lemma CountsDownFrom(out: Review, rest: seq<Review>)
    requires CountsDown(rest)
    requires rest[0].total == out.total - |out.observations| < out.total
    requires out.truncated <==> rest[0].observations != []
    ensures CountsDown([out] + rest)
  {
    var outs := [out] + rest;
    forall i | 0 <= i < |outs| - 1
      ensures outs[i + 1].total == outs[i].total - |outs[i].observations| < outs[i].total
      ensures outs[i].truncated <==> outs[i + 1].observations != []
    {
      if i > 0 {
        assert outs[i] == rest[i - 1] && outs[i + 1] == rest[i - 1 + 1];
      }
    }
  }

  /** Every view a review could come to show, newest first. */
  function MatchViews(rows: seq<Record>, input: ReviewInput): seq<View>
    requires FilterOf(input).Success?
  {
    Views(Newest(Match(rows, FilterOf(input).value)))
  }

  lemma FrontOfViews(rows: seq<Record>, input: ReviewInput, out: Review)
    requires ReviewOf(rows, input) == Success(out)
    ensures FilterOf(input).Success? && out.total == |MatchViews(rows, input)|
    ensures out.truncated <==> |out.observations| < out.total
    ensures out.observations == [] <==> MatchViews(rows, input) == []
  {
    hide Newest, Match, FilterOf;
    ReviewIsFront(rows, input, out);
  }

  lemma RestOfViews(rows: seq<Record>, start: ReviewInput, input: ReviewInput, out: Review)
    requires Settled(rows) && Reached(input, start)
    requires ReviewOf(rows, input) == Success(out) && out.observations != []
    ensures Reached(Next(input, out), start)
    ensures MatchViews(rows, input) == out.observations + MatchViews(rows, Next(input, out))
  {
    NextReview(rows, start, input, out);
    ReviewIsFront(rows, input, out);
    hide Newest, Match, FilterOf, ReviewOf, Next;
    ViewsSplit(Newest(Match(rows, FilterOf(input).value)), |out.observations|);
  }

  /** The pages of a quiet walk, put together, are the whole match newest first, and its totals count down to nothing. */
  lemma {:induction false} QuietWalkIsSortedMatch(rows: seq<Record>, start: ReviewInput, input: ReviewInput, outs: seq<Review>)
    requires Settled(rows) && Reached(input, start) && IsQuietWalk(rows, input, outs)
    ensures Shown(outs) == MatchViews(rows, input)
    ensures CountsDown(outs)
    decreases |outs|
  {
    hide ReviewOf, FilterOf, MatchViews, Settled, Reached, Next, CountsDown, Shown;
    FrontOfViews(rows, input, outs[0]);
    ShownCons(outs);
    if outs[0].observations == [] {
      ShownNothing(outs[1..]);
      CountsDownEnd(outs);
    } else {
      RestOfViews(rows, start, input, outs[0]);
      FrontOfViews(rows, Next(input, outs[0]), outs[1]);
      QuietWalkIsSortedMatch(rows, start, Next(input, outs[0]), outs[1..]);
      CountsDownFrom(outs[0], outs[1..]);
      assert outs == [outs[0]] + outs[1..];
    }
  }

  lemma ShownNothing(outs: seq<Review>)
    requires outs == []
    ensures Shown(outs) == []
  {
  }

  lemma CountsDownEnd(outs: seq<Review>)
    requires |outs| == 1 && outs[0].total == 0 && !outs[0].truncated
    ensures CountsDown(outs)
  {
  }

  lemma ShownCons(outs: seq<Review>)
    requires outs != []
    ensures Shown(outs) == outs[0].observations + Shown(outs[1..])
  {
  }
}
