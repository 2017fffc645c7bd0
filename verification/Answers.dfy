/**
 What a review answers, in terms of the rows and of the input alone: which rows
 it shows, in which order, how many there are, and what it says of each.
 */
module Answers {
  import opened Wrappers
  import opened Collation
  import opened Timestamps
  import opened Rfc3339
  import opened Identifiers
  import opened Observations
  import Sql
  import opened Store
  import opened Text
  import opened Clip
  import opened Paging
  import opened Server

  /** Every filter that is set holds of the row; the zero instant counts as not set. */
  predicate Meets(q: ReviewInput, r: Record) {
    && (Normal(q.cls) == "" || r.obs.cls == Normal(q.cls))
    && (TrimSpace(q.scopeKind) == "" || r.obs.scopeKind == TrimSpace(q.scopeKind))
    && (Normal(q.scopeRef) == "" || r.obs.scopeRef == Normal(q.scopeRef))
    && (match Parse(TrimSpace(q.since))
        case None => true
        case Some(t) => t == ZERO_INSTANT || !Less(r.recordedAt, FormatTime(t)))
    && (match Parse(TrimSpace(q.before))
        case None => true
        case Some(t) =>
          || t == ZERO_INSTANT
          || Less(r.recordedAt, FormatTime(t))
          || (TrimSpace(q.beforeId) != "" && r.recordedAt == FormatTime(t) && Less(r.id, TrimSpace(q.beforeId))))
  }

  lemma BlankIsNoTime()
    ensures Parse("") == None
  {
  }

  lemma MeetsIsMatch(q: ReviewInput, r: Record)
    requires FilterOf(q).Success?
    ensures Meets(q, r) <==> Matches(FilterOf(q).value, r)
  {
    hide Parse, FormatTime, Less, TrimSpace, Normal;
    BlankIsNoTime();
  }

  /**
   A review is refused exactly when one of its times is not blank and unreadable,
   or when it has a before_id and no before; a before at the zero instant is none.
   */
  lemma RefusesExactly(rows: seq<Record>, q: ReviewInput)
    ensures
      var since, before := TrimSpace(q.since), TrimSpace(q.before);
      var badSince := since != "" && Parse(since) == None;
      var badBefore := before != "" && Parse(before) == None;
      var timeless := TrimSpace(q.beforeId) != "" && (before == "" || Parse(before) == Some(-62_135_596_800_000_000_000));
      && (ReviewOf(rows, q).Success? <==> !badSince && !badBefore && !timeless)
      && (badSince ==> ReviewOf(rows, q) == Failure(BadSince))
      && (!badSince && badBefore ==> ReviewOf(rows, q) == Failure(BadBefore))
      && (!badSince && !badBefore && timeless ==> ReviewOf(rows, q) == Failure(CursorWithoutTime))
  {
    hide Parse, TrimSpace, ListingOf, Views, Normal;
  }

  /** How many observations a page may have: fifty unless a positive number is asked for. */
  function Room(q: ReviewInput): int {
    if q.limit > 0 then q.limit else 50
  }

  lemma PageOfReview(rows: seq<Record>, q: ReviewInput, out: Review)
    requires UniqueIds(rows) && ReviewOf(rows, q) == Success(out)
    ensures FilterOf(q).Success?
    ensures
      var f := FilterOf(q).value;
      var page, m := PageOf(rows, f), Match(rows, f);
      && |out.observations| == |page| <= |Newest(m)| == |m| == out.total
      && (forall j :: 0 <= j < |page| ==> out.observations[j] == ViewOf(page[j]) && page[j] == Newest(m)[j])
      && |page| == (if Room(q) < out.total then Room(q) else out.total)
      && NewestFirst(Newest(m)) && UniqueIds(m) && (out.truncated <==> out.total > |page|)
      && out.classCounts == Tally(m)
  {
    hide Parse, FormatTime, Less, TrimSpace, Normal, Tally, Match, Newest, NewestFirst, UniqueIds;
    var m := Match(rows, FilterOf(q).value);
    MatchUnique(rows, FilterOf(q).value);
    NewestIsOrdered(m);
  }

  /**
   Each observation shown is that of one row, field by field, and the row meets
   every filter. Only the text may be cut, at 1000 bytes, and then it is marked.
   */
  lemma ShowsRows(rows: seq<Record>, q: ReviewInput, out: Review, j: nat)
    requires UniqueIds(rows) && ReviewOf(rows, q) == Success(out) && j < |out.observations|
    ensures exists r :: r in rows && Meets(q, r) && Shows(out.observations[j], r)
  {
    PageOfReview(rows, q, out);
    var page := PageOf(rows, FilterOf(q).value);
    hide ReviewOf, PageOf, FilterOf, Meets, Matches, UniqueIds, NewestFirst, Newest, Match, Tally;
    PageMembers(rows, FilterOf(q).value, page[j]);
    MeetsIsMatch(q, page[j]);
    assert Shows(out.observations[j], page[j]);
  }

  /** The view has the row's fields. */
  predicate Shows(v: View, r: Record) {
    && v.id == r.id && v.recordedAt == r.recordedAt
    && v.cls == r.obs.cls && v.scopeKind == r.obs.scopeKind && v.scopeRef == r.obs.scopeRef
    && v.subject == r.obs.subject && v.agent == r.obs.agent
    && (v.observationTruncated <==> |r.obs.text| > 1000)
    && v.observation == (if |r.obs.text| > 1000 then Clipped(r.obs.text, 1000) else r.obs.text)
  }

  /**
   A row is shown only if it meets every filter that is set; one that meets them
   all is left out only by a full page, every observation of which is newer.
   */
  lemma FindsRow(rows: seq<Record>, q: ReviewInput, out: Review, r: Record)
    requires UniqueIds(rows) && ReviewOf(rows, q) == Success(out) && r in rows
    ensures
      var shown := exists j :: 0 <= j < |out.observations| && out.observations[j].id == r.id;
      var meets :=
        && (Normal(q.cls) == "" || r.obs.cls == Normal(q.cls))
        && (TrimSpace(q.scopeKind) == "" || r.obs.scopeKind == TrimSpace(q.scopeKind))
        && (Normal(q.scopeRef) == "" || r.obs.scopeRef == Normal(q.scopeRef))
        && (match Parse(TrimSpace(q.since))
            case None => true
            case Some(t) => t == ZERO_INSTANT || !Less(r.recordedAt, FormatTime(t)))
        && (match Parse(TrimSpace(q.before))
            case None => true
            case Some(t) =>
              || t == ZERO_INSTANT
              || Less(r.recordedAt, FormatTime(t))
              || (TrimSpace(q.beforeId) != "" && r.recordedAt == FormatTime(t) && Less(r.id, TrimSpace(q.beforeId))));
      && (shown ==> meets)
      && (meets && !shown ==>
            && |out.observations| == (if q.limit > 0 then q.limit else 50)
            && forall j :: 0 <= j < |out.observations| ==>
                 var v := out.observations[j];
                 Less(r.recordedAt, v.recordedAt) || (r.recordedAt == v.recordedAt && Less(r.id, v.id)))
  {
    hide Parse, FormatTime, Less, TrimSpace, Normal, ReviewOf, FilterOf, PageOf, UniqueIds;
    PageOfReview(rows, q, out);
    MeetsIsMatch(q, r);
    var f := FilterOf(q).value;
    var page := PageOf(rows, f);
    if j :| 0 <= j < |page| && page[j].id == r.id {
      PageMembers(rows, f, page[j]);
      SameId(rows, page[j], r);
    } else if Matches(f, r) {
      LeftOut(rows, f, r);
      assert forall j :: 0 <= j < |page| ==> out.observations[j].id == page[j].id;
      assert Room(q) == if q.limit > 0 then q.limit else 50;
    }
  }

  lemma SameId(rows: seq<Record>, r: Record, s: Record)
    requires UniqueIds(rows) && r in rows && s in rows && r.id == s.id
    ensures r == s
  {
  }

  /** A matching row that is not on the page is older than every row of it. */
  lemma LeftOut(rows: seq<Record>, f: Filter, r: Record)
    requires UniqueIds(rows) && r in rows && Matches(f, r) && r !in PageOf(rows, f)
    ensures |PageOf(rows, f)| < |Match(rows, f)|
    ensures forall j :: 0 <= j < |PageOf(rows, f)| ==> KeyLess(r, PageOf(rows, f)[j])
  {
    var page := PageOf(rows, f);
    PageOrBelow(rows, f, r);
    MatchMembers(rows, f, r);
    NewestHas(Match(rows, f), r);
    assert Newest(Match(rows, f))[..|Newest(Match(rows, f))|] == Newest(Match(rows, f));
    hide PageOf, Match, Matches, UniqueIds, KeyLess;
    forall j | 0 <= j < |page|
      ensures KeyLess(r, page[j])
    {
      PageMembers(rows, f, page[j]);
      if page[j] != page[|page| - 1] {
        KeyLessIsTransitive(r, page[|page| - 1], page[j]);
      }
    }
  }

  /** Newest first; of one millisecond, the larger id first. No observation is shown twice. */
  lemma ShowsNewestFirst(rows: seq<Record>, q: ReviewInput, out: Review, i: nat, j: nat)
    requires UniqueIds(rows) && ReviewOf(rows, q) == Success(out) && i < j < |out.observations|
    ensures
      var v, w := out.observations[i], out.observations[j];
      && v.id != w.id
      && (Less(w.recordedAt, v.recordedAt) || (w.recordedAt == v.recordedAt && Less(w.id, v.id)))
  {
    hide Parse, FormatTime, Less, TrimSpace, Normal, ReviewOf, FilterOf, PageOf, UniqueIds, Match, Newest, Tally;
    PageOfReview(rows, q, out);
    var page := PageOf(rows, FilterOf(q).value);
    assert KeyLess(page[j], page[i]);
    PageMembers(rows, FilterOf(q).value, page[i]);
    PageMembers(rows, FilterOf(q).value, page[j]);
    if page[i].id == page[j].id {
      SameId(rows, page[i], page[j]);
    }
    PairLessIsTotal(page[j].recordedAt, page[j].id, page[i].recordedAt, page[i].id);
  }

  /** The rows that meet every filter. */
  function Meeting(rows: seq<Record>, q: ReviewInput): set<Record> {
    set r | r in rows && Meets(q, r)
  }

  lemma {:induction false} CountsAsSet(m: seq<Record>)
    requires UniqueIds(m)
    ensures |m| == |set r | r in m|
  {
    if m != [] {
      CountsAsSet(m[1..]);
      assert m == [m[0]] + m[1..];
      assert (set r | r in m) == (set r | r in m[1..]) + {m[0]};
      assert forall r :: r in m[1..] ==> r.id != m[0].id;
    }
  }

  lemma {:induction false} MultiplicityAsSet(m: seq<Record>, cls: string)
    requires UniqueIds(m)
    ensures Multiplicity(m, cls) == |set r | r in m && r.obs.cls == cls|
  {
    if m != [] {
      MultiplicityAsSet(m[1..], cls);
      SetOfClass(m, cls);
    }
  }

  lemma SetOfClass(m: seq<Record>, cls: string)
    requires UniqueIds(m) && m != []
    ensures
      var rest := set r | r in m[1..] && r.obs.cls == cls;
      |set r | r in m && r.obs.cls == cls| == |rest| + if m[0].obs.cls == cls then 1 else 0
  {
    var rest := set r | r in m[1..] && r.obs.cls == cls;
    assert m == [m[0]] + m[1..];
    if m[0].obs.cls == cls {
      assert (set r | r in m && r.obs.cls == cls) == rest + {m[0]};
      assert m[0] !in m[1..];
    } else {
      assert (set r | r in m && r.obs.cls == cls) == rest;
    }
  }

  lemma MeetingIsMatch(rows: seq<Record>, q: ReviewInput)
    requires FilterOf(q).Success?
    ensures Meeting(rows, q) == set r | r in Match(rows, FilterOf(q).value)
  {
    hide Meets, Matches, FilterOf;
    forall r
      ensures r in Meeting(rows, q) <==> r in Match(rows, FilterOf(q).value)
    {
      MatchMembers(rows, FilterOf(q).value, r);
      MeetsIsMatch(q, r);
    }
  }

  /** The total is the number of rows that meet every filter, and the page has as many of them as there is room for. */
  lemma CountsRows(rows: seq<Record>, q: ReviewInput, out: Review)
    requires UniqueIds(rows) && ReviewOf(rows, q) == Success(out)
    ensures out.total == |Meeting(rows, q)|
    ensures q.limit > 0 ==> |out.observations| == (if q.limit < out.total then q.limit else out.total)
    ensures q.limit <= 0 ==> |out.observations| == (if 50 < out.total then 50 else out.total)
    ensures out.truncated <==> |out.observations| < out.total
  {
    hide Parse, FormatTime, Less, TrimSpace, Normal, ReviewOf, FilterOf, PageOf, UniqueIds, Match, Newest, Tally, Meeting;
    PageOfReview(rows, q, out);
    CountsAsSet(Match(rows, FilterOf(q).value));
    MeetingIsMatch(rows, q);
  }

  /**
   The class counts name each class of the rows that meet every filter, once,
   with the number of its rows; larger counts come first, and equal counts by name.
   */
  lemma CountsClasses(rows: seq<Record>, q: ReviewInput, out: Review)
    requires UniqueIds(rows) && ReviewOf(rows, q) == Success(out)
    ensures forall e :: e in out.classCounts ==> e.count == |set r | r in Meeting(rows, q) && r.obs.cls == e.cls| > 0
    ensures forall r :: r in Meeting(rows, q) ==> exists e :: e in out.classCounts && e.cls == r.obs.cls
    ensures forall i, j :: 0 <= i < j < |out.classCounts| ==>
      var d, e := out.classCounts[i], out.classCounts[j];
      d.cls != e.cls && (d.count > e.count || (d.count == e.count && Less(d.cls, e.cls)))
  {
    hide Parse, FormatTime, Less, TrimSpace, Normal, ReviewOf, FilterOf, PageOf, UniqueIds, Match, Newest, Tally, Meeting;
    PageOfReview(rows, q, out);
    var m := Match(rows, FilterOf(q).value);
    TallyIsExact(m);
    MeetingIsMatch(rows, q);
    forall e | e in out.classCounts
      ensures e.count == |set r | r in Meeting(rows, q) && r.obs.cls == e.cls| > 0
    {
      MultiplicityAsSet(m, e.cls);
      assert (set r | r in Meeting(rows, q) && r.obs.cls == e.cls) == (set r | r in m && r.obs.cls == e.cls);
    }
    forall r | r in Meeting(rows, q)
      ensures exists e :: e in out.classCounts && e.cls == r.obs.cls
    {
      assert ClassCount(r.obs.cls, Multiplicity(m, r.obs.cls)) in out.classCounts;
    }
  }

  // ---------- From the input of a record to the answer of a review ----------

  /**
   Records an observation and reviews the store, others committing at any point.
   Whatever the review shows under the new id is what was recorded, normalised.
   */
  method RecordThenReview(
    store: Store, input: RecordInput, agent: string, now: Instant, random: Option<seq<bv8>>, others: Moment,
    q: ReviewInput, first: Moment, second: Moment, third: Moment)
    returns (recorded: Result<Stamp, Problem>, answer: Result<Review, Problem>)
    requires store.IsOpen() && (random.Some? ==> |random.value| == 10)
    modifies store.readDB
    ensures recorded.Success? && answer.Success? && UniqueIds(store.readDB.rows) ==>
      forall j :: 0 <= j < |answer.value.observations| && answer.value.observations[j].id == recorded.value.id ==>
        var v, text := answer.value.observations[j], TrimSpace(input.observation);
        && v.recordedAt == recorded.value.recordedAt == FormatTime(now)
        && v.cls == Normal(input.cls)
        && v.scopeKind == (if TrimSpace(input.scopeKind) == "" then "project" else TrimSpace(input.scopeKind))
        && v.scopeRef == Normal(input.scopeRef)
        && v.subject == TrimSpace(input.subject)
        && v.agent == agent
        && v.observation == Clipped(text, 1000)
        && (v.observationTruncated <==> |text| > 1000)
  {
    hide Normal, TrimSpace, ReviewOf, FilterOf, ObservationOf, FormatTime, Uuid, Meets;
    recorded := RecordObservation(false, store, input, agent, now, random, others);
    ghost var after := store.readDB.rows;
    answer := ReviewObservations(false, store, q, first, second, third);
    if recorded.Success? && answer.Success? && UniqueIds(store.readDB.rows) {
      ghost var rec := after[|after| - 1];
      ghost var pinned := after + if first.Commits? then first.rows else [];
      UniquePrefix(pinned, store.readDB.rows);
      assert rec in pinned;
      forall j | 0 <= j < |answer.value.observations| && answer.value.observations[j].id == rec.id
        ensures Shows(answer.value.observations[j], rec)
      {
        ShowsRows(pinned, q, answer.value, j);
        ghost var r :| r in pinned && Meets(q, r) && Shows(answer.value.observations[j], r);
        SameId(pinned, r, rec);
      }
    }
  }

  lemma UniquePrefix(a: seq<Record>, b: seq<Record>)
    requires a <= b && UniqueIds(b)
    ensures UniqueIds(a)
  {
    assert forall i :: 0 <= i < |a| ==> a[i] == b[i];
  }

  /**
   A recorded observation meets a review's class, scope_kind and scope_ref,
   spelled in whatever way, exactly when each that is not blank is the recorded
   one in the form it is stored in.
   */
  lemma RecordedMeets(rec: Record, input: RecordInput, agent: string, cls: string, scopeKind: string, scopeRef: string, limit: int)
    requires ObservationOf(input, agent) == Success(rec.obs)
    ensures Meets(ReviewInput(cls, scopeKind, scopeRef, "", "", "", limit), rec) <==>
      && Normal(cls) in {"", Normal(input.cls)}
      && TrimSpace(scopeKind) in
           {"", if TrimSpace(input.scopeKind) == "" then "project" else TrimSpace(input.scopeKind)}
      && Normal(scopeRef) in {"", Normal(input.scopeRef)}
  {
    hide Parse, FormatTime, Less, TrimSpace, Normal;
    BlankIsBlank();
    BlankIsNoTime();
  }
}
