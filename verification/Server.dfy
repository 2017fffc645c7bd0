/**
 The two tools: recording an observation and reviewing the store.

 A review is a function of the rows it is pinned to and of its input; the
 handler below is proved to compute it whatever is committed meanwhile.
 */
module Server {
  import opened Wrappers
  import opened Collation
  import opened Timestamps
  import opened Rfc3339
  import opened Identifiers
  import opened Observations
  import opened Schema
  import opened Store
  import opened Text
  import opened Clip
  import opened Paging

  const SCOPE_PROJECT := "project"
  const OBSERVATION_TEXT_CAP := 1000

  datatype RecordInput = RecordInput(
    observation: string, cls: string, scopeKind: string, scopeRef: string, subject: string)

  datatype ReviewInput = ReviewInput(
    cls: string, scopeKind: string, scopeRef: string, since: string, before: string, beforeId: string, limit: int)

  datatype Refusal =
    | Unavailable | BlankObservation | BlankClass | MissingScopeRef | BadSince | BadBefore | CursorWithoutTime

  datatype Problem = Refused(why: Refusal) | StorageFailed(error: StoreError)

  datatype Stamp = Stamp(id: string, recordedAt: string)

  datatype View = View(
    id: string, recordedAt: string, cls: string, observation: string, scopeKind: string, scopeRef: string,
    subject: string, agent: string, observationTruncated: bool)

  datatype Review = Review(observations: seq<View>, classCounts: seq<ClassCount>, total: nat, truncated: bool)

  // ---------- Recording ----------

  /** What a record input is stored as, or why it is malformed. */
  function ObservationOf(input: RecordInput, agent: string): Result<Observation, Refusal> {
    var scopeKind := if TrimSpace(input.scopeKind) == "" then SCOPE_PROJECT else TrimSpace(input.scopeKind);
    if TrimSpace(input.observation) == "" then Failure(BlankObservation)
    else if Normal(input.cls) == "" then Failure(BlankClass)
    else if scopeKind == SCOPE_PROJECT && Normal(input.scopeRef) == "" then Failure(MissingScopeRef)
    else Success(Observation(
      Normal(input.cls), TrimSpace(input.observation), scopeKind, Normal(input.scopeRef), TrimSpace(input.subject), agent))
  }

  /**
   Records an observation. `unavailable` is decided before any handler runs.
   A refusal depends on the input alone: no store content, clock, random source
   or other process can bring one about or prevent it.
   */
  method RecordObservation(
    unavailable: bool, store: Store?, input: RecordInput, agent: string,
    now: Instant, random: Option<seq<bv8>>, others: Moment)
    returns (r: Result<Stamp, Problem>)
    requires !unavailable ==> store != null && store.IsOpen()
    requires random.Some? ==> |random.value| == 10
    modifies if unavailable || store == null then {} else {store.writeDB}
    ensures r.Failure? && r.error.Refused? <==> unavailable || ObservationOf(input, agent).Failure?
    ensures r.Failure? && r.error.Refused? <==>
      || unavailable
      || TrimSpace(input.observation) == ""
      || Normal(input.cls) == ""
      || (TrimSpace(input.scopeKind) in {"", "project"} && Normal(input.scopeRef) == "")
    ensures unavailable ==> r == Failure(Refused(Unavailable))
    ensures !unavailable && TrimSpace(input.observation) == "" ==> r == Failure(Refused(BlankObservation))
    ensures !unavailable && TrimSpace(input.observation) != "" && Normal(input.cls) == "" ==>
      r == Failure(Refused(BlankClass))
    ensures !unavailable && TrimSpace(input.observation) != "" && Normal(input.cls) != "" && r.Failure? && r.error.Refused? ==>
      r == Failure(Refused(MissingScopeRef))
    ensures !unavailable && ObservationOf(input, agent).Failure? ==>
      && r == Failure(Refused(ObservationOf(input, agent).error))
      && store.writeDB.rows == old(store.writeDB.rows)
    ensures r.Success? <==>
      && !unavailable && ObservationOf(input, agent).Success?
      && random.Some? && !others.Fails? && HasTable(store.writeDB.schema, OBSERVATION)
      && forall x :: x in old(store.writeDB.rows) + (if others.Commits? then others.rows else []) ==>
           x.id != Uuid(Millis(now), random.value)
    ensures r.Success? ==>
      var rows := store.writeDB.rows;
      && |rows| > 0
      && var rec := rows[|rows| - 1];
      && rows == old(store.writeDB.rows) + (if others.Commits? then others.rows else []) + [rec]
      && rec.id == r.value.id == Uuid(Millis(now), random.value)
      && rec.recordedAt == r.value.recordedAt == FormatTime(now)
      && rec.obs.cls == Normal(input.cls)
      && rec.obs.text == TrimSpace(input.observation)
      && rec.obs.scopeKind == (if TrimSpace(input.scopeKind) == "" then "project" else TrimSpace(input.scopeKind))
      && rec.obs.scopeRef == Normal(input.scopeRef)
      && rec.obs.subject == TrimSpace(input.subject)
      && rec.obs.agent == agent
  {
    hide TrimSpace, ToLower, Uuid, FormatTime;
    RefusalSet(input, agent);
    if unavailable {
      return Failure(Refused(Unavailable));
    }
    var observation := TrimSpace(input.observation);
    if observation == "" {
      return Failure(Refused(BlankObservation));
    }
    var cls := ToLower(TrimSpace(input.cls));
    if cls == "" {
      return Failure(Refused(BlankClass));
    }
    var scopeKind := TrimSpace(input.scopeKind);
    if scopeKind == "" {
      scopeKind := SCOPE_PROJECT;
    }
    var scopeRef := ToLower(TrimSpace(input.scopeRef));
    if scopeKind == SCOPE_PROJECT && scopeRef == "" {
      return Failure(Refused(MissingScopeRef));
    }
    var appended := store.Append(
      Observation(cls, observation, scopeKind, scopeRef, TrimSpace(input.subject), agent), now, random, others);
    match appended
    case Failure(error) => return Failure(StorageFailed(error));
    case Success(rec) => return Success(Stamp(rec.id, rec.recordedAt));
  }

  /** The refusal set: blank observation, blank class, or a project without its reference. */
  lemma RefusalSet(input: RecordInput, agent: string)
    ensures ObservationOf(input, agent).Failure? <==>
      || TrimSpace(input.observation) == ""
      || Normal(input.cls) == ""
      || (TrimSpace(input.scopeKind) in {"", SCOPE_PROJECT} && Normal(input.scopeRef) == "")
  {
    hide TrimSpace, Normal;
  }

  // ---------- Reviewing ----------

  /** A time field: absent when blank, refused when it is no timestamp. */
  function TimeOf(raw: string, refusal: Refusal): Result<Instant, Refusal> {
    if TrimSpace(raw) == "" then Success(ZERO_INSTANT)
    else match Parse(TrimSpace(raw))
      case None => Failure(refusal)
      case Some(t) => Success(t)
  }

  /** The filter a review input asks for. */
  function FilterOf(input: ReviewInput): Result<Filter, Refusal> {
    match TimeOf(input.since, BadSince)
    case Failure(why) => Failure(why)
    case Success(since) =>
      match TimeOf(input.before, BadBefore)
      case Failure(why) => Failure(why)
      case Success(before) =>
        if TrimSpace(input.beforeId) != "" && before == ZERO_INSTANT then Failure(CursorWithoutTime)
        else Success(Filter(
          Normal(input.cls), TrimSpace(input.scopeKind), Normal(input.scopeRef),
          since, before, TrimSpace(input.beforeId), input.limit))
  }

  function ViewOf(r: Record): View {
    View(r.id, r.recordedAt, r.obs.cls, Clipped(r.obs.text, OBSERVATION_TEXT_CAP), r.obs.scopeKind, r.obs.scopeRef,
         r.obs.subject, r.obs.agent, |r.obs.text| > OBSERVATION_TEXT_CAP)
  }

  function Views(rows: seq<Record>): (v: seq<View>)
    ensures |v| == |rows| && forall i :: 0 <= i < |rows| ==> v[i] == ViewOf(rows[i])
  {
    if rows == [] then [] else [ViewOf(rows[0])] + Views(rows[1..])
  }

  /** What a review of these rows answers. */
  function ReviewOf(rows: seq<Record>, input: ReviewInput): Result<Review, Refusal> {
    match FilterOf(input)
    case Failure(why) => Failure(why)
    case Success(f) =>
      var l := ListingOf(rows, f);
      Success(Review(Views(l.page), l.classes, l.total, l.total > |l.page|))
  }

  /** The first half of a review: the input's fields, one after the other, or a refusal. */
  method ReadFilter(input: ReviewInput) returns (r: Result<Filter, Refusal>)
    ensures r == FilterOf(input)
  {
    hide Parse, TrimSpace, ToLower;
    var filter := Filter(
      ToLower(TrimSpace(input.cls)), TrimSpace(input.scopeKind), ToLower(TrimSpace(input.scopeRef)),
      ZERO_INSTANT, ZERO_INSTANT, TrimSpace(input.beforeId), input.limit);
    var raw := TrimSpace(input.since);
    if raw != "" {
      match Parse(raw)
      case None => return Failure(BadSince);
      case Some(t) => filter := filter.(since := t);
    }
    raw := TrimSpace(input.before);
    if raw != "" {
      match Parse(raw)
      case None => return Failure(BadBefore);
      case Some(t) => filter := filter.(before := t);
    }
    if filter.beforeId != "" && filter.before == ZERO_INSTANT {
      return Failure(CursorWithoutTime);
    }
    return Success(filter);
  }

  /** Appends a list's entries one by one. */
  method Collect<T>(found: seq<T>) returns (rows: seq<T>)
    ensures rows == found
  {
    rows := [];
    for i := 0 to |found|
      invariant rows == found[..i]
    {
      rows := rows + [found[i]];
    }
  }

  /** The second half: rows become views, with long text cut. */
  method RenderListing(l: Listing) returns (r: Review)
    ensures r == Review(Views(l.page), l.classes, l.total, l.total > |l.page|)
  {
    hide Views;
    var views: seq<View> := [];
    for i := 0 to |l.page|
      invariant views == Views(l.page)[..i]
    {
      var row := l.page[i];
      var text, clipped := Cut(row.obs.text, OBSERVATION_TEXT_CAP);
      var view := View(
        row.id, row.recordedAt, row.obs.cls, text, row.obs.scopeKind, row.obs.scopeRef,
        row.obs.subject, row.obs.agent, clipped);
      assert view == ViewOf(row);
      views := views + [view];
    }
    var counts := Collect(l.classes);
    return Review(views, counts, l.total, l.total > |views|);
  }

  /**
   Reviews the store while other processes commit before each query. The answer
   is that of one committed state: what was there at the first query.
   */
  method ReviewObservations(unavailable: bool, store: Store?, input: ReviewInput, first: Moment, second: Moment, third: Moment)
    returns (r: Result<Review, Problem>)
    requires !unavailable ==> store != null && store.IsOpen()
    modifies if unavailable || store == null then {} else {store.readDB}
    ensures unavailable ==> r == Failure(Refused(Unavailable))
    ensures !unavailable && FilterOf(input).Failure? ==>
      && r == Failure(Refused(FilterOf(input).error))
      && store.readDB.rows == old(store.readDB.rows)
    ensures !unavailable && FilterOf(input).Success? ==>
      if first.Fails? || second.Fails? || third.Fails? then r.Failure? && r.error.StorageFailed?
      else
        var pinned := old(store.readDB.rows) + if first.Commits? then first.rows else [];
        r.Success? && ReviewOf(pinned, input) == Success(r.value) && pinned <= store.readDB.rows
  {
    hide FilterOf, ListingOf, Views;
    if unavailable {
      return Failure(Refused(Unavailable));
    }
    var filter := ReadFilter(input);
    if filter.Failure? {
      return Failure(Refused(filter.error));
    }
    var listed := store.List(filter.value, first, second, third);
    if listed.Failure? {
      return Failure(StorageFailed(listed.error));
    }
    var review := RenderListing(listed.value);
    return Success(review);
  }

  // ---------- Recording and finding again ----------

  /** A review by class and scope reference alone. */
  function Lookup(cls: string, scopeRef: string, limit: int): ReviewInput {
    ReviewInput(cls, "", scopeRef, "", "", "", limit)
  }

  lemma BlankIsBlank()
    ensures TrimSpace("") == "" && Normal("") == ""
  {
  }

  /**
   A recorded observation is found under every spelling of its class and scope
   reference with the same normal form, and under no other; a blank spelling
   does not filter at all.
   */
  lemma RecordedIsFound(
    rows: seq<Record>, id: string, at: string, input: RecordInput, agent: string, cls: string, scopeRef: string, limit: int)
    requires ObservationOf(input, agent).Success?
    ensures
      var rec := Record(id, at, ObservationOf(input, agent).value);
      var f := FilterOf(Lookup(cls, scopeRef, limit));
      && f.Success?
      && (rec in Match(rows + [rec], f.value)
          <==> Normal(cls) in {"", Normal(input.cls)} && Normal(scopeRef) in {"", Normal(input.scopeRef)})
  {
    hide TrimSpace, Normal, FormatTime, Less;
    BlankIsBlank();
    var rec := Record(id, at, ObservationOf(input, agent).value);
    var f := FilterOf(Lookup(cls, scopeRef, limit)).value;
    MatchMembers(rows + [rec], f, rec);
    assert (rows + [rec])[|rows|] == rec;
  }

  /** What is stored is already in normal form, so looking it up as stored finds it. */
  lemma StoredFormIsFound(rows: seq<Record>, id: string, at: string, input: RecordInput, agent: string, limit: int)
    requires ObservationOf(input, agent).Success?
    ensures
      var rec := Record(id, at, ObservationOf(input, agent).value);
      var f := FilterOf(Lookup(rec.obs.cls, rec.obs.scopeRef, limit));
      f.Success? && rec in Match(rows + [rec], f.value)
  {
    NormalIsIdempotent(input.cls);
    NormalIsIdempotent(input.scopeRef);
    RecordedIsFound(rows, id, at, input, agent, Normal(input.cls), Normal(input.scopeRef), limit);
  }

  // ---------- Cursors ----------

  /** Stamped as Append stamps rows, at an instant that can serve as a cursor. */
  ghost predicate StampedAt(r: Record, t: Instant, random: seq<bv8>) {
    && |random| == 10
    && r.recordedAt == FormatTime(t) && r.id == Uuid(Millis(t), random)
  }

  predicate CanPage(t: Instant) {
    InLayoutRange(t) && Millis(t) != Millis(ZERO_INSTANT)
  }

  ghost predicate Stamped(r: Record) {
    exists t: Instant, random: seq<bv8> :: StampedAt(r, t, random) && CanPage(t)
  }

  /** The input a caller sends for the page below a given row. */
  function Below(input: ReviewInput, recordedAt: string, id: string): ReviewInput {
    input.(before := recordedAt, beforeId := id)
  }

  lemma StampIsTrimmed(t: Instant)
    ensures FormatTime(t) != "" && TrimSpace(FormatTime(t)) == FormatTime(t)
  {
    hide FormatTime, TrimSpace, Trimmed;
    FormatTimeEnds(t);
    VisibleEnds(FormatTime(t));
    TrimSpaceTrims(FormatTime(t));
  }

  lemma IdIsTrimmed(ms: int, random: seq<bv8>)
    requires |random| == 10
    ensures Uuid(ms, random) != "" && TrimSpace(Uuid(ms, random)) == Uuid(ms, random)
  {
    hide Uuid, TrimSpace, Trimmed;
    UuidEnds(ms, random);
    VisibleEnds(Uuid(ms, random));
    TrimSpaceTrims(Uuid(ms, random));
  }

  /**
   A row's recorded_at and id, sent back as the cursor, are accepted exactly
   when the row's instant lies in the years 0 to 9999 and its millisecond is not
   the one that means "absent"; and then they denote that row.
   */
  lemma CursorRoundTrip(input: ReviewInput, r: Record, t: Instant, random: seq<bv8>)
    requires StampedAt(r, t, random) && FilterOf(input).Success?
    ensures
      var f := FilterOf(Below(input, r.recordedAt, r.id));
      && (f.Success? <==> CanPage(t))
      && (f.Success? ==> Resumes(f.value, FilterOf(input).value, r))
  {
    var next := Below(input, r.recordedAt, r.id);
    hide TrimSpace, Parse, FormatTime, Uuid, InLayoutRange, Normal;
    StampIsTrimmed(t);
    IdIsTrimmed(Millis(t), random);
    ParseRefusesBeyondLayout(t);
    if InLayoutRange(t) {
      ParseFormatTime(t);
      FormatTimeOfMillis(Millis(t) * NANOS_PER_MILLI, t);
      assert Millis(Millis(t) * NANOS_PER_MILLI) == Millis(t);
      assert Millis(ZERO_INSTANT) * NANOS_PER_MILLI == ZERO_INSTANT;
    }
  }

  /** A row stamped in the zero instant's millisecond ends every walk that reaches it with a refusal. */
  lemma ZeroInstantRefused(input: ReviewInput, r: Record, random: seq<bv8>)
    requires StampedAt(r, ZERO_INSTANT, random) && FilterOf(input).Success?
    ensures FilterOf(Below(input, r.recordedAt, r.id)) == Failure(CursorWithoutTime)
  {
    hide TrimSpace, Parse, FormatTime, Uuid, Normal, InLayoutRange;
    StampIsTrimmed(ZERO_INSTANT);
    IdIsTrimmed(Millis(ZERO_INSTANT), random);
    ZeroYear();
    ParseFormatTime(ZERO_INSTANT);
    assert Millis(ZERO_INSTANT) * NANOS_PER_MILLI == ZERO_INSTANT;
    assert TimeOf(FormatTime(ZERO_INSTANT), BadBefore) == Success(ZERO_INSTANT);
  }

  // ---------- Walking back, as a caller does ----------

  /** The i-th input of a walk: the last view returned is the cursor, and the page size may change. */
  function InputAt(q: ReviewInput, limits: seq<int>, outs: seq<Review>, i: nat): ReviewInput
    requires i < |limits| && i <= |outs|
    requires i > 0 ==> outs[i - 1].observations != []
  {
    if i == 0 then q.(limit := limits[0])
    else
      var last := outs[i - 1].observations[|outs[i - 1].observations| - 1];
      Below(q, last.recordedAt, last.id).(limit := limits[i])
  }

  /** Reviews sent one after the other, against logs that only grow, until one comes back empty. */
  ghost predicate IsReviewWalk(logs: seq<seq<Record>>, q: ReviewInput, limits: seq<int>, outs: seq<Review>) {
    && |logs| == |limits| == |outs| > 0
    && (forall i :: 0 <= i < |logs| ==> UniqueIds(logs[i]) && forall r :: r in logs[i] ==> Stamped(r))
    && (forall i, j :: 0 <= i < j < |logs| ==> logs[i] <= logs[j])
    && (forall i :: 0 <= i < |outs| - 1 ==> outs[i].observations != [])
    && (forall i :: 0 <= i < |outs| ==> ReviewOf(logs[i], InputAt(q, limits, outs, i)) == Success(outs[i]))
    && outs[|outs| - 1].observations == []
  }

  function FilterAt(q: ReviewInput, limits: seq<int>, outs: seq<Review>, i: nat): Filter
    requires i < |limits| && i <= |outs|
    requires i > 0 ==> outs[i - 1].observations != []
    requires FilterOf(InputAt(q, limits, outs, i)).Success?
  {
    FilterOf(InputAt(q, limits, outs, i)).value
  }

  lemma ReviewPage(rows: seq<Record>, input: ReviewInput, out: Review)
    requires ReviewOf(rows, input) == Success(out)
    ensures FilterOf(input).Success? && out.observations == Views(PageOf(rows, FilterOf(input).value))
    ensures |out.observations| == |PageOf(rows, FilterOf(input).value)|
    ensures out.total == |Match(rows, FilterOf(input).value)|
  {
  }

  /** What a walk of reviews says of its i-th review. */
  lemma ReviewAt(logs: seq<seq<Record>>, q: ReviewInput, limits: seq<int>, outs: seq<Review>, i: nat)
    requires IsReviewWalk(logs, q, limits, outs) && i < |outs|
    ensures |logs| == |limits| == |outs| && UniqueIds(logs[i]) && forall r :: r in logs[i] ==> Stamped(r)
    ensures i > 0 ==> outs[i - 1].observations != []
    ensures FilterOf(InputAt(q, limits, outs, i)).Success?
    ensures outs[i].observations == Views(PageOf(logs[i], FilterAt(q, limits, outs, i)))
    ensures i < |outs| - 1 <==> outs[i].observations != []
  {
    hide ReviewOf, FilterOf, PageOf, Views, UniqueIds, Stamped;
    ReviewPage(logs[i], InputAt(q, limits, outs, i), outs[i]);
  }

  /** Each review after the first resumes below the last row of the one before. */
  lemma ReviewResumes(logs: seq<seq<Record>>, q: ReviewInput, limits: seq<int>, outs: seq<Review>, i: nat)
    requires IsReviewWalk(logs, q, limits, outs) && 0 < i < |outs|
    ensures |logs| == |limits| == |outs| && outs[i - 1].observations != []
    ensures FilterOf(InputAt(q, limits, outs, 0)).Success? && FilterOf(InputAt(q, limits, outs, i)).Success?
    ensures i > 1 ==> outs[i - 2].observations != []
    ensures FilterOf(InputAt(q, limits, outs, i - 1)).Success?
    ensures
      var page := PageOf(logs[i - 1], FilterAt(q, limits, outs, i - 1));
      page != [] && Resumes(FilterAt(q, limits, outs, i), FilterAt(q, limits, outs, 0), page[|page| - 1])
  {
    hide IsReviewWalk, FilterOf, PageOf, UniqueIds, Resumes, CanPage, StampedAt;
    ReviewAt(logs, q, limits, outs, 0);
    ReviewAt(logs, q, limits, outs, i - 1);
    ReviewAt(logs, q, limits, outs, i);
    var page := PageOf(logs[i - 1], FilterAt(q, limits, outs, i - 1));
    var last := page[|page| - 1];
    assert last in page;
    PageMembers(logs[i - 1], FilterAt(q, limits, outs, i - 1), last);
    assert Stamped(last);
    var t, random :| StampedAt(last, t, random) && CanPage(t);
    CursorKeepsFields(q, limits[0], limits[i], last, t, random);
  }

  /** The filters and pages behind a walk of reviews form a walk of pages. */
  lemma ReviewWalkIsWalk(logs: seq<seq<Record>>, q: ReviewInput, limits: seq<int>, outs: seq<Review>)
    returns (filters: seq<Filter>, pages: seq<seq<Record>>)
    requires IsReviewWalk(logs, q, limits, outs)
    ensures IsWalk(logs, filters, pages)
    ensures FilterOf(q.(limit := limits[0])) == Success(filters[0])
    ensures forall i :: 0 <= i < |outs| ==> outs[i].observations == Views(pages[i])
  {
    hide *;
    var n := |outs|;
    LogsGrow(logs, q, limits, outs);
    forall i | 0 <= i < n
      ensures i < n - 1 <==> outs[i].observations != []
    {
      ReviewAt(logs, q, limits, outs, i);
    }
    forall i | 0 <= i < n
      ensures FilterOf(InputAt(q, limits, outs, i)).Success? && UniqueIds(logs[i])
      ensures outs[i].observations == Views(PageOf(logs[i], FilterAt(q, limits, outs, i)))
    {
      ReviewAt(logs, q, limits, outs, i);
    }
    filters := seq(n, i requires 0 <= i < n => FilterAt(q, limits, outs, i));
    pages := seq(n, i requires 0 <= i < n => PageOf(logs[i], FilterAt(q, limits, outs, i)));
    forall i | 0 <= i < n
      ensures i < n - 1 <==> pages[i] != []
    {
      assert |Views(pages[i])| == |pages[i]|;
    }
    forall i | 0 < i < n
      ensures Resumes(filters[i], filters[0], pages[i - 1][|pages[i - 1]| - 1])
    {
      ReviewResumes(logs, q, limits, outs, i);
    }
    MakeWalk(logs, filters, pages);
    FirstFilter(q, limits, outs);
  }

  lemma FirstFilter(q: ReviewInput, limits: seq<int>, outs: seq<Review>)
    requires limits != [] && FilterOf(InputAt(q, limits, outs, 0)).Success?
    ensures FilterOf(q.(limit := limits[0])) == Success(FilterAt(q, limits, outs, 0))
  {
  }

  lemma LogsGrow(logs: seq<seq<Record>>, q: ReviewInput, limits: seq<int>, outs: seq<Review>)
    requires IsReviewWalk(logs, q, limits, outs)
    ensures |logs| == |limits| == |outs| > 0
    ensures forall i, j :: 0 <= i < j < |logs| ==> logs[i] <= logs[j]
  {
  }

  lemma MakeWalk(logs: seq<seq<Record>>, filters: seq<Filter>, pages: seq<seq<Record>>)
    requires |logs| == |filters| == |pages| > 0
    requires forall i :: 0 <= i < |logs| ==> UniqueIds(logs[i])
    requires forall i, j :: 0 <= i < j < |logs| ==> logs[i] <= logs[j]
    requires forall i :: 0 <= i < |pages| ==> pages[i] == PageOf(logs[i], filters[i])
    requires forall i :: 0 <= i < |pages| ==> (i < |pages| - 1 <==> pages[i] != [])
    requires forall i :: 0 < i < |pages| ==> Resumes(filters[i], filters[0], pages[i - 1][|pages[i - 1]| - 1])
    ensures IsWalk(logs, filters, pages)
  {
    hide PageOf, Resumes, UniqueIds;
  }

  lemma CursorKeepsFields(q: ReviewInput, limit: int, limit': int, last: Record, t: Instant, random: seq<bv8>)
    requires StampedAt(last, t, random) && CanPage(t)
    requires FilterOf(q.(limit := limit)).Success?
    ensures
      var g := FilterOf(Below(q, last.recordedAt, last.id).(limit := limit'));
      g.Success? && Resumes(g.value, FilterOf(q.(limit := limit)).value, last)
  {
    CursorRoundTrip(q.(limit := limit), last, t, random);
  }

  /** The page size has no say in what matches. */
  lemma LimitIsNoFilter(q: ReviewInput, limit: int)
    ensures FilterOf(q.(limit := limit)).Success? <==> FilterOf(q).Success?
    ensures FilterOf(q).Success? ==>
      forall r :: Matches(FilterOf(q.(limit := limit)).value, r) <==> Matches(FilterOf(q).value, r)
  {
    hide TimeOf, TrimSpace, Normal, FormatTime, Less;
  }

  /**
   Paging back with the last row's recorded_at and id until a page comes back
   empty shows every observation that matched when the walk began, exactly once
   each, and nothing twice, whatever other processes record meanwhile.
   */
  lemma ReviewWalkShowsEverythingOnce(logs: seq<seq<Record>>, q: ReviewInput, limits: seq<int>, outs: seq<Review>)
    requires IsReviewWalk(logs, q, limits, outs)
    ensures FilterOf(q).Success?
    ensures forall r :: r in logs[0] && Matches(FilterOf(q).value, r) ==>
      exists i, j :: 0 <= i < |outs| && 0 <= j < |outs[i].observations| && outs[i].observations[j] == ViewOf(r)
    ensures forall i, j, k, l ::
      (0 <= i < |outs| && 0 <= j < |outs[i].observations| && 0 <= k < |outs| && 0 <= l < |outs[k].observations|
       && outs[i].observations[j].id == outs[k].observations[l].id) ==> i == k && j == l
  {
    hide Matches, Stamped, UniqueIds, PageOf, ReviewOf, FilterOf, Resumes;
    var filters, pages := ReviewWalkIsWalk(logs, q, limits, outs);
    LimitIsNoFilter(q, limits[0]);
    WalkDeliversExactlyOnce(logs, filters, pages);
    forall r | r in logs[0] && Matches(FilterOf(q).value, r)
      ensures exists i, j :: 0 <= i < |outs| && 0 <= j < |outs[i].observations| && outs[i].observations[j] == ViewOf(r)
    {
      var i, j :| 0 <= i < |pages| && 0 <= j < |pages[i]| && pages[i][j] == r;
      assert outs[i].observations[j] == ViewOf(r);
    }
    forall i, j, k, l | 0 <= i < |outs| && 0 <= j < |outs[i].observations| && 0 <= k < |outs| && 0 <= l < |outs[k].observations|
                        && outs[i].observations[j].id == outs[k].observations[l].id
      ensures i == k && j == l
    {
      assert pages[i][j].id == pages[k][l].id;
    }
  }
}
