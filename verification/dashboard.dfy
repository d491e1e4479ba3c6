/** The dashboard page's state and the transitions its handlers apply to it. Calls to the
    database are not modelled; what they return is a parameter of the transition that
    consumes it. An action that awaits the database is split in two: the part that runs
    before the call, and the part that runs on the state as it stands when the reply arrives
    (React's `setBookmarks(prev => ...)` reads the latest list, not the one seen at the click). */
module Dashboard {
  import opened Wrappers
  import opened Seqs
  import opened Text
  import opened Schema
  import opened Bookmarks

  /** The page component's state. */
  datatype Page = Page(
    bookmarks: seq<Bookmark>,
    title: string,
    url: string,
    search: string,
    confirmDeleteId: Option<Id>,
    deletingId: Option<Id>)

  /** `fetchBookmarks`: the fetched rows replace the list; a null result empties it. */
  function FetchBookmarks(s: Page, data: Option<seq<Bookmark>>): (r: Page)
    ensures data.None? ==> r.bookmarks == []
    ensures data.Some? ==> r.bookmarks == data.value
    ensures r.(bookmarks := s.bookmarks) == s
  {
    s.(bookmarks := data.GetOr([]))
  }

  /** The realtime subscription handler. */
  function OnRealtime(s: Page, ev: Change, refetched: Option<seq<Bookmark>>): (r: Page)
    ensures r.bookmarks == ApplyChange(s.bookmarks, ev, refetched)
    ensures r.(bookmarks := s.bookmarks) == s
  {
    s.(bookmarks := ApplyChange(s.bookmarks, ev, refetched))
  }

  /** The URL rule of `handleAdd`: trim, then prefix `https://` unless it already starts with `http`. */
  function NormalizeUrl(url: string): (r: string)
    ensures StartsWith(r, "http")
    ensures IsTrimmed(r)
    ensures r == Trim(url) <==> StartsWith(Trim(url), "http")
    ensures !StartsWith(Trim(url), "http") ==> r == "https://" + Trim(url)
  {
    var t := Trim(url);
    if StartsWith(t, "http") then t
    else
      SchemePrefixed(t);
      "https://" + t
  }

  /** Prefixing the scheme gives a string that starts with `http`, stays trimmed and differs from
      the original. */
  lemma SchemePrefixed(t: string)
    requires IsTrimmed(t)
    ensures StartsWith("https://" + t, "http")
    ensures IsTrimmed("https://" + t)
    ensures "https://" + t != t
  {
    var r := "https://" + t;
    assert r[..4] == "http";
    assert r[0] == 'h';
    assert r[|r| - 1] == if t == [] then '/' else t[|t| - 1];
  }

  /** Normalising a normalised URL changes nothing. */
  lemma NormalizeIdempotent(url: string)
    ensures NormalizeUrl(NormalizeUrl(url)) == NormalizeUrl(url)
  {
    TrimOfTrimmed(NormalizeUrl(url));
  }

  /** A whitespace-only URL normalises to the bare scheme. */
  lemma BlankUrlBecomesBareScheme(url: string)
    requires AllWhitespace(url)
    ensures NormalizeUrl(url) == "https://"
  {
  }

  /** The row `handleAdd` asks the database to insert. */
  datatype InsertRequest = InsertRequest(title: string, url: string, userId: string)

  /** The part of `handleAdd` before the insert call: nothing is sent when the title or the URL
      field is empty. */
  function BeginAdd(s: Page, userId: string): (r: Option<InsertRequest>)
    ensures r.None? <==> s.title == [] || s.url == []
    ensures r.Some? ==> r.value.title == s.title && r.value.userId == userId
    ensures r.Some? ==> r.value.url == NormalizeUrl(s.url) && StartsWith(r.value.url, "http")
  {
    if s.title == [] || s.url == [] then None
    else Some(InsertRequest(s.title, NormalizeUrl(s.url), userId))
  }

  /** A non-empty URL made only of whitespace passes the emptiness guard of `handleAdd`, which
      tests the field before trimming, and the bare scheme is sent as the URL. */
  lemma BlankUrlSent(s: Page, userId: string)
    requires s.title != [] && s.url != [] && AllWhitespace(s.url)
    ensures BeginAdd(s, userId) == Some(InsertRequest(s.title, "https://", userId))
  {
    BlankUrlBecomesBareScheme(s.url);
  }

  /** The reply to the insert: an error (thrown and caught), or the returned row, if any. */
  datatype InsertOutcome = InsertFailed | Inserted(row: Option<Bookmark>)

  /** The part of `handleAdd` after the insert call. */
  function CompleteAdd(s: Page, outcome: InsertOutcome): (r: Page)
    ensures outcome.InsertFailed? ==> r == s
    ensures outcome.Inserted? ==> r.title == [] && r.url == []
    ensures outcome.Inserted? && outcome.row.None? ==> r.bookmarks == s.bookmarks
    ensures outcome.Inserted? && outcome.row.Some? ==> r.bookmarks == InsertIfAbsent(s.bookmarks, outcome.row.value)
    ensures r.(bookmarks := s.bookmarks, title := s.title, url := s.url) == s
  {
    match outcome
    case InsertFailed => s
    case Inserted(row) =>
      var bs := if row.Some? then InsertIfAbsent(s.bookmarks, row.value) else s.bookmarks;
      s.(bookmarks := bs, title := [], url := [])
  }

  /** A pending confirmation, read with JavaScript truthiness: neither null nor the empty string. */
  predicate IsPending(id: Option<Id>)
  {
    id.Some? && id.value != []
  }

  datatype PendingDelete = PendingDelete(state: Page, id: Id)

  /** The part of `executeDelete` before the delete call: the confirmation is consumed and the
      id is marked as being deleted. */
  function BeginDelete(s: Page): (r: Option<PendingDelete>)
    ensures r.None? <==> !IsPending(s.confirmDeleteId)
    ensures r.Some? ==> r.value.id == s.confirmDeleteId.value
    ensures r.Some? ==> r.value.state.confirmDeleteId.None? && r.value.state.deletingId == Some(r.value.id)
    ensures r.Some? ==> r.value.state.(confirmDeleteId := s.confirmDeleteId, deletingId := s.deletingId) == s
  {
    if !IsPending(s.confirmDeleteId) then None
    else
      var id := s.confirmDeleteId.value;
      Some(PendingDelete(s.(confirmDeleteId := None, deletingId := Some(id)), id))
  }

  /** The part of `executeDelete` after the delete call; `acknowledged` is false when the call
      reported or threw an error. */
  function CompleteDelete(s: Page, id: Id, acknowledged: bool): (r: Page)
    ensures r.deletingId.None?
    ensures !acknowledged ==> r.bookmarks == s.bookmarks
    ensures acknowledged ==> r.bookmarks == RemoveId(s.bookmarks, id)
    ensures acknowledged ==> !HasId(r.bookmarks, id) && IsSubsequence(r.bookmarks, s.bookmarks)
    ensures acknowledged ==> forall b :: b in r.bookmarks <==> b in s.bookmarks && b.id != id
    ensures r.(bookmarks := s.bookmarks, deletingId := s.deletingId) == s
  {
    s.(bookmarks := if acknowledged then RemoveId(s.bookmarks, id) else s.bookmarks, deletingId := None)
  }

  /** The search predicate: the title or the URL, lower-cased, contains the lower-cased query.
      An absent field never matches (optional chaining yields `undefined`). */
  function Matches(b: Bookmark, query: string): (r: bool)
    ensures r ==> b.title.Some? || b.url.Some?
  {
    (b.title.Some? && Includes(Lower(b.title.value), Lower(query)))
    || (b.url.Some? && Includes(Lower(b.url.value), Lower(query)))
  }

  /** `filteredBookmarks`: a derived view; the list itself is not changed. */
  function Search(bs: seq<Bookmark>, query: string): (r: seq<Bookmark>)
    ensures IsSubsequence(r, bs)
    ensures forall b :: b in r <==> b in bs && Matches(b, query)
  {
    FilterIsSubsequence((b: Bookmark) => Matches(b, query), bs);
    FilterMembers((b: Bookmark) => Matches(b, query), bs);
    Filter((b: Bookmark) => Matches(b, query), bs)
  }

  /** `filteredBookmarks` as the page renders it: the list searched by the current query. */
  function View(s: Page): (r: seq<Bookmark>)
    ensures IsSubsequence(r, s.bookmarks)
    ensures forall b :: b in r <==> b in s.bookmarks && Matches(b, s.search)
    ensures s.search == [] ==> forall b :: b in r <==> b in s.bookmarks && (b.title.Some? || b.url.Some?)
  {
    Search(s.bookmarks, s.search)
  }

  /** The search ignores the case of the query's ASCII letters. */
  lemma SearchIgnoresQueryCase(bs: seq<Bookmark>, query: string)
    ensures Search(bs, Lower(query)) == Search(bs, query)
  {
    LowerIdempotent(query);
    FilterAgreeing((b: Bookmark) => Matches(b, Lower(query)), (b: Bookmark) => Matches(b, query), bs);
  }

  /** The view keeps every copy of each matching record and none of the others. */
  lemma SearchKeepsCopies(bs: seq<Bookmark>, query: string)
    ensures forall b :: multiset(Search(bs, query))[b] == if Matches(b, query) then multiset(bs)[b] else 0
  {
    FilterMultiset((b: Bookmark) => Matches(b, query), bs);
  }

  /** The lower-cased query occurs in the present, lower-cased field. */
  ghost predicate FieldContains(field: Option<string>, query: string)
  {
    field.Some? && exists i :: OccursAt(Lower(field.value), Lower(query), i)
  }

  /** The search predicate in terms of substring occurrence. */
  lemma MatchesMeaning(b: Bookmark, query: string)
    ensures Matches(b, query) <==> FieldContains(b.title, query) || FieldContains(b.url, query)
  {
    if b.title.Some? {
      IncludesMeaning(Lower(b.title.value), Lower(query));
    }
    if b.url.Some? {
      IncludesMeaning(Lower(b.url.value), Lower(query));
    }
  }

  /** A record is shown exactly when it is listed and the lower-cased query occurs in its
      present title or URL. */
  lemma SearchMeaning(bs: seq<Bookmark>, query: string, b: Bookmark)
    ensures b in Search(bs, query) <==>
      b in bs && (FieldContains(b.title, query) || FieldContains(b.url, query))
  {
    MatchesMeaning(b, query);
  }

  /** The empty query keeps exactly the records that have a title or a URL. */
  lemma SearchEmptyQuery(bs: seq<Bookmark>)
    ensures Search(bs, "") == Filter((b: Bookmark) => b.title.Some? || b.url.Some?, bs)
  {
    FilterAgreeing((b: Bookmark) => Matches(b, ""), (b: Bookmark) => b.title.Some? || b.url.Some?, bs);
  }

  /** A query matching no record shows nothing. */
  lemma SearchNoMatch(bs: seq<Bookmark>, query: string)
    requires forall i :: 0 <= i < |bs| ==> !Matches(bs[i], query)
    ensures Search(bs, query) == []
  {
  }

  /** One entry of the page's serialized event queue: a reply from the database or a realtime
      notification, applied to the state current at the time it is processed. */
  datatype Step =
    | Fetched(data: Option<seq<Bookmark>>)
    | SearchTyped(query: string)
    | Realtime(ev: Change, refetched: Option<seq<Bookmark>>)
    | AddCompleted(outcome: InsertOutcome)
    | DeleteStarted
    | DeleteCompleted(id: Id, acknowledged: bool)

  /** Applies one step. Each kind of step touches only its own part of the page state. */
  function Next(s: Page, step: Step): (r: Page)
    ensures step.SearchTyped? ==> r == s.(search := step.query)
    ensures !step.SearchTyped? ==> r.search == s.search
    ensures !step.AddCompleted? ==> r.title == s.title && r.url == s.url
    ensures !step.DeleteStarted? && !step.DeleteCompleted? ==>
      r.confirmDeleteId == s.confirmDeleteId && r.deletingId == s.deletingId
    ensures step.SearchTyped? || step.DeleteStarted? ==> r.bookmarks == s.bookmarks
  {
    match step
    case Fetched(data) => FetchBookmarks(s, data)
    case SearchTyped(query) => s.(search := query)
    case Realtime(ev, refetched) => OnRealtime(s, ev, refetched)
    case AddCompleted(outcome) => CompleteAdd(s, outcome)
    case DeleteStarted => (var p := BeginDelete(s); if p.Some? then p.value.state else s)
    case DeleteCompleted(id, acknowledged) => CompleteDelete(s, id, acknowledged)
  }

  /** Applies the steps in order. A run without typing in the search box keeps the query, and one
      without an add reply keeps the input fields. */
  function Run(s: Page, steps: seq<Step>): (r: Page)
    ensures (forall i :: 0 <= i < |steps| ==> !steps[i].SearchTyped?) ==> r.search == s.search
    ensures (forall i :: 0 <= i < |steps| ==> !steps[i].AddCompleted?) ==> r.title == s.title && r.url == s.url
    decreases |steps|
  {
    if steps == [] then s else Run(Next(s, steps[0]), steps[1..])
  }

  /** Every list the database hands over, through a fetch or a refetch, has unique ids. */
  ghost predicate ServerRowsUnique(step: Step)
  {
    match step
    case Fetched(data) => data.Some? ==> UniqueIds(data.value)
    case SearchTyped(_) => true
    case Realtime(ev, refetched) => ev.OtherEvent? && refetched.Some? ==> UniqueIds(refetched.value)
    case AddCompleted(_) => true
    case DeleteStarted => true
    case DeleteCompleted(_, _) => true
  }

  /** Each step keeps the ids of the list unique. */
  lemma NextPreservesUnique(s: Page, step: Step)
    requires UniqueIds(s.bookmarks)
    requires ServerRowsUnique(step)
    ensures UniqueIds(Next(s, step).bookmarks)
  {
    match step
    case Fetched(data) =>
    case SearchTyped(_) =>
    case Realtime(ev, refetched) => ChangePreservesUnique(s.bookmarks, ev, refetched);
    case AddCompleted(outcome) =>
      if outcome.Inserted? && outcome.row.Some? {
        InsertPreservesUnique(s.bookmarks, outcome.row.value);
      }
    case DeleteStarted =>
    case DeleteCompleted(id, acknowledged) =>
      if acknowledged {
        RemovePreservesUnique(s.bookmarks, id);
      }
  }

  /** Any run of steps keeps the ids of the list unique. */
  lemma {:induction false} RunPreservesUnique(s: Page, steps: seq<Step>)
    requires UniqueIds(s.bookmarks)
    requires forall i :: 0 <= i < |steps| ==> ServerRowsUnique(steps[i])
    ensures UniqueIds(Run(s, steps).bookmarks)
    decreases |steps|
  {
    if steps != [] {
      NextPreservesUnique(s, steps[0]);
      RunPreservesUnique(Next(s, steps[0]), steps[1..]);
    }
  }

  /** The step inserts a record with id `id`: its realtime INSERT or the reply to its local add. */
  predicate InsertsId(step: Step, id: Id)
  {
    (step.Realtime? && step.ev.InsertEvent? && step.ev.row.id == id)
    || (step.AddCompleted? && step.outcome.Inserted? && step.outcome.row.Some? && step.outcome.row.value.id == id)
  }

  /** Local adds and realtime echoes of one id, in any number and any order, keep ids unique
      and, once any has been applied, leave that id listed. */
  lemma {:induction false} InsertsOfOneId(s: Page, steps: seq<Step>, id: Id)
    requires UniqueIds(s.bookmarks)
    requires forall i :: 0 <= i < |steps| ==> InsertsId(steps[i], id)
    ensures UniqueIds(Run(s, steps).bookmarks)
    ensures HasId(s.bookmarks, id) || steps != [] ==> HasId(Run(s, steps).bookmarks, id)
    decreases |steps|
  {
    if steps != [] {
      var step := steps[0];
      NextPreservesUnique(s, step);
      assert HasId(Next(s, step).bookmarks, id);
      InsertsOfOneId(Next(s, step), steps[1..], id);
    }
  }

  /** After a local add and its realtime echo, in either order, exactly one record carries the id. */
  lemma InsertsOfOneIdLeaveOne(s: Page, steps: seq<Step>, id: Id)
    requires UniqueIds(s.bookmarks)
    requires steps != []
    requires forall i :: 0 <= i < |steps| ==> InsertsId(steps[i], id)
    ensures CountId(Run(s, steps).bookmarks, id) == 1
  {
    InsertsOfOneId(s, steps, id);
    var bs := Run(s, steps).bookmarks;
    AtMostOneWithId(bs, id);
    CountIdPositive(bs, id);
  }

  /** The local add wins over its later echo: the listed record is the one the insert returned. */
  lemma AddThenEcho(s: Page, row: Bookmark, echo: Bookmark, refetched: Option<seq<Bookmark>>)
    requires !HasId(s.bookmarks, row.id) && echo.id == row.id
    ensures OnRealtime(CompleteAdd(s, Inserted(Some(row))), InsertEvent(echo), refetched).bookmarks
      == [row] + s.bookmarks
  {
  }

  /** An echo arriving before the insert reply wins: the reply adds nothing. */
  lemma EchoThenAdd(s: Page, echo: Bookmark, row: Bookmark, refetched: Option<seq<Bookmark>>)
    requires !HasId(s.bookmarks, echo.id) && echo.id == row.id
    ensures CompleteAdd(OnRealtime(s, InsertEvent(echo), refetched), Inserted(Some(row))).bookmarks
      == [echo] + s.bookmarks
  {
  }

  /** A realtime DELETE echoing an acknowledged local delete changes nothing further. */
  lemma DeleteThenEcho(s: Page, id: Id, refetched: Option<seq<Bookmark>>)
    ensures OnRealtime(CompleteDelete(s, id, true), DeleteEvent(id), refetched).bookmarks
      == CompleteDelete(s, id, true).bookmarks
  {
    RemoveIdempotent(s.bookmarks, id);
  }
}
