# Bookmark dashboard: list reconciliation, search and analytics in Dafny

This project models the client-side logic of a small bookmark manager written as two React
pages over a hosted database with a realtime change feed. What is modelled:

- the dashboard's in-memory bookmark list and every transition that changes it: the initial
  and fallback fetch, the realtime INSERT / DELETE / other-event handler, the local add
  (`handleAdd`) and the local delete (`executeDelete`);
- the URL normalisation of `handleAdd` and the case-insensitive search view `filteredBookmarks`;
- the analytics page's grouping of bookmark creation dates into per-date counts.

Database calls are not modelled: what a call returns (the inserted row or an error, the fetched
rows or null, the delete acknowledgement) is a parameter of the transition that consumes it. An
action that awaits the database is split into the part before the call and the part after it,
because the page's `setBookmarks(prev => ...)` applies to the list current when the reply
arrives. `Dashboard.Next` applies one `Dashboard.Step` and `Dashboard.Run` a sequence of them, putting these transitions on one serialized event
queue, so that interleavings of local actions and realtime echoes can be stated.

Modules: `Wrappers` (optional values), `Schema` (the column types of the bookmarks table), `Seqs` (JavaScript's `filter` and subsequences), `Text`
(`trim`, `startsWith`, `toLowerCase`, `includes`), `Bookmarks` (list transitions), `Dashboard`
(page state and handlers), `Analytics` (count-by-date).

Behaviour of the code that the model keeps as it is:

- The page never rolls back. The insert and the delete change the list only after the
  database replies, and a failed call leaves the list untouched.
- Prepending does not keep an order. A prepended record is not compared with `created_at`, so
  the list is not claimed to stay sorted.
- Records with neither field never show in the search view. With an empty query only the
  records having a title or a URL are shown, because optional chaining yields `undefined` for
  the others.
- Late events are not guarded. Nothing stops an event handler that finishes after the
  subscription has been removed.
- Records are not validated. A record with missing fields flows through unchanged.

## Model

| member | source | states |
|---|---|---|
| Seqs.Filter | app/page.tsx:195-198 | `filter` returns no more elements than it is given, and every returned element passes the predicate |
| Seqs.FilterMembers | app/page.tsx:195-198 | an element is in the filtered sequence exactly when it is in the input and passes |
| Seqs.FilterMultiset | app/page.tsx:195-198 | filtering keeps every copy of each passing element and no copy of any other |
| Text.Trim | app/page.tsx:106 | the result has no whitespace at either end and is what remains of the input after removing a whitespace-only prefix and suffix |
| Text.TrimIdempotent | app/page.tsx:106 | trimming a trimmed string changes nothing |
| Text.Lower | app/page.tsx:196-197 | lower-casing keeps the length and maps each character to its lower-case form, so no upper-case ASCII letter remains |
| Text.IncludesMeaning | app/page.tsx:196-197 | `includes` holds exactly when the needle occurs at some position of the haystack |
| Text.Includes | app/page.tsx:196-197 | every string includes the empty query and any prefix of itself, and never a longer string |
| Text.StartsWithMeaning | app/page.tsx:106 | `startsWith` holds exactly when the leading characters of the string spell the prefix |
| Text.LowerIdempotent | app/page.tsx:196-197 | lower-casing a lower-cased string changes nothing |
| Bookmarks.HasId | app/page.tsx:77 | the `some` guard holds exactly when some listed record carries the id |
| Bookmarks.InsertIfAbsent | app/page.tsx:75-80 | a record whose id is already listed is ignored, leaving the first record's fields in place; otherwise it is prepended to the old list, which stays unchanged, and the length grows by one |
| Bookmarks.RemoveId | app/page.tsx:82 | after the delete no record carries the id, the survivors keep their order, and they are exactly the listed records carrying another id |
| Bookmarks.RemoveIdKeepsOthers | app/page.tsx:82 | every record with another id keeps all its copies, and none with the deleted id remains |
| Bookmarks.CountIdAfterRemove | app/page.tsx:144 | filtering by one id removes all its records and no record of any other id |
| Bookmarks.UniqueIdsIffCountAtMostOne | app/page.tsx:75-80 | the list has unique ids exactly when no id is carried by two records |
| Bookmarks.InsertPreservesUnique | app/page.tsx:121-125 | the guarded prepend keeps ids unique |
| Bookmarks.RemovePreservesUnique | app/page.tsx:144 | deleting by id keeps ids unique |
| Bookmarks.RemoveAbsentIsNoop | app/page.tsx:82 | deleting an id nobody carries leaves the list as it was |
| Bookmarks.RemoveIdempotent | app/page.tsx:144 | deleting the same id twice equals deleting it once |
| Bookmarks.FirstInsertWins | app/page.tsx:74-80 | of two records with the same fresh id, the first applied is listed in front of the old list and the second is ignored, leaving exactly one record with that id |
| Bookmarks.ApplyChange | app/page.tsx:73-86 | an INSERT event is the guarded prepend: it ignores a known id and otherwise puts the record in front of the unchanged list; a DELETE event is the filter by id, so the result holds exactly the records with another id, in their order; any other event replaces the list with the refetched rows, or with the empty list when they are null |
| Bookmarks.ChangePreservesUnique | app/page.tsx:73-86 | every realtime event keeps ids unique, given unique refetched rows |
| Dashboard.FetchBookmarks | app/page.tsx:92-98 | the fetched rows replace the list wholesale, null data empties it, and no other field of the page changes |
| Dashboard.OnRealtime | app/page.tsx:73-86 | the realtime handler changes only the list |
| Dashboard.NormalizeUrl | app/page.tsx:106 | the normalised URL starts with `http` and has no surrounding whitespace; it is the trimmed input exactly when that input already starts with `http`, and `https://` followed by the trimmed input otherwise |
| Dashboard.NormalizeIdempotent | app/page.tsx:106 | normalising a normalised URL changes nothing |
| Dashboard.BlankUrlBecomesBareScheme | app/page.tsx:106 | a URL made only of whitespace, the empty one included, normalises to the bare `https://` |
| Dashboard.BlankUrlSent | app/page.tsx:102-106 | with a title present, a non-empty whitespace-only URL passes the guard, which tests the field before trimming, and the request carries the title, the bare `https://` and the user's id |
| Dashboard.BeginAdd | app/page.tsx:101-115 | nothing is sent exactly when the title or the URL field is empty; otherwise the request carries the title as typed, the normalised URL and the user's id |
| Dashboard.CompleteAdd | app/page.tsx:117-133 | a failed insert changes nothing, including the input fields; a successful one clears both fields and applies the guarded prepend of the returned row, if any, and changes nothing else |
| Dashboard.BeginDelete | app/page.tsx:136-140 | without a pending confirmation (null or empty id) nothing happens; otherwise the confirmation is cleared and the id marked as deleting before the call, with nothing else changed |
| Dashboard.CompleteDelete | app/page.tsx:141-149 | whatever the outcome, the deleting marker is cleared; a failed delete leaves the list unchanged, and an acknowledged one is the filter by id: exactly the records with another id remain, in their order |
| Dashboard.Matches | app/page.tsx:195-197 | a record with neither a title nor a URL never matches |
| Dashboard.MatchesMeaning | app/page.tsx:195-198 | a record matches exactly when the lower-cased query occurs in its present, lower-cased title or URL |
| Dashboard.Search | app/page.tsx:195-198 | the view is a subsequence of the list and holds exactly the listed records that match the query; SearchKeepsCopies adds the copy count |
| Dashboard.View | app/page.tsx:195-198 | the rendered list is a subsequence of the bookmarks holding exactly those that match the current query, and with an empty query exactly those having a title or a URL |
| Dashboard.SearchKeepsCopies | app/page.tsx:195-198 | the view keeps every copy of each matching record and none of the others |
| Dashboard.SearchIgnoresQueryCase | app/page.tsx:196-197 | lower-casing the query does not change the view |
| Dashboard.SearchMeaning | app/page.tsx:195-198 | a record is shown exactly when it is listed and the lower-cased query occurs in its present title or URL |
| Dashboard.SearchEmptyQuery | app/page.tsx:195-198 | with an empty query exactly the records having a title or a URL are shown, in list order |
| Dashboard.SearchNoMatch | app/page.tsx:195-198 | a query matching no record shows nothing |
| Dashboard.Next | app/page.tsx:73-150 | typing changes only the query; only an add reply touches the input fields; only the delete steps touch the confirmation and the deleting marker; typing and starting a delete leave the list alone |
| Dashboard.Run | app/page.tsx:73-150 | a run without typing keeps the query, and a run without an add reply keeps the input fields |
| Dashboard.NextPreservesUnique | app/page.tsx:73-150 | every fetch, realtime event, add reply and delete step keeps ids unique, given unique rows from the database |
| Dashboard.RunPreservesUnique | app/page.tsx:63-150 | any sequence of such steps keeps ids unique |
| Dashboard.InsertsOfOneId | app/page.tsx:74-80 | any interleaving of local add replies and realtime INSERTs of one id keeps ids unique and leaves the id listed |
| Dashboard.InsertsOfOneIdLeaveOne | app/page.tsx:119-125 | after one or more such inserts, exactly one record carries the id |
| Dashboard.AddThenEcho | app/page.tsx:119-125 | a local add followed by its realtime echo lists the row the insert returned, once, in front of the old list |
| Dashboard.EchoThenAdd | app/page.tsx:76-79 | an echo arriving before the insert reply is listed once, and the reply adds nothing |
| Dashboard.DeleteThenEcho | app/page.tsx:82 | the realtime DELETE echoing an acknowledged local delete changes nothing further |
| Analytics.Increment | app/analytics/page.tsx:35 | incrementing a key adds one to its count and leaves the other counts alone; an existing key keeps its place and a new key is appended; distinct keys stay distinct |
| Analytics.Entries | app/analytics/page.tsx:38-43 | one chart point per own key, in the key order, each carrying that key's count |
| Analytics.GroupByDate | app/analytics/page.tsx:28-43 | one bar per distinct date key; each count equals the number of rows with that key and is at least one; every key of the input has a bar; bars appear in order of first occurrence; counts sum to the number of rows |
| Analytics.ChartDistinct | app/analytics/page.tsx:38-43 | the entries of a counter whose keys are listed once have pairwise distinct dates |
| Analytics.ChartCounts | app/analytics/page.tsx:28-41 | once all rows are counted, each entry's date is a row key and its count is the number of rows with that key, at least one |
| Analytics.ChartCovers | app/analytics/page.tsx:28-41 | once all rows are counted, every row key has an entry |
| Analytics.DateKeys | app/analytics/page.tsx:30-33 | one date key per fetched row, in fetch order |
| Analytics.FetchData | app/analytics/page.tsx:21-46 | null data leaves the chart unchanged; otherwise the counts sum to the number of fetched rows, each count equals the rows of its date and is at least one, dates are distinct, every row's date has a bar, and bars appear in order of first occurrence |

## Left out

- Database client: authentication, the session listener, the channel subscription and its removal, and the query, insert and delete calls. Their results are parameters.
- The refetch triggered by an update event is asynchronous. `Bookmarks.ApplyChange` applies the refetched rows at the moment of the event, and leaves out the window before the fetch returns.
- Loading flags (`isAdding`, `isAuthLoading`, `mounted`) and the clipboard copy with its timeout: presentation only.
- The theme toggle and all rendering: presentation only.
- The title and URL inputs and the confirm dialog's open and cancel buttons: they only set the fields that `BeginAdd` and `BeginDelete` read, which are inputs of those transitions.
- The hostname shown on each card: it needs a URL parser that is not part of this model.
- The per-card date and time formatting: locale-dependent.
- The auth callback page and the root layout: they hold no logic.
- Text.Lower: lower-cases ASCII letters only; `toLowerCase` also maps other Unicode letters, which is locale-independent but needs the Unicode tables.
- Analytics.DateKeys: `toLocaleDateString` is a parameter function, because it depends on the time zone and locale.
- Analytics.GroupByDate: assumes date keys are neither canonical array indices nor names inherited from `Object.prototype`. Locale date strings are neither. An array index would be enumerated before the other keys, and an inherited name would break the `|| 0` default.
- Dashboard.CompleteAdd: an insert reply that is an empty array without an error is not modelled. The page would read the id of `undefined` in that case.
- Dashboard.Search: a title or URL of non-string type is not modelled. Both fields are strings or absent.
