/** The dashboard's in-memory bookmark list and the transitions that change it: prepend a
    record unless its id is already present, filter a record out by id, and replace the
    list wholesale with fetched rows. */
module Bookmarks {
  import opened Wrappers
  import opened Seqs
  import opened Schema

  /** One row of the `bookmarks` table. Title and url are read through optional chaining,
      so either may be absent in a row the page receives. */
  datatype Bookmark = Bookmark(
    id: Id,
    title: Option<string>,
    url: Option<string>,
    userId: string,
    createdAt: Timestamp)

  /** `prev.some(b => b.id === id)` */
  function HasId(bs: seq<Bookmark>, id: Id): (r: bool)
    ensures r <==> exists b :: b in bs && b.id == id
  {
    if bs == [] then false else bs[0].id == id || HasId(bs[1..], id)
  }

  /** The number of records carrying `id`. */
  ghost function CountId(bs: seq<Bookmark>, id: Id): nat
  {
    if bs == [] then 0 else (if bs[0].id == id then 1 else 0) + CountId(bs[1..], id)
  }

  /** No two records share an id. */
  ghost predicate UniqueIds(bs: seq<Bookmark>)
  {
    forall i, j :: 0 <= i < j < |bs| ==> bs[i].id != bs[j].id
  }

  /** The guarded prepend shared by the realtime INSERT handler and the local add:
      a record whose id is already listed is ignored, otherwise it goes to the front. */
  function InsertIfAbsent(bs: seq<Bookmark>, rec: Bookmark): (r: seq<Bookmark>)
    ensures HasId(r, rec.id)
    ensures HasId(bs, rec.id) ==> r == bs
    ensures !HasId(bs, rec.id) ==> |r| == |bs| + 1 && r[0] == rec && r[1..] == bs
  {
    if HasId(bs, rec.id) then bs else [rec] + bs
  }

  /** `prev.filter(b => b.id !== id)`, used by the realtime DELETE handler and the local delete. */
  function RemoveId(bs: seq<Bookmark>, id: Id): (r: seq<Bookmark>)
    ensures !HasId(r, id)
    ensures IsSubsequence(r, bs)
    ensures forall b :: b in r <==> b in bs && b.id != id
  {
    FilterIsSubsequence((b: Bookmark) => b.id != id, bs);
    FilterMembers((b: Bookmark) => b.id != id, bs);
    Filter((b: Bookmark) => b.id != id, bs)
  }

  /** Deleting by id keeps every copy of every record with another id. */
  lemma RemoveIdKeepsOthers(bs: seq<Bookmark>, id: Id)
    ensures forall b :: multiset(RemoveId(bs, id))[b] == if b.id == id then 0 else multiset(bs)[b]
  {
    FilterMultiset((b: Bookmark) => b.id != id, bs);
  }

  /** A record is counted at least once exactly when some record carries its id. */
  lemma {:induction false} CountIdPositive(bs: seq<Bookmark>, id: Id)
    ensures CountId(bs, id) > 0 <==> HasId(bs, id)
  {
    if bs != [] {
      CountIdPositive(bs[1..], id);
    }
  }

  /** Under unique ids the list holds at most one record per id. */
  lemma {:induction false} AtMostOneWithId(bs: seq<Bookmark>, id: Id)
    requires UniqueIds(bs)
    ensures CountId(bs, id) <= 1
  {
    if bs != [] {
      var rest := bs[1..];
      assert UniqueIds(rest) by {
        forall i, j | 0 <= i < j < |rest| ensures rest[i].id != rest[j].id {
          assert rest[i] == bs[i + 1] && rest[j] == bs[j + 1];
        }
      }
      AtMostOneWithId(rest, id);
      if bs[0].id == id {
        assert !HasId(rest, id) by {
          forall b | b in rest ensures b.id != id {
            var j :| 0 <= j < |rest| && rest[j] == b;
            assert bs[j + 1] == b;
          }
        }
        CountIdPositive(rest, id);
      }
    }
  }

  /** Two records sharing an id are both counted. */
  lemma {:induction false} DuplicateCountedTwice(bs: seq<Bookmark>, i: nat, j: nat)
    requires i < j < |bs| && bs[i].id == bs[j].id
    ensures CountId(bs, bs[i].id) >= 2
  {
    var rest := bs[1..];
    if i == 0 {
      assert rest[j - 1] == bs[j];
      CountIdPositive(rest, bs[j].id);
    } else {
      assert rest[i - 1] == bs[i] && rest[j - 1] == bs[j];
      DuplicateCountedTwice(rest, i - 1, j - 1);
    }
  }

  /** Ids are unique exactly when no id is carried by more than one record. */
  lemma UniqueIdsIffCountAtMostOne(bs: seq<Bookmark>)
    ensures UniqueIds(bs) <==> forall id :: CountId(bs, id) <= 1
  {
    if UniqueIds(bs) {
      forall id ensures CountId(bs, id) <= 1 {
        AtMostOneWithId(bs, id);
      }
    } else {
      var i, j :| 0 <= i < j < |bs| && bs[i].id == bs[j].id;
      DuplicateCountedTwice(bs, i, j);
    }
  }

  /** The guarded prepend keeps ids unique. */
  lemma InsertPreservesUnique(bs: seq<Bookmark>, rec: Bookmark)
    requires UniqueIds(bs)
    ensures UniqueIds(InsertIfAbsent(bs, rec))
  {
    var r := InsertIfAbsent(bs, rec);
    if !HasId(bs, rec.id) {
      forall i, j | 0 <= i < j < |r| ensures r[i].id != r[j].id {
        if i == 0 {
          assert r[j] == bs[j - 1];
          assert bs[j - 1] in bs;
        } else {
          assert r[i] == bs[i - 1] && r[j] == bs[j - 1];
        }
      }
    }
  }

  /** Filtering by `id` drops every record carrying it and no record carrying another id. */
  lemma {:induction false} CountIdAfterRemove(bs: seq<Bookmark>, id: Id, other: Id)
    ensures CountId(RemoveId(bs, id), other) == if other == id then 0 else CountId(bs, other)
  {
    if bs != [] {
      CountIdAfterRemove(bs[1..], id, other);
      var tail := RemoveId(bs[1..], id);
      if bs[0].id != id {
        assert RemoveId(bs, id) == [bs[0]] + tail;
        assert ([bs[0]] + tail)[1..] == tail;
      } else {
        assert RemoveId(bs, id) == tail;
      }
    }
  }

  /** Filtering by id keeps ids unique. */
  lemma RemovePreservesUnique(bs: seq<Bookmark>, id: Id)
    requires UniqueIds(bs)
    ensures UniqueIds(RemoveId(bs, id))
  {
    UniqueIdsIffCountAtMostOne(bs);
    UniqueIdsIffCountAtMostOne(RemoveId(bs, id));
    forall other ensures CountId(RemoveId(bs, id), other) <= 1 {
      CountIdAfterRemove(bs, id, other);
    }
  }

  /** Deleting an id that no record carries leaves the list as it was. */
  lemma RemoveAbsentIsNoop(bs: seq<Bookmark>, id: Id)
    requires !HasId(bs, id)
    ensures RemoveId(bs, id) == bs
  {
    FilterKeepsAll((b: Bookmark) => b.id != id, bs);
  }

  /** Deleting twice is deleting once. */
  lemma RemoveIdempotent(bs: seq<Bookmark>, id: Id)
    ensures RemoveId(RemoveId(bs, id), id) == RemoveId(bs, id)
  {
    FilterIdempotent((b: Bookmark) => b.id != id, bs);
  }

  /** Whichever of two records with the same id is applied first stays; the second is ignored,
      and exactly one record with that id is listed afterwards. */
  lemma FirstInsertWins(bs: seq<Bookmark>, first: Bookmark, second: Bookmark)
    requires UniqueIds(bs)
    requires !HasId(bs, first.id)
    requires second.id == first.id
    ensures InsertIfAbsent(InsertIfAbsent(bs, first), second) == [first] + bs
    ensures UniqueIds([first] + bs)
    ensures CountId([first] + bs, first.id) == 1
  {
    InsertPreservesUnique(bs, first);
    AtMostOneWithId([first] + bs, first.id);
    CountIdPositive([first] + bs, first.id);
  }

  /** The realtime change payload, reduced to what the handler reads. */
  datatype Change =
    | InsertEvent(row: Bookmark)
    | DeleteEvent(oldId: Id)
    | OtherEvent

  /** The list after the realtime handler has processed `ev`. Any event other than INSERT
      or DELETE refetches the list; `refetched` is the data that fetch returns. */
  function ApplyChange(bs: seq<Bookmark>, ev: Change, refetched: Option<seq<Bookmark>>): (r: seq<Bookmark>)
    ensures ev.InsertEvent? ==> r == InsertIfAbsent(bs, ev.row)
    ensures ev.InsertEvent? ==> HasId(r, ev.row.id) && (HasId(bs, ev.row.id) ==> r == bs)
    ensures ev.InsertEvent? && !HasId(bs, ev.row.id) ==> r == [ev.row] + bs
    ensures ev.DeleteEvent? ==> r == RemoveId(bs, ev.oldId)
    ensures ev.DeleteEvent? ==> !HasId(r, ev.oldId) && IsSubsequence(r, bs)
    ensures ev.DeleteEvent? ==> forall b :: b in r <==> b in bs && b.id != ev.oldId
    ensures ev.OtherEvent? && refetched.None? ==> r == []
    ensures ev.OtherEvent? && refetched.Some? ==> r == refetched.value
  {
    match ev
    case InsertEvent(rec) => InsertIfAbsent(bs, rec)
    case DeleteEvent(id) => RemoveId(bs, id)
    case OtherEvent => refetched.GetOr([])
  }

  /** Every realtime event keeps ids unique, given unique rows from a refetch. */
  lemma ChangePreservesUnique(bs: seq<Bookmark>, ev: Change, refetched: Option<seq<Bookmark>>)
    requires UniqueIds(bs)
    requires ev.OtherEvent? && refetched.Some? ==> UniqueIds(refetched.value)
    ensures UniqueIds(ApplyChange(bs, ev, refetched))
  {
    match ev
    case InsertEvent(rec) => InsertPreservesUnique(bs, rec);
    case DeleteEvent(id) => RemovePreservesUnique(bs, id);
    case OtherEvent =>
  }
}
