/** The mailbox tables and the two counters kept beside them, over every run of storing, deleting,
    pruning and vacuuming. */
module Mailbox {
  import opened Basics
  import opened Bytes
  import opened Tags
  import opened Like
  import Search
  import ArgsParser

  datatype Meta = Meta(created: int, size: nat)

  // ---------------------------------------------------------------- sizes

  /** The total size of a table's messages. */
  ghost function Total(m: map<Id, Meta>): nat
  {
    if m == map[] then 0
    else
      var id :| id in m;
      m[id].size + Total(m - {id})
  }

  lemma {:induction false} TotalWithout(m: map<Id, Meta>, id: Id)
    requires id in m
    ensures Total(m) == m[id].size + Total(m - {id})
    decreases |m|
  {
    var first :| first in m && Total(m) == m[first].size + Total(m - {first});
    if first != id {
      assert (m - {first}) - {id} == (m - {id}) - {first};
      TotalWithout(m - {first}, id);
      TotalWithout(m - {id}, first);
    }
  }

  lemma TotalWith(m: map<Id, Meta>, id: Id, meta: Meta)
    requires id !in m
    ensures Total(m[id := meta]) == Total(m) + meta.size
  {
    TotalWithout(m[id := meta], id);
    assert m[id := meta] - {id} == m;
  }

  function Elements(ids: seq<Id>): set<Id> {
    set id | id in ids
  }

  lemma ElementsAppend(ids: seq<Id>, id: Id)
    ensures Elements(ids + [id]) == Elements(ids) + {id}
  {
    assert (ids + [id])[|ids|] == id && forall x :: x in ids ==> x in ids + [id];
  }

  lemma ElementsConcat(a: seq<Id>, b: seq<Id>)
    ensures Elements(a + b) == Elements(a) + Elements(b)
  {
  }

  // ---------------------------------------------------------------- DeleteSearch's chunks

  function Concat(chunks: seq<seq<Id>>): seq<Id> {
    if chunks == [] then [] else Concat(chunks[..|chunks| - 1]) + chunks[|chunks| - 1]
  }

  lemma ConcatAppend(chunks: seq<seq<Id>>, chunk: seq<Id>)
    ensures Concat(chunks + [chunk]) == Concat(chunks) + chunk
  {
    assert (chunks + [chunk])[..|chunks|] == chunks;
  }

  lemma ConcatNone()
    ensures Concat([]) == []
  {
  }

  lemma MoveChunk(done: seq<Id>, ids: seq<Id>, n: nat)
    requires n <= |ids|
    ensures (done + ids[..n]) + ids[n..] == done + ids
  {
  }

  /** Cuts a list into pieces of at most 1000, in order. */
  method Chunks(all: seq<Id>) returns (chunks: seq<seq<Id>>)
    requires all != []
    ensures Concat(chunks) == all
    ensures forall k :: 0 <= k < |chunks| ==> 1 <= |chunks[k]| <= 1000
  {
    hide Concat;
    chunks := [];
    var ids := all;
    assert Concat([]) == [] by { ConcatNone(); }
    assert Concat(chunks) + ids == all;
    if |all| > 1000 {
      while 1000 < |ids|
        invariant ids != [] && Concat(chunks) + ids == all
        invariant forall k :: 0 <= k < |chunks| ==> 1 <= |chunks[k]| <= 1000
      {
        ConcatAppend(chunks, ids[..1000]);
        MoveChunk(Concat(chunks), ids, 1000);
        chunks := chunks + [ids[..1000]];
        ids := ids[1000..];
      }
    }
    ConcatAppend(chunks, ids);
    chunks := chunks + [ids];
  }

  // ---------------------------------------------------------------- the tables

  class Store {
    var mailbox: map<Id, Meta>
    var data: map<Id, bytes>
    const tagging: TagStore
    var deletedSize: nat
    var statsDeleted: nat

    ghost var inserted: nat        // messages stored, ever
    ghost var held: nat            // the size of the mailbox at the last reset and of all stored since

    /** The two tables hold the same messages, tags are on stored messages only, and both counters account
        for every message that is no longer there. */
    ghost predicate Valid()
      reads this, tagging
    {
      && mailbox.Keys == data.Keys
      && tagging.Valid()
      && (forall r :: r in tagging.rows ==> r.id in mailbox)
      && deletedSize + Total(mailbox) == held
      && statsDeleted + |mailbox| == inserted
    }

    constructor ()
      ensures Valid() && fresh(tagging) && mailbox == map[] && inserted == 0 && held == 0
    {
      mailbox, data, deletedSize, statsDeleted, inserted, held := map[], map[], 0, 0, 0, 0;
      tagging := new TagStore();
    }

    /** Stores a message under a new id, and tags it. */
    method StoreMessage(id: Id, created: int, body: bytes, tags: seq<string>)
      requires Valid() && id !in mailbox
      modifies this, tagging
      ensures Valid()
      ensures mailbox == old(mailbox)[id := Meta(created, |body|)] && data == old(data)[id := body]
      ensures inserted == old(inserted) + 1 && held == old(held) + |body|
      ensures deletedSize == old(deletedSize) && statsDeleted == old(statsDeleted)
      ensures tagging.NamesOf(id) == Wanted(tags)
      ensures forall other :: other != id ==> tagging.NamesOf(other) == old(tagging.NamesOf(other))
    {
      hide Total, Wanted, TagStore.UniqueNames, TagStore.IsUsed, Distinct;
      TotalWith(mailbox, id, Meta(created, |body|));
      UntaggedIfUnlisted(tagging, id);
      WantedOfNone(tags);
      mailbox := mailbox[id := Meta(created, |body|)];
      data := data[id := body];
      inserted, held := inserted + 1, held + |body|;
      if |tags| > 0 {
        var _ := tagging.SetMessageTags(id, tags);
      }
    }

    /** SELECT ID, Size FROM mailbox, for some ids: each row once. */
    method SelectRows(ids: set<Id>) returns (rows: seq<Id>)
      ensures Distinct(rows) && Elements(rows) == ids * mailbox.Keys
    {
      rows := [];
      var todo := ids * mailbox.Keys;
      while todo != {}
        invariant Distinct(rows) && Elements(rows) !! todo && Elements(rows) + todo == ids * mailbox.Keys
        decreases todo
      {
        var id :| id in todo;
        ElementsAppend(rows, id);
        assert forall x :: x in rows ==> x in Elements(rows);
        rows := rows + [id];
        todo := todo - {id};
      }
    }

    method SumSizes(ids: seq<Id>) returns (size: nat)
      requires Distinct(ids) && Elements(ids) <= mailbox.Keys
      ensures size + Total(mailbox - Elements(ids)) == Total(mailbox)
    {
      size := 0;
      assert mailbox - Elements(ids[..0]) == mailbox;
      for i := 0 to |ids|
        invariant size + Total(mailbox - Elements(ids[..i])) == Total(mailbox)
      {
        SumOne(mailbox, ids, i);
        assert ids[i] in Elements(ids);
        size := size + mailbox[ids[i]].size;
      }
      assert ids[..|ids|] == ids;
    }

    /** Deletes messages from the three tables. */
    method DropTables(ids: set<Id>)
      requires tagging.Sound()
      modifies this`mailbox, this`data, tagging`rows
      ensures mailbox == old(mailbox) - ids && data == old(data) - ids
      ensures tagging.Sound() && tagging.tags == old(tagging.tags)
      ensures forall id :: tagging.NamesOf(id) == if id in ids then {} else old(tagging.NamesOf(id))
      ensures forall r :: r in tagging.rows ==> r in old(tagging.rows) && r.id !in ids
    {
      mailbox := mailbox - ids;
      data := data - ids;
      tagging.DropMessageRows(ids);
    }

    ghost function Now(): Tables
      reads this, tagging
    {
      Tables(mailbox, data, tagging.tags, tagging.rows, inserted, held)
    }

    /** What every deletion leaves: the messages are gone from all tables, and are accounted for. */
    ghost predicate Deleted(before: Tables, ids: set<Id>)
      reads this, tagging
    {
      && Valid() && PointAt(before.rows, before.tags)
      && mailbox == before.mailbox - ids && data == before.data - ids
      && inserted == before.inserted && held == before.held
      && forall id :: tagging.NamesOf(id) == if id in ids then {} else NamesIn(before.tags, before.rows, id)
    }

    /** The rows are gone from the three tables, and the tags without a message with them. */
    ghost predicate Purged(before: Tables, ids: set<Id>)
      reads this, tagging
    {
      && mailbox == before.mailbox - ids && data == before.data - ids
      && tagging.Valid() && (forall r :: r in tagging.rows ==> r.id in mailbox)
      && PointAt(before.rows, before.tags)
      && forall id :: tagging.NamesOf(id) == if id in ids then {} else NamesIn(before.tags, before.rows, id)
    }

    method Purge(ids: set<Id>)
      requires tagging.Sound() && forall r :: r in tagging.rows ==> r.id in mailbox
      modifies this`mailbox, this`data, tagging
      ensures Purged(old(Now()), ids)
    {
      hide NamesIn, PointAt, TagStore.UniqueNames, TagStore.IsUsed, Distinct;
      DropTables(ids);
      tagging.PruneUnusedTags();
    }

    method PurgeChunks(chunks: seq<seq<Id>>)
      requires tagging.Sound() && forall r :: r in tagging.rows ==> r.id in mailbox
      modifies this`mailbox, this`data, tagging
      ensures Purged(old(Now()), Elements(Concat(chunks)))
    {
      hide NamesIn, PointAt, Concat, TagStore.UniqueNames, TagStore.IsUsed, Distinct;
      DropChunks(chunks);
      tagging.PruneUnusedTags();
    }

    /** The counters make up for what is purged. */
    method Account(ids: seq<Id>, size: nat, ghost before: Tables)
      requires Distinct(ids) && Elements(ids) <= before.mailbox.Keys && before.mailbox.Keys == before.data.Keys
      requires size + Total(before.mailbox - Elements(ids)) == Total(before.mailbox)
      requires deletedSize + Total(before.mailbox) == held && statsDeleted + |before.mailbox| == inserted
      requires inserted == before.inserted && held == before.held && Purged(before, Elements(ids))
      modifies this`deletedSize, this`statsDeleted
      ensures Deleted(before, Elements(ids))
    {
      hide Total, Distinct, NamesIn, Elements, PointAt, TagStore.Sound;
      SizeOfElements(ids);
      SizeWithout(before.mailbox, Elements(ids));
      deletedSize := deletedSize + size;
      statsDeleted := statsDeleted + |ids|;
    }

    method RemoveAll(ids: seq<Id>, size: nat)
      requires Valid() && Distinct(ids) && Elements(ids) <= mailbox.Keys
      requires size + Total(mailbox - Elements(ids)) == Total(mailbox)
      modifies this`mailbox, this`data, this`deletedSize, this`statsDeleted, tagging
      ensures Deleted(old(Now()), Elements(ids))
    {
      hide Total, Distinct, Elements, Deleted, Purged, TagStore.UniqueNames, TagStore.IsUsed;
      ghost var before := Now();
      Purge(Elements(ids));
      Account(ids, size, before);
    }

    /** Unknown ids are ignored, and repeated ones count once. */
    method DeleteMessages(ids: seq<Id>)
      requires Valid()
      modifies this`mailbox, this`data, this`deletedSize, this`statsDeleted, tagging
      ensures Deleted(old(Now()), Elements(ids))
    {
      hide Deleted, Total, Distinct;
      ghost var before := Now();
      if |ids| == 0 {
        NothingDeleted(Elements(ids));
        return;
      }
      var toDelete := SelectRows(Elements(ids));
      var totalSize := SumSizes(toDelete);
      if |toDelete| == 0 {
        NothingDeleted(Elements(ids));
        return;
      }
      UntaggedIfUnknown();
      RemoveAll(toDelete, totalSize);
      UnknownIdsDoNotMatter(before, Elements(ids));
    }

    /** The messages a search selected are deleted in chunks, in one transaction. */
    method DeleteSearch(ids: seq<Id>)
      requires Valid() && Distinct(ids) && Elements(ids) <= mailbox.Keys
      modifies this`mailbox, this`data, this`deletedSize, this`statsDeleted, tagging
      ensures Deleted(old(Now()), Elements(ids))
    {
      hide Deleted, Total, Distinct;
      if |ids| == 0 {
        assert Elements(ids) == {};
        NothingDeleted(Elements(ids));
        return;
      }
      var deleteSize := SumSizes(ids);
      var chunks := Chunks(ids);
      RemoveChunks(ids, chunks, deleteSize);
    }

    /** DeleteSearch: what is deleted is exactly the messages that satisfy every term of the search. `rows` is what
        the columns of the query hold for each message, and `answer` how the database answers a query. */
    method SearchAndDelete(
      env: Search.Env, searchString: string, rows: map<Id, Search.Row>, answer: seq<Search.Clause> -> seq<Id>)
      requires Valid() && rows.Keys == mailbox.Keys
      requires forall q :: IsAnswer(answer(q), q, rows)
      modifies this`mailbox, this`data, this`deletedSize, this`statsDeleted, tagging
      ensures Deleted(old(Now()), Found(env, searchString, rows))
    {
      hide Store.Valid, Deleted;
      var q := Search.SearchQueryBuilder(env, searchString);
      var ids := answer(q);
      FoundIsAnswered(env, searchString, rows, ids);
      DeleteSearch(ids);
    }

    method DropChunks(chunks: seq<seq<Id>>)
      requires tagging.Sound()
      modifies this`mailbox, this`data, tagging`rows
      ensures mailbox == old(mailbox) - Elements(Concat(chunks)) && data == old(data) - Elements(Concat(chunks))
      ensures tagging.Sound() && tagging.tags == old(tagging.tags)
      ensures forall id ::
                tagging.NamesOf(id) == if id in Elements(Concat(chunks)) then {} else old(tagging.NamesOf(id))
      ensures forall r :: r in tagging.rows ==> r in old(tagging.rows) && r.id !in Elements(Concat(chunks))
    {
      hide NamesIn, PointAt, Distinct, Elements, Concat, TagStore.UniqueNames;
      NoChunks(chunks);
      ghost var gone: set<Id> := {};
      for i := 0 to |chunks|
        invariant gone == Elements(Concat(chunks[..i]))
        invariant tagging.Sound() && tagging.tags == old(tagging.tags)
        invariant mailbox == old(mailbox) - gone && data == old(data) - gone
        invariant forall id :: tagging.NamesOf(id) == if id in gone then {} else old(tagging.NamesOf(id))
        invariant forall r :: r in tagging.rows ==> r in old(tagging.rows) && r.id !in gone
      {
        assert chunks[..i + 1] == chunks[..i] + [chunks[i]];
        ConcatAppend(chunks[..i], chunks[i]);
        ElementsConcat(Concat(chunks[..i]), chunks[i]);
        MinusBoth(old(mailbox), gone, Elements(chunks[i]));
        MinusBoth(old(data), gone, Elements(chunks[i]));
        DropTables(Elements(chunks[i]));
        gone := gone + Elements(chunks[i]);
      }
      assert chunks[..|chunks|] == chunks;
    }

    method RemoveChunks(ids: seq<Id>, chunks: seq<seq<Id>>, size: nat)
      requires Valid() && Distinct(ids) && Elements(ids) <= mailbox.Keys && Concat(chunks) == ids
      requires size + Total(mailbox - Elements(ids)) == Total(mailbox)
      modifies this`mailbox, this`data, this`deletedSize, this`statsDeleted, tagging
      ensures Deleted(old(Now()), Elements(ids))
    {
      hide Total, Distinct, Elements, Concat, Deleted, Purged, TagStore.UniqueNames, TagStore.IsUsed;
      ghost var before := Now();
      PurgeChunks(chunks);
      Account(ids, size, before);
    }

    /** Deletes the messages that are too many or too old. `byAge` is the mailbox from the newest to the
        oldest, and `expired` lists the messages from before ts, as many as one pruning takes. */
    method PruneMessages(maxMessages: int, maxAge: int, ts: int, byAge: seq<Id>, expired: seq<Id>)
      requires Valid()
      requires Distinct(byAge) && Elements(byAge) == mailbox.Keys
      requires Distinct(expired) && ListsExpired(expired, ts, mailbox)
      modifies this`mailbox, this`data, this`deletedSize, this`statsDeleted, tagging
      ensures Deleted(old(Now()),
                      Elements(Surplus(byAge, maxMessages)) + (if maxAge > 0 then Elements(expired) else {}))
      ensures forall id :: id in old(mailbox) ==>
                (id !in mailbox <==> IsBeyond(id, byAge, maxMessages) || (maxAge > 0 && id in expired))
      ensures maxAge <= 0 && (maxMessages <= 0 || |byAge| <= maxMessages + PRUNE_LIMIT) ==>
                mailbox.Keys == Elements(if maxMessages <= 0 then byAge else byAge[..Min(|byAge|, maxMessages)])
      ensures 0 < maxMessages && |byAge| <= maxMessages + PRUNE_LIMIT ==> |mailbox| <= maxMessages
      ensures 0 < maxAge && |expired| < PRUNE_LIMIT ==> forall id :: id in mailbox ==> mailbox[id].created >= ts
    {
      hide Deleted, Total, Surplus, IsBeyond;
      var surplus := Surplus(byAge, maxMessages);
      SurplusIsDistinct(byAge, maxMessages);
      var prunedSize := SumSizes(surplus);
      var doomed;
      doomed, prunedSize := AddUnseen(surplus, prunedSize, if maxAge > 0 then expired else []);
      assert Elements([]) == {};
      if doomed == [] {
        NothingDeleted(Elements(doomed));
      } else {
        RemoveAll(doomed, prunedSize);
      }
      DeletedTables(old(Now()), Elements(doomed));
      PrunedAsWanted(old(mailbox), mailbox, maxMessages, maxAge, ts, byAge, expired);
    }

    /** The second query's rows are added, and their sizes, unless the first query had them. */
    method AddUnseen(first: seq<Id>, firstSize: nat, second: seq<Id>) returns (ids: seq<Id>, size: nat)
      requires Distinct(first) && Distinct(second) && Elements(first) + Elements(second) <= mailbox.Keys
      requires firstSize + Total(mailbox - Elements(first)) == Total(mailbox)
      ensures Distinct(ids) && Elements(ids) == Elements(first) + Elements(second)
      ensures size + Total(mailbox - Elements(ids)) == Total(mailbox)
    {
      hide Total;
      ids, size := first, firstSize;
      var idsSeen := Elements(first);
      assert second[..0] == [] && Elements([]) == {};
      for i := 0 to |second|
        invariant Distinct(ids) && Elements(ids) == idsSeen == Elements(first) + Elements(second[..i])
        invariant size + Total(mailbox - idsSeen) == Total(mailbox)
      {
        var id := second[i];
        assert second[..i + 1] == second[..i] + [id];
        ElementsAppend(second[..i], id);
        assert id in Elements(second);
        if id !in idsSeen {
          ElementsAppend(ids, id);
          assert forall x :: x in ids ==> x in Elements(ids);
          TotalWithout(mailbox - idsSeen, id);
          assert (mailbox - idsSeen) - {id} == mailbox - (idsSeen + {id});
          ids := ids + [id];
          idsSeen := idsSeen + {id};
          size := size + mailbox[id].size;
        }
      }
      assert second[..|second|] == second;
    }

    lemma DeletedTables(before: Tables, ids: set<Id>)
      requires Deleted(before, ids)
      ensures Valid() && mailbox == before.mailbox - ids
    {
    }

    method VacuumDb()
      requires Valid()
      modifies this`deletedSize, this`held
      ensures Valid() && deletedSize == 0 && held == Total(mailbox)
    {
      deletedSize := 0;
      held := Total(mailbox);
    }

    method DeleteAllMessages()
      requires Valid()
      modifies this`mailbox, this`data, this`deletedSize, this`statsDeleted, this`held, tagging
      ensures Valid() && mailbox == map[] && data == map[] && tagging.rows == [] && tagging.tags == map[]
      ensures deletedSize == 0 && held == 0 && statsDeleted == inserted == old(inserted)
    {
      var total := |mailbox|;
      mailbox, data := map[], map[];
      tagging.Clear();
      deletedSize := 0;
      held := Total(mailbox);
      statsDeleted := statsDeleted + total;
    }

    // -------------------------------------------------------------- runs

    method Remove(step: Step)
      requires Valid() && Possible(mailbox, step) && (step.Delete? || step.Search? || step.Prune?)
      modifies this`mailbox, this`data, this`deletedSize, this`statsDeleted, tagging
      ensures Deleted(old(Now()), Selected(old(mailbox), step))
      ensures Valid() && mailbox == old(mailbox) - Selected(old(mailbox), step)
      ensures Follows(old(Now()), step, Now())
    {
      hide Total, Elements, Distinct, Deleted, Follows, Store.Valid;
      ghost var before, ids := Now(), Selected(mailbox, step);
      match step {
        case Delete(ids) => DeleteMessages(ids);
        case Search(ids) =>
          ListingIsDistinct(ids, mailbox.Keys);
          DeleteSearch(ids);
        case Prune(max, age, ts, byAge, expired) =>
          ListingIsDistinct(byAge, mailbox.Keys);
          ListingIsDistinct(expired, mailbox.Keys);
          PruneMessages(max, age, ts, byAge, expired);
      }
      DeletedTables(before, ids);
      DeletedFollows(before, step);
    }

    lemma DeletedFollows(before: Tables, step: Step)
      requires step.Delete? || step.Search? || step.Prune?
      requires Deleted(before, Selected(before.mailbox, step))
      ensures Follows(before, step, Now())
    {
      hide Selected, Deleted;
      var ids := Selected(before.mailbox, step);
      DeletedMeans(before, ids);
      assert forall names, id :: NextNames(before, names, step, id) == if id in ids then {} else names;
      hide NamesIn;
    }

    lemma DeletedMeans(before: Tables, ids: set<Id>)
      requires Deleted(before, ids)
      ensures mailbox == before.mailbox - ids && data == before.data - ids
      ensures PointAt(before.rows, before.tags) && PointAt(tagging.rows, tagging.tags)
      ensures forall id :: NamesIn(tagging.tags, tagging.rows, id)
                           == if id in ids then {} else NamesIn(before.tags, before.rows, id)
    {
      hide NamesIn, Total, TagStore.UniqueNames, TagStore.IsUsed, Distinct;
      assert forall id :: NamesIn(tagging.tags, tagging.rows, id) == tagging.NamesOf(id);
    }

    lemma EmptiedFollows(before: Tables)
      requires before.mailbox.Keys == before.data.Keys && PointAt(before.rows, before.tags)
      requires forall r :: r in before.rows ==> r.id in before.mailbox
      requires mailbox == map[] && data == map[] && tagging.rows == []
      ensures Follows(before, DeleteAll, Now())
    {
    }

    method Retagged(id: Id, names: seq<string>)
      requires Valid() && id in mailbox
      modifies tagging
      ensures Valid() && Follows(old(Now()), Retag(id, names), Now())
    {
      hide Total, NamesIn, Wanted, TagStore.UniqueNames, TagStore.IsUsed, Distinct;
      NothingMinused();
      var _ := tagging.SetMessageTags(id, names);
      assert forall other :: NamesIn(tagging.tags, tagging.rows, other) == tagging.NamesOf(other);
    }

    method TagDropped(name: string)
      requires Valid()
      modifies tagging
      ensures Valid() && Follows(old(Now()), DropTag(name), Now())
    {
      hide Total, NamesIn, Like.Lower, TagStore.UniqueNames, TagStore.IsUsed, Distinct;
      NothingMinused();
      var _ := tagging.DeleteTag(name);
      assert forall id :: NamesIn(tagging.tags, tagging.rows, id) == tagging.NamesOf(id);
    }

    method TagRenamed(from: string, to: string)
      requires Valid()
      modifies tagging
      ensures Valid() && Follows(old(Now()), Rename(from, to), Now())
    {
      hide Total, NamesIn, CleanTag, HasName, Like.Lower, TagStore.UniqueNames, TagStore.IsUsed, Distinct;
      NothingMinused();
      var r := tagging.RenameTag(from, to);
      assert r.Renamed? <==> Renames(old(tagging.tags), from, to);
      assert forall id :: NamesIn(tagging.tags, tagging.rows, id) == tagging.NamesOf(id);
    }

    lemma NothingMinused()
      ensures mailbox - {} == mailbox && data - {} == data
    {
    }

    method ChangeTags(step: Step)
      requires Valid() && Possible(mailbox, step) && (step.Retag? || step.DropTag? || step.Rename?)
      modifies tagging
      ensures Valid() && Follows(old(Now()), step, Now())
    {
      hide Store.Valid, Follows;
      match step
      case Retag(id, names) => Retagged(id, names);
      case DropTag(name) => TagDropped(name);
      case Rename(from, to) => TagRenamed(from, to);
    }

    method Stored(id: Id, created: int, body: bytes, tags: seq<string>)
      requires Valid() && id !in mailbox
      modifies this, tagging
      ensures Valid() && Follows(old(Now()), Insert(id, created, body, tags), Now())
      ensures inserted == old(inserted) + 1 && held == old(held) + |body|
    {
      hide Total, NamesIn, Wanted, TagStore.UniqueNames, TagStore.IsUsed, Distinct;
      StoreMessage(id, created, body, tags);
      assert forall other :: NamesIn(tagging.tags, tagging.rows, other) == tagging.NamesOf(other);
    }

    method Vacuumed()
      requires Valid()
      modifies this`deletedSize, this`held
      ensures Valid() && Follows(old(Now()), Vacuum, Now())
      ensures held == Total(mailbox) && inserted == old(inserted)
    {
      hide Total, NamesIn, TagStore.UniqueNames, TagStore.IsUsed, Distinct;
      NothingMinused();
      VacuumDb();
    }

    method Emptied()
      requires Valid()
      modifies this`mailbox, this`data, this`deletedSize, this`statsDeleted, this`held, tagging
      ensures Valid() && Follows(old(Now()), DeleteAll, Now())
      ensures held == 0 && inserted == old(inserted)
    {
      hide Total, Follows, NamesIn, TagStore.UniqueNames, TagStore.IsUsed, Distinct;
      ghost var before := Now();
      DeleteAllMessages();
      EmptiedFollows(before);
    }

    method Perform(step: Step)
      requires Valid() && Possible(mailbox, step)
      modifies this, tagging
      ensures Valid() && mailbox == NextMailbox(old(mailbox), step)
      ensures inserted == old(inserted) + Insertion(step) && held == NextHeld(old(mailbox), old(held), step)
      ensures Follows(old(Now()), step, Now())
    {
      hide Total, Follows, Selected, Store.Valid;
      ghost var before := Now();
      if step.Insert? {
        Stored(step.id, step.created, step.body, step.tags);
      } else if step.DeleteAll? {
        Emptied();
      } else if step.Vacuum? {
        Vacuumed();
      } else if step.Delete? || step.Search? || step.Prune? {
        Remove(step);
        DeletedCounts(before, Selected(before.mailbox, step));
      } else {
        ChangeTags(step);
      }
      MailboxFollows(before, step, Now());
    }

    lemma DeletedCounts(before: Tables, ids: set<Id>)
      requires Deleted(before, ids)
      ensures inserted == before.inserted && held == before.held
    {
    }

    /** One operation: what it does to the mailbox, and that both counters account for what it takes away. */
    method Take(step: Step)
      requires Valid() && Possible(mailbox, step)
      modifies this, tagging
      ensures Valid() && mailbox == NextMailbox(old(mailbox), step)
      ensures inserted == old(inserted) + Insertion(step) && held == NextHeld(old(mailbox), old(held), step)
      ensures deletedSize == NextSize(old(deletedSize), old(mailbox), step)
      ensures statsDeleted == old(statsDeleted) + |Lost(old(mailbox), step)|
      ensures Follows(old(Now()), step, Now())
    {
      hide Total, NextMailbox, Lost, Possible, Follows, TagStore.Valid;
      StepBalances(mailbox, step);
      NextSizeIs(deletedSize, mailbox, held, step);
      Perform(step);
    }

    /** Over every run the tables agree and the tags are sound, and the counters are what the steps have taken
        away. A step that is not possible does not take place. */
    method Run(steps: seq<Step>) returns (ghost trace: seq<Tables>)
      requires Valid()
      modifies this, tagging
      ensures IsTrace(trace, steps) && trace[0] == old(Now()) && trace[|steps|] == Now()
      ensures Valid() && mailbox == MailboxAfter(old(mailbox), steps)
      ensures deletedSize == SizeAfter(old(deletedSize), old(mailbox), steps)
      ensures statsDeleted == CountAfter(old(statsDeleted), old(mailbox), steps)
    {
      hide Store.Valid, Possible, NextMailbox, NextSize, Lost, Follows;
      assert steps[..0] == [];
      trace := [Now()];
      for i := 0 to |steps|
        invariant |trace| == i + 1 && trace[0] == old(Now()) && trace[i] == Now() && IsTrace(trace, steps[..i])
        invariant Valid() && mailbox == MailboxAfter(old(mailbox), steps[..i])
        invariant deletedSize == SizeAfter(old(deletedSize), old(mailbox), steps[..i])
        invariant statsDeleted == CountAfter(old(statsDeleted), old(mailbox), steps[..i])
      {
        assert steps[..i + 1][..i] == steps[..i] && steps[..i + 1][i] == steps[i];
        if Possible(mailbox, steps[i]) {
          Take(steps[i]);
        }
        trace := trace + [Now()];
      }
      assert steps[..|steps|] == steps;
    }

    lemma UntaggedIfUnknown()
      requires Valid()
      ensures forall id :: id !in mailbox ==> tagging.NamesOf(id) == {}
    {
      forall id | id !in mailbox ensures tagging.NamesOf(id) == {} {
        UntaggedIfUnlisted(tagging, id);
      }
    }

    lemma NothingDeleted(ids: set<Id>)
      requires Valid() && ids * mailbox.Keys == {}
      ensures Deleted(Now(), ids)
    {
      MinusKnown(mailbox, ids);
      MinusKnown(data, ids);
      UntaggedIfUnknown();
    }

    lemma UnknownIdsDoNotMatter(before: Tables, ids: set<Id>)
      requires Deleted(before, ids * before.mailbox.Keys) && before.mailbox.Keys == before.data.Keys
      ensures Deleted(before, ids)
    {
      hide Total, NamesIn;
      MinusKnown(before.mailbox, ids);
      MinusKnown(before.data, ids);
      UntaggedIfUnknown();
    }
  }

  datatype Step =
    | Insert(id: Id, created: int, body: bytes, tags: seq<string>)
    | Delete(ids: seq<Id>)
    | Search(ids: seq<Id>)                                                        // those that a search selects
    | Prune(maxMessages: int, maxAge: int, ts: int, byAge: seq<Id>, expired: seq<Id>)
    | DeleteAll
    | Vacuum
    | Retag(id: Id, names: seq<string>)
    | DropTag(name: string)
    | Rename(from: string, to: string)

  // ---------------------------------------------------------------- what the steps take away

  predicate Possible(m: map<Id, Meta>, step: Step) {
    match step
    case Insert(id, _, _, _) => id !in m
    case Search(ids) => IsListing(ids, m.Keys)
    case Prune(_, _, ts, byAge, expired) =>
      && IsListing(byAge, m.Keys) && Elements(byAge) == m.Keys
      && IsListing(expired, m.Keys) && ListsExpired(expired, ts, m)
    case Retag(id, _) => id in m
    case _ => true
  }

  /** The ids that a step takes away, if they are there. */
  function Selected(m: map<Id, Meta>, step: Step): set<Id> {
    match step
    case Delete(ids) => Elements(ids)
    case Search(ids) => Elements(ids)
    case Prune(max, age, _, byAge, expired) =>
      Elements(Surplus(byAge, max)) + (if age > 0 then Elements(expired) else {})
    case DeleteAll => m.Keys
    case _ => {}
  }

  function NextMailbox(m: map<Id, Meta>, step: Step): map<Id, Meta> {
    if step.Insert? then m[step.id := Meta(step.created, |step.body|)] else m - Selected(m, step)
  }

  /** The new name is one, is not the old one, and no other tag has it. */
  ghost predicate Renames(tags: TagNames, from: string, to: string) {
    && CleanTag(to) != "" && from != CleanTag(to) && HasName(tags, from)
    && (HasName(tags, CleanTag(to)) ==> Lower(CleanTag(to)) == Lower(from))
  }

  /** The names of a message's tags after a step. */
  ghost function NextNames(before: Tables, names: set<string>, step: Step, id: Id): set<string> {
    match step
    case Insert(i, _, _, tags) => if id == i then Wanted(tags) else names
    case Retag(i, tags) => if id == i then Wanted(tags) else names
    case DropTag(name) => names - {Lower(name)}
    case Rename(from, to) =>
      if Renames(before.tags, from, to) then Replaced(names, Lower(from), Lower(CleanTag(to))) else names
    case _ => if id in Selected(before.mailbox, step) then {} else names
  }

  /** The messages, their data and the names of their tags are what the step makes of those before. */
  ghost predicate Follows(before: Tables, step: Step, after: Tables) {
    && after.mailbox == NextMailbox(before.mailbox, step)
    && after.data == (if step.Insert? then before.data[step.id := step.body]
                      else before.data - Selected(before.mailbox, step))
    && PointAt(before.rows, before.tags) && PointAt(after.rows, after.tags)
    && forall id :: NamesIn(after.tags, after.rows, id)
                    == NextNames(before, NamesIn(before.tags, before.rows, id), step, id)
  }

  lemma MailboxFollows(before: Tables, step: Step, after: Tables)
    requires Follows(before, step, after)
    ensures after.mailbox == NextMailbox(before.mailbox, step)
  {
  }

  /** The tables before the first step and after each of them. */
  ghost predicate IsTrace(trace: seq<Tables>, steps: seq<Step>) {
    && |trace| == |steps| + 1
    && forall i :: 0 <= i < |steps| ==>
                     if Possible(trace[i].mailbox, steps[i]) then Follows(trace[i], steps[i], trace[i + 1])
                     else trace[i + 1] == trace[i]
  }

  /** The rows that a step takes away. */
  function Lost(m: map<Id, Meta>, step: Step): map<Id, Meta> {
    Part(m, Selected(m, step))
  }

  function Part(m: map<Id, Meta>, ids: set<Id>): map<Id, Meta> {
    map id | id in m && id in ids :: m[id]
  }

  predicate IsReset(step: Step) {
    step.DeleteAll? || step.Vacuum?
  }

  function Insertion(step: Step): nat {
    if step.Insert? then 1 else 0
  }

  function InsertedSize(step: Step): nat {
    if step.Insert? then |step.body| else 0
  }

  ghost function NextHeld(m: map<Id, Meta>, held: nat, step: Step): nat {
    if step.DeleteAll? then 0 else if step.Vacuum? then Total(m) else held + InsertedSize(step)
  }

  /** The size of what is taken away is added up, from zero again after a reset. */
  ghost function NextSize(deletedSize: nat, m: map<Id, Meta>, step: Step): nat {
    if IsReset(step) then 0 else deletedSize + Total(Lost(m, step))
  }

  function MailboxAfter(m: map<Id, Meta>, steps: seq<Step>): map<Id, Meta> {
    if steps == [] then m
    else
      var before, last := MailboxAfter(m, steps[..|steps| - 1]), steps[|steps| - 1];
      if Possible(before, last) then NextMailbox(before, last) else before
  }

  ghost function SizeAfter(deletedSize: nat, m: map<Id, Meta>, steps: seq<Step>): nat {
    if steps == [] then deletedSize
    else
      var before, last := MailboxAfter(m, steps[..|steps| - 1]), steps[|steps| - 1];
      var size := SizeAfter(deletedSize, m, steps[..|steps| - 1]);
      if Possible(before, last) then NextSize(size, before, last) else size
  }

  function CountAfter(statsDeleted: nat, m: map<Id, Meta>, steps: seq<Step>): nat {
    if steps == [] then statsDeleted
    else
      var before, last := MailboxAfter(m, steps[..|steps| - 1]), steps[|steps| - 1];
      CountAfter(statsDeleted, m, steps[..|steps| - 1]) + (if Possible(before, last) then |Lost(before, last)| else 0)
  }

  /** How many messages a run stores, and of what size. */
  function Insertions(m: map<Id, Meta>, steps: seq<Step>): (nat, nat) {
    if steps == [] then (0, 0)
    else
      var before, last := MailboxAfter(m, steps[..|steps| - 1]), steps[|steps| - 1];
      var (n, size) := Insertions(m, steps[..|steps| - 1]);
      if Possible(before, last) then (n + Insertion(last), size + InsertedSize(last)) else (n, size)
  }

  lemma NothingSelected(m: map<Id, Meta>, step: Step)
    ensures !step.Delete? && !step.Search? && !step.Prune? && !step.DeleteAll? ==> m - Selected(m, step) == m
    ensures step.DeleteAll? ==> NextMailbox(m, step) == map[]
  {
  }

  lemma PartOfNothing(m: map<Id, Meta>, ids: set<Id>)
    requires Part(m, ids) == map[]
    ensures m - ids == m
  {
    assert forall id :: id in m && id in ids ==> id in Part(m, ids);
    assert (m - ids).Keys == m.Keys;
  }

  lemma PartWithout(m: map<Id, Meta>, ids: set<Id>, id: Id)
    requires id in Part(m, ids)
    ensures Part(m - {id}, ids) == Part(m, ids) - {id} && (m - {id}) - ids == m - ids
    ensures |Part(m - {id}, ids)| == |Part(m, ids)| - 1 && |m - {id}| == |m| - 1
  {
    SizeWithout(m, {id});
    SizeWithout(Part(m, ids), {id});
  }

  lemma {:induction false} TotalSplit(m: map<Id, Meta>, ids: set<Id>)
    ensures Total(m) == Total(m - ids) + Total(Part(m, ids))
    ensures |m| == |m - ids| + |Part(m, ids)|
    decreases |Part(m, ids)|
  {
    if Part(m, ids) == map[] {
      PartOfNothing(m, ids);
    } else {
      var id :| id in Part(m, ids);
      PartWithout(m, ids, id);
      TotalWithout(m, id);
      TotalWithout(Part(m, ids), id);
      TotalSplit(m - {id}, ids);
    }
  }

  /** What a step takes away, and what it leaves, is what there was and what it adds. */
  lemma StepBalances(m: map<Id, Meta>, step: Step)
    ensures var next, lost := NextMailbox(m, step), Lost(m, step);
            Possible(m, step) ==>
              && Total(lost) + Total(next) == Total(m) + InsertedSize(step)
              && |lost| + |next| == |m| + Insertion(step)
  {
    hide Total, Selected, IsListing, ListsExpired, Elements, Part;
    if step.Insert? {
      SelectsNothing(m, step);
      NothingTotal();
      if Possible(m, step) {
        TotalWith(m, step.id, Meta(step.created, |step.body|));
        OneMore(m, step.id, Meta(step.created, |step.body|));
      }
    } else {
      TotalSplit(m, Selected(m, step));
    }
  }

  lemma OneMore(m: map<Id, Meta>, id: Id, meta: Meta)
    requires id !in m
    ensures |m[id := meta]| == |m| + 1
  {
    assert m[id := meta].Keys == m.Keys + {id};
  }

  lemma SelectsNothing(m: map<Id, Meta>, step: Step)
    requires step.Insert?
    ensures Selected(m, step) == {} && Lost(m, step) == map[]
  {
  }

  lemma NothingTotal()
    ensures Total(map[]) == 0
  {
  }

  lemma NextSizeIs(deletedSize: nat, m: map<Id, Meta>, held: nat, step: Step)
    requires deletedSize + Total(m) == held && Possible(m, step)
    ensures NextSize(deletedSize, m, step) + Total(NextMailbox(m, step)) == NextHeld(m, held, step)
  {
    StepBalances(m, step);
    NothingSelected(m, step);
    NothingTotal();
    hide Total, Selected, Lost;
  }

  /** Over every run: what was counted as deleted and what is live is what there was and what was stored; and so are
      the sizes, since the last time the deleted size was reset. */
  lemma {:induction false} CountsAreConserved(m: map<Id, Meta>, statsDeleted: nat, deletedSize: nat, steps: seq<Step>)
    ensures CountAfter(statsDeleted, m, steps) + |MailboxAfter(m, steps)| == statsDeleted + |m| + Insertions(m, steps).0
    ensures (forall i :: 0 <= i < |steps| ==> !IsReset(steps[i])) ==>
              SizeAfter(deletedSize, m, steps) + Total(MailboxAfter(m, steps))
              == deletedSize + Total(m) + Insertions(m, steps).1
  {
    hide Total, Possible, NextMailbox, Lost;
    if steps != [] {
      CountsAreConserved(m, statsDeleted, deletedSize, steps[..|steps| - 1]);
      StepBalances(MailboxAfter(m, steps[..|steps| - 1]), steps[|steps| - 1]);
    }
  }

  /** What happened before a reset does not matter to the deleted size. */
  lemma {:induction false} ResetStartsAgain(m: map<Id, Meta>, deletedSize: nat, before: seq<Step>, reset: Step,
      after: seq<Step>)
    requires IsReset(reset)
    ensures MailboxAfter(m, before + [reset] + after) == MailboxAfter(MailboxAfter(m, before + [reset]), after)
    ensures SizeAfter(deletedSize, m, before + [reset] + after)
            == SizeAfter(0, MailboxAfter(m, before + [reset]), after)
  {
    hide Total, NextMailbox, Lost;
    var steps := before + [reset] + after;
    if after == [] {
      assert steps == before + [reset];
      assert steps[..|steps| - 1] == before;
    } else {
      var init, last := after[..|after| - 1], after[|after| - 1];
      hide Possible;
      assert steps[..|steps| - 1] == before + [reset] + init && steps[|steps| - 1] == last;
      ResetStartsAgain(m, deletedSize, before, reset, init);
    }
  }

  /** A message stored and deleted again. */
  lemma OneMessageCounted(id: Id, created: int, body: bytes)
    ensures var steps := [Insert(id, created, body, []), Delete([id])];
            && MailboxAfter(map[], steps) == map[]
            && SizeAfter(0, map[], steps) == |body| && CountAfter(0, map[], steps) == 1
  {
    hide Total, Part, Lost, NextMailbox, Elements;
    var insert, delete, meta := Insert(id, created, body, []), Delete([id]), Meta(created, |body|);
    AfterTwo(map[], 0, 0, insert, delete);
    SelectsNothing(map[], insert);
    NothingTotal();
    InsertedIntoNone(insert);
    OneRow(id, meta, delete);
  }

  lemma InsertedIntoNone(step: Step)
    requires step.Insert?
    ensures NextMailbox(map[], step) == map[step.id := Meta(step.created, |step.body|)]
  {
  }

  lemma OneRow(id: Id, meta: Meta, delete: Step)
    requires delete == Delete([id])
    ensures var one := map[id := meta];
            && Lost(one, delete) == one && NextMailbox(one, delete) == map[] && Total(one) == meta.size && |one| == 1
  {
    var one := map[id := meta];
    assert id in Elements([id]);
    assert one - {id} == map[];
    NothingTotal();
    hide Total;
    TotalWithout(one, id);
    OneMore(map[], id, meta);
  }

  lemma AfterOne(m: map<Id, Meta>, size: nat, count: nat, step: Step)
    requires Possible(m, step)
    ensures MailboxAfter(m, [step]) == NextMailbox(m, step)
    ensures SizeAfter(size, m, [step]) == NextSize(size, m, step)
    ensures CountAfter(count, m, [step]) == count + |Lost(m, step)|
  {
    hide NextMailbox, NextSize, Lost;
    assert [step][..0] == [];
  }

  lemma AfterTwo(m: map<Id, Meta>, size: nat, count: nat, a: Step, b: Step)
    requires Possible(m, a) && Possible(NextMailbox(m, a), b)
    ensures MailboxAfter(m, [a, b]) == NextMailbox(NextMailbox(m, a), b)
    ensures SizeAfter(size, m, [a, b]) == NextSize(NextSize(size, m, a), NextMailbox(m, a), b)
    ensures CountAfter(count, m, [a, b]) == count + |Lost(m, a)| + |Lost(NextMailbox(m, a), b)|
  {
    hide NextMailbox, NextSize, Lost;
    assert [a, b][..1] == [a];
    AfterOne(m, size, count, a);
  }

  // ---------------------------------------------------------------- what a search finds

  /** The rows that the conditions select, each once. */
  ghost predicate IsAnswer(ids: seq<Id>, q: seq<Search.Clause>, rows: map<Id, Search.Row>) {
    Distinct(ids) && forall id :: id in ids <==> id in rows && Search.Selects(q, rows[id])
  }

  /** The messages that satisfy every term of the search. */
  ghost function Found(env: Search.Env, searchString: string, rows: map<Id, Search.Row>): set<Id> {
    set id | id in rows
             && forall t :: t in ArgsParser.Args(searchString, "", false) ==> Search.TermHolds(env, t, rows[id])
  }

  lemma FoundIsAnswered(env: Search.Env, searchString: string, rows: map<Id, Search.Row>, ids: seq<Id>)
    requires IsAnswer(ids, Search.Clauses(env, ArgsParser.Args(searchString, "", false)), rows)
    ensures Distinct(ids) && Elements(ids) == Found(env, searchString, rows) <= rows.Keys
  {
    hide Search.Clauses, Search.Selects, Search.TermHolds, ArgsParser.Args;
    forall id | id in rows
      ensures id in ids
              <==> forall t :: t in ArgsParser.Args(searchString, "", false) ==> Search.TermHolds(env, t, rows[id])
    {
      Search.SelectionIsConjunction(env, ArgsParser.Args(searchString, "", false), rows[id]);
    }
  }

  /** A query lists some of the messages, each once. */
  predicate IsListing(ids: seq<Id>, keys: set<Id>) {
    Elements(ids) <= keys && |Elements(ids)| == |ids|
  }

  lemma {:induction false} ListingIsDistinct(ids: seq<Id>, keys: set<Id>)
    requires IsListing(ids, keys)
    ensures Distinct(ids)
  {
    if ids != [] {
      var before, last := ids[..|ids| - 1], ids[|ids| - 1];
      assert ids == before + [last];
      ElementsAppend(before, last);
      ElementsNoMore(before);
      ListingIsDistinct(before, keys);
      assert last !in Elements(before);
    }
  }

  lemma {:induction false} ElementsNoMore(ids: seq<Id>)
    ensures |Elements(ids)| <= |ids|
  {
    if ids == [] {
      assert Elements(ids) == {};
    } else {
      var before, last := ids[..|ids| - 1], ids[|ids| - 1];
      assert ids == before + [last];
      ElementsAppend(before, last);
      ElementsNoMore(before);
    }
  }

  const PRUNE_LIMIT: nat := 5000

  /** The rows beyond the first maxMessages, as many as one pruning takes. */
  function Surplus(byAge: seq<Id>, maxMessages: int): seq<Id> {
    if maxMessages <= 0 || |byAge| <= maxMessages then []
    else byAge[maxMessages..Min(|byAge|, maxMessages + PRUNE_LIMIT)]
  }

  /** The message comes after the first maxMessages, and not too far after them for one pruning. */
  ghost predicate IsBeyond(id: Id, byAge: seq<Id>, maxMessages: int) {
    maxMessages > 0 && exists i :: maxMessages <= i < maxMessages + PRUNE_LIMIT && i < |byAge| && byAge[i] == id
  }

  lemma SurplusIsBeyond(byAge: seq<Id>, maxMessages: int)
    ensures forall id :: id in Elements(Surplus(byAge, maxMessages)) <==> IsBeyond(id, byAge, maxMessages)
  {
    var s := Surplus(byAge, maxMessages);
    if s != [] {
      assert forall k :: 0 <= k < |s| ==> s[k] == byAge[maxMessages + k];
      forall id | IsBeyond(id, byAge, maxMessages) ensures id in s {
        var i :| maxMessages <= i < maxMessages + PRUNE_LIMIT && i < |byAge| && byAge[i] == id;
        assert s[i - maxMessages] == id;
      }
    }
  }

  /** In one pruning exactly the newest messages are left, as many as there may be. */
  lemma FirstAreKept(byAge: seq<Id>, maxMessages: int)
    requires Distinct(byAge)
    ensures |byAge| <= maxMessages + PRUNE_LIMIT || maxMessages <= 0 ==>
              Elements(byAge) - Elements(Surplus(byAge, maxMessages))
              == Elements(if maxMessages <= 0 then byAge else byAge[..Min(|byAge|, maxMessages)])
  {
    if 0 < maxMessages && |byAge| <= maxMessages + PRUNE_LIMIT {
      var kept := byAge[..Min(|byAge|, maxMessages)];
      assert byAge == kept + Surplus(byAge, maxMessages);
      ElementsConcat(kept, Surplus(byAge, maxMessages));
    }
  }

  lemma PrunedAsWanted(
    before: map<Id, Meta>, after: map<Id, Meta>, maxMessages: int, maxAge: int, ts: int, byAge: seq<Id>,
    expired: seq<Id>)
    requires Distinct(byAge) && Elements(byAge) == before.Keys && ListsExpired(expired, ts, before)
    requires after == before - (Elements(Surplus(byAge, maxMessages)) + (if maxAge > 0 then Elements(expired) else {}))
    ensures forall id :: id in before ==>
              (id !in after <==> IsBeyond(id, byAge, maxMessages) || (maxAge > 0 && id in expired))
    ensures maxAge <= 0 && (maxMessages <= 0 || |byAge| <= maxMessages + PRUNE_LIMIT) ==>
              after.Keys == Elements(if maxMessages <= 0 then byAge else byAge[..Min(|byAge|, maxMessages)])
    ensures 0 < maxMessages && |byAge| <= maxMessages + PRUNE_LIMIT ==> |after| <= maxMessages
    ensures 0 < maxAge && |expired| < PRUNE_LIMIT ==> forall id :: id in after ==> after[id].created >= ts
  {
    hide Surplus, IsBeyond, Distinct;
    var gone := Elements(Surplus(byAge, maxMessages)) + (if maxAge > 0 then Elements(expired) else {});
    EnoughPruned(before, after, byAge, maxMessages, gone);
    SurplusIsBeyond(byAge, maxMessages);
    FirstAreKept(byAge, maxMessages);
  }

  /** Messages from before ts: all of them, or as many as one pruning takes. */
  predicate ListsExpired(expired: seq<Id>, ts: int, mailbox: map<Id, Meta>) {
    && (forall id :: id in expired ==> id in mailbox && mailbox[id].created < ts)
    && (|expired| < PRUNE_LIMIT ==> forall id :: id in mailbox && mailbox[id].created < ts ==> id in expired)
    && |expired| <= PRUNE_LIMIT
  }

  lemma SurplusIsDistinct(byAge: seq<Id>, maxMessages: int)
    requires Distinct(byAge)
    ensures Distinct(Surplus(byAge, maxMessages))
    ensures Elements(Surplus(byAge, maxMessages)) <= Elements(byAge)
  {
  }

  /** What surplus leaves is no more than the maximum. */
  lemma EnoughPruned(before: map<Id, Meta>, after: map<Id, Meta>, byAge: seq<Id>, maxMessages: int, gone: set<Id>)
    requires Distinct(byAge) && Elements(byAge) == before.Keys && after == before - gone
    requires Elements(Surplus(byAge, maxMessages)) <= gone
    ensures 0 < maxMessages && |byAge| <= maxMessages + PRUNE_LIMIT ==> |after| <= maxMessages
  {
    if 0 < maxMessages && |byAge| <= maxMessages + PRUNE_LIMIT {
      var kept := byAge[..Min(|byAge|, maxMessages)];
      assert byAge == kept + Surplus(byAge, maxMessages);
      ElementsConcat(kept, Surplus(byAge, maxMessages));
      SizeOfElements(kept);
      assert after.Keys <= Elements(kept);
      SubsetSize(after.Keys, Elements(kept));
    }
  }

  lemma {:induction false} SubsetSize(a: set<Id>, b: set<Id>)
    requires a <= b
    ensures |a| <= |b|
  {
    if a != {} {
      var x :| x in a;
      SubsetSize(a - {x}, b - {x});
    }
  }

  /** With the rows in order of age, those given up are no newer than those kept. */
  lemma SurplusIsOldest(mailbox: map<Id, Meta>, byAge: seq<Id>, maxMessages: int, x: Id, y: Id)
    requires Elements(byAge) <= mailbox.Keys && |byAge| <= maxMessages + PRUNE_LIMIT
    requires forall i, j :: 0 <= i < j < |byAge| ==>
                              && byAge[i] in mailbox && byAge[j] in mailbox
                              && mailbox[byAge[i]].created >= mailbox[byAge[j]].created
    requires x in Surplus(byAge, maxMessages) && y in byAge && y !in Surplus(byAge, maxMessages)
    ensures x in mailbox && y in mailbox && mailbox[y].created >= mailbox[x].created
  {
    var s := Surplus(byAge, maxMessages);
    var i :| 0 <= i < |s| && s[i] == x;
    var j :| 0 <= j < |byAge| && byAge[j] == y;
    assert byAge[maxMessages + i] == x;
    assert forall k :: 0 <= k < |s| ==> s[k] == byAge[maxMessages + k] && s[k] in s;
  }

  /** The tables' contents and the two ghost counts. */
  datatype Tables = Tables(
    mailbox: map<Id, Meta>, data: map<Id, bytes>, tags: TagNames, rows: seq<Row>, inserted: nat, held: nat)

  lemma NoChunks(chunks: seq<seq<Id>>)
    ensures Elements(Concat(chunks[..0])) == {}
  {
  }

  lemma MinusBoth<V>(m: map<Id, V>, a: set<Id>, b: set<Id>)
    ensures (m - a) - b == m - (a + b)
    ensures m - {} == m
  {
  }

  lemma MinusKnown<V>(m: map<Id, V>, ids: set<Id>)
    ensures m - (ids * m.Keys) == m - ids
    ensures ids * m.Keys == {} ==> m - ids == m
  {
    assert (m - (ids * m.Keys)).Keys == (m - ids).Keys;
    if ids * m.Keys == {} {
      assert forall id :: id in ids ==> id !in m by {
        assert forall id :: id in ids && id in m ==> id in ids * m.Keys;
      }
      assert (m - ids).Keys == m.Keys;
    }
  }

  lemma SumOne(m: map<Id, Meta>, ids: seq<Id>, i: nat)
    requires Distinct(ids) && Elements(ids) <= m.Keys && i < |ids|
    ensures Total(m - Elements(ids[..i])) == m[ids[i]].size + Total(m - Elements(ids[..i + 1]))
  {
    assert ids[i] in Elements(ids);
    assert ids[..i + 1] == ids[..i] + [ids[i]];
    ElementsAppend(ids[..i], ids[i]);
    var rest := m - Elements(ids[..i]);
    TotalWithout(rest, ids[i]);
    assert rest - {ids[i]} == m - Elements(ids[..i + 1]);
  }

  lemma {:induction false} SizeOfElements(ids: seq<Id>)
    requires Distinct(ids)
    ensures |Elements(ids)| == |ids|
  {
    if ids == [] {
      assert Elements(ids) == {};
    } else {
      var before, last := ids[..|ids| - 1], ids[|ids| - 1];
      SizeOfElements(before);
      assert ids == before + [last];
      ElementsAppend(before, last);
      assert last !in Elements(before);
    }
  }

  lemma SizeWithout(m: map<Id, Meta>, ids: set<Id>)
    requires ids <= m.Keys
    ensures |m - ids| == |m| - |ids|
  {
    assert (m - ids).Keys == m.Keys - ids;
  }

  lemma WantedOfNone(tags: seq<string>)
    ensures tags == [] ==> Wanted(tags) == {}
  {
  }

  lemma UntaggedIfUnlisted(t: TagStore, id: Id)
    requires t.Sound() && forall r :: r in t.rows ==> r.id != id
    ensures t.NamesOf(id) == {}
  {
  }
}
