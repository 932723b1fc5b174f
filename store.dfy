/** The `Entry` table and its full-text side table `FTSEntry`, kept in step
    by `Entry.save` and `Entry.update_search_index`, and the `public` and
    `drafts` queries. Rows live in maps keyed by the row id. */
module Store {
  import opened Slug

  type Id = nat

  /** One `Entry` row. A missing slug is the empty string, a missing
      `published` flag is `false`: both are falsy where the code tests them. */
  datatype Entry = Entry(title: string, slug: string, content: string, published: bool, timestamp: int)

  /** The text stored in `FTSEntry.content`: `'\n'.join((title, content))`. */
  function IndexText(e: Entry): (r: string)
    ensures |r| == |e.title| + 1 + |e.content|
    ensures r[..|e.title|] == e.title && r[|e.title|] == '\n' && r[|e.title| + 1..] == e.content
  {
    e.title + "\n" + e.content
  }

  /** The entry as `save` writes it: a slug is derived from the title only
      when the entry has none. */
  function WithSlug(e: Entry): (r: Entry)
    ensures r.(slug := e.slug) == e
    ensures e.slug != "" ==> r == e
    ensures e.slug == "" ==> r.slug == Slugify(e.title) && IsSlug(r.slug)
  {
    if e.slug == "" then
      SlugifyIsSlug(e.title);
      e.(slug := Slugify(e.title))
    else e
  }

  /** Another row than `self` already holds `slug` (`slug` is a unique column). */
  predicate SlugTaken(entries: map<Id, Entry>, slug: string, self: Option<Id>) {
    exists id :: id in entries && self != Some(id) && entries[id].slug == slug
  }

  predicate SlugsUnique(entries: map<Id, Entry>) {
    forall a, b :: a in entries && b in entries && entries[a].slug == entries[b].slug ==> a == b
  }

  datatype Option<T> = None | Some(value: T)

  /** The two tables, and the id the next insert receives. */
  datatype Db = Db(entries: map<Id, Entry>, index: map<Id, string>, nextId: Id)

  /** What every save keeps: ids below `nextId`, unique slugs, and exactly
      one index row per entry, holding its title and content. */
  predicate Consistent(db: Db) {
    && (forall id :: id in db.entries ==> id < db.nextId)
    && SlugsUnique(db.entries)
    && db.index.Keys == db.entries.Keys
    && (forall id :: id in db.entries ==> db.index[id] == IndexText(db.entries[id]))
  }

  datatype SaveResult = Saved(id: Id, entry: Entry, db: Db) | IntegrityError

  /** `entry.save()` inside `database.atomic()`: derive the slug if it is
      empty, refuse a slug another row holds (nothing is written then),
      otherwise insert under a fresh id or update row `self`, and set the
      index row to the new title and content. */
  function SaveDb(db: Db, e: Entry, self: Option<Id>): (r: SaveResult)
    requires Consistent(db)
    requires self.Some? ==> self.value in db.entries
    ensures r.IntegrityError? <==> SlugTaken(db.entries, WithSlug(e).slug, self)
    ensures r.Saved? ==> && r.entry == WithSlug(e)
                         && Consistent(r.db)
                         && r.id in r.db.entries && r.db.entries[r.id] == r.entry
                         && r.db.index[r.id] == r.entry.title + "\n" + r.entry.content
    ensures r.Saved? && self.Some? ==> r.id == self.value && r.db.entries.Keys == db.entries.Keys
    ensures r.Saved? && self.None? ==> r.id !in db.entries && r.db.entries.Keys == db.entries.Keys + {r.id}
    ensures r.Saved? ==> forall id :: id in db.entries && id != r.id ==>
                           r.db.entries[id] == db.entries[id] && r.db.index[id] == db.index[id]
  {
    var e' := WithSlug(e);
    if SlugTaken(db.entries, e'.slug, self) then IntegrityError
    else
      var id := if self.Some? then self.value else db.nextId;
      var next := if self.Some? then db.nextId else db.nextId + 1;
      WriteRowConsistent(db, id, e', next);
      Saved(id, e', Db(db.entries[id := e'], db.index[id := IndexText(e')], next))
  }

  /** Writing row `id` together with its index row, under a slug no other
      row holds, keeps the tables consistent. */
  lemma WriteRowConsistent(db: Db, id: Id, e: Entry, next: Id)
    requires Consistent(db)
    requires !SlugTaken(db.entries, e.slug, Some(id))
    requires id < next && db.nextId <= next
    ensures var r := Db(db.entries[id := e], db.index[id := IndexText(e)], next);
            && Consistent(r)
            && r.entries.Keys == db.entries.Keys + {id}
            && forall other :: other in db.entries && other != id ==>
                 r.entries[other] == db.entries[other] && r.index[other] == db.index[other]
  {
    var entries, index := db.entries[id := e], db.index[id := IndexText(e)];
    forall a, b | a in entries && b in entries && entries[a].slug == entries[b].slug
      ensures a == b
    {
      if a != id && b != id {
        assert db.entries[a].slug == db.entries[b].slug;
      }
    }
    forall other | other in entries
      ensures index[other] == IndexText(entries[other])
    {
      if other != id {
        assert index[other] == db.index[other] && entries[other] == db.entries[other];
      }
    }
    assert index.Keys == entries.Keys;
  }

  /** `Entry.public()`: the rows whose `published` flag is set. */
  function Public(entries: map<Id, Entry>): (r: map<Id, Entry>)
    ensures forall id :: id in r <==> id in entries && entries[id].published
    ensures forall id :: id in r ==> r[id] == entries[id]
  {
    map id | id in entries && entries[id].published :: entries[id]
  }

  /** `Entry.drafts()`: the rows whose `published` flag is clear. */
  function Drafts(entries: map<Id, Entry>): (r: map<Id, Entry>)
    ensures forall id :: id in r <==> id in entries && !entries[id].published
    ensures forall id :: id in r ==> r[id] == entries[id]
  {
    map id | id in entries && !entries[id].published :: entries[id]
  }

  /** The two queries split the table: no row in both, every row in one. */
  lemma PublicDraftsPartition(entries: map<Id, Entry>)
    ensures Public(entries).Keys !! Drafts(entries).Keys
    ensures Public(entries).Keys + Drafts(entries).Keys == entries.Keys
    ensures Public(entries) + Drafts(entries) == entries
  {
  }

  /** Saving an entry that already has a slug keeps that slug, whatever
      its title has become. */
  lemma SaveKeepsSlug(db: Db, e: Entry, self: Option<Id>)
    requires Consistent(db)
    requires self.Some? ==> self.value in db.entries
    requires e.slug != ""
    ensures SaveDb(db, e, self).Saved? ==> SaveDb(db, e, self).entry.slug == e.slug
  {
  }

  /** A save whose slug another row holds fails, and both tables stay as
      they were. */
  lemma DuplicateSlugFails(db: Db, e: Entry, self: Option<Id>, other: Id)
    requires Consistent(db)
    requires self.Some? ==> self.value in db.entries
    requires other in db.entries && self != Some(other)
    requires db.entries[other].slug == WithSlug(e).slug
    ensures SaveDb(db, e, self).IntegrityError?
  {
  }

  /** Rows live in `entries` and `index`; `nextId` is the id SQLite hands
      to the next inserted row. */
  class EntryStore {
    var entries: map<Id, Entry>
    var index: map<Id, string>
    var nextId: Id

    function Snapshot(): Db
      reads this
    {
      Db(entries, index, nextId)
    }

    ghost predicate Valid()
      reads this
    {
      Consistent(Snapshot())
    }

    /** An empty database (`create_tables`). */
    constructor ()
      ensures Valid()
      ensures entries == map[] && index == map[]
    {
      entries := map[];
      index := map[];
      nextId := 1;
    }

    /** `update_search_index`: update the index row of `id` if it exists,
        insert it otherwise; either way exactly one row, holding the
        entry's title and content, and no other row touched. */
    method UpdateSearchIndex(id: Id, e: Entry)
      modifies this`index
      ensures index == old(index)[id := IndexText(e)]
    {
      var content := IndexText(e);
      if id in index {
        index := index[id := content];
      } else {
        index := map[id := content] + index;
      }
    }

    /** `Entry.save` in `database.atomic()`: on a duplicate slug nothing is
        written and `None` is returned; otherwise the row id. */
    method Save(e: Entry, self: Option<Id>) returns (id: Option<Id>)
      requires Valid()
      requires self.Some? ==> self.value in entries
      modifies this
      ensures Valid()
      ensures match SaveDb(old(Snapshot()), e, self)
              case IntegrityError => id == None && Snapshot() == old(Snapshot())
              case Saved(i, _, db) => id == Some(i) && Snapshot() == db
    {
      ghost var r := SaveDb(Snapshot(), e, self);
      var e' := WithSlug(e);
      if SlugTaken(entries, e'.slug, self) {
        return None;
      }
      var i := if self.Some? then self.value else nextId;
      assert r == Saved(i, e', Db(entries[i := e'], index[i := IndexText(e')],
                                  if self.Some? then nextId else nextId + 1));
      entries := entries[i := e'];
      if self.None? {
        nextId := nextId + 1;
      }
      UpdateSearchIndex(i, e');
      assert Snapshot() == r.db;
      id := Some(i);
    }
  }
}
