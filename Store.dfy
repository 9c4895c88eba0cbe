/** The opportunity backend's tables and the mutations that change them:
  * the dedup upsert of opportunities keyed on (userId, url), one at a time
  * and in batches, dismissal with an ownership guard, deletion of a user's
  * opportunities, attaching an AI brief, the replacement of a user's
  * search-term sets and of their brand guide, and the flattened list of
  * active search terms. Ids are handed out fresh from a counter, in
  * creation order, which is also the order the queries return. */
module Store {
  import opened Schema

  // ---------------------------------------------------------------------
  // Opportunities, as values

  /** The key an opportunity is deduplicated on. */
  predicate SameKey(o: Opportunity, userId: UserId, url: string)
  {
    o.userId == userId && o.url == url
  }

  /** The opportunities table with the next fresh id. */
  datatype Table = Table(rows: map<Id, Opportunity>, next: Id)

  /** Every id in use lies below the next fresh one. */
  ghost predicate Fresh(t: Table)
  {
    forall id :: id in t.rows ==> id < t.next
  }

  /** No two records share a (userId, url) key. */
  ghost predicate UniqueKeys(rows: map<Id, Opportunity>)
  {
    forall i, j :: i in rows && j in rows && SameKey(rows[j], rows[i].userId, rows[i].url) ==> i == j
  }

  /** The first id below `n` whose record has the key: the query
    * `.withIndex("by_user_created", userId).filter(url).first()`. */
  function FirstMatch(rows: map<Id, Opportunity>, userId: UserId, url: string, n: nat): (r: Option<Id>)
    ensures r.Some? ==> r.value < n && r.value in rows && SameKey(rows[r.value], userId, url)
    ensures r.Some? ==> forall k :: 0 <= k < r.value && k in rows ==> !SameKey(rows[k], userId, url)
    ensures r.None? ==> forall k :: 0 <= k < n && k in rows ==> !SameKey(rows[k], userId, url)
  {
    if n == 0 then None
    else
      match FirstMatch(rows, userId, url, n - 1)
      case Some(k) => Some(k)
      case None => if n - 1 in rows && SameKey(rows[n - 1], userId, url) then Some(n - 1) else None
  }

  function Lookup(t: Table, userId: UserId, url: string): Option<Id>
  {
    FirstMatch(t.rows, userId, url, t.next)
  }

  /** In a table whose ids are all below `next`, the lookup misses exactly
    * when no record has the key. */
  lemma LookupMisses(t: Table, userId: UserId, url: string)
    requires Fresh(t)
    ensures Lookup(t, userId, url).None? <==> forall k :: k in t.rows ==> !SameKey(t.rows[k], userId, url)
  {
  }

  /** saveOpportunity on the table: the id of the record with the same key
    * when there is one, the table untouched; otherwise `o` inserted under
    * the next fresh id. Either way the id names a record with the key, and
    * no existing record is overwritten. */
  function Upsert(t: Table, o: Opportunity): (r: (Table, Id))
    ensures r.1 in r.0.rows && SameKey(r.0.rows[r.1], o.userId, o.url)
    ensures Fresh(t) ==> forall k :: k in t.rows ==> k in r.0.rows && r.0.rows[k] == t.rows[k]
    ensures Fresh(t) ==> Fresh(r.0)
  {
    match Lookup(t, o.userId, o.url)
    case Some(id) => (t, id)
    case None => (Table(t.rows[t.next := o], t.next + 1), t.next)
  }

  /** Upserting keeps keys unique: a second record with the same key is
    * never created. */
  lemma UpsertKeepsKeysUnique(t: Table, o: Opportunity)
    requires Fresh(t) && UniqueKeys(t.rows)
    ensures UniqueKeys(Upsert(t, o).0.rows)
  {
    LookupMisses(t, o.userId, o.url);
  }

  /** Upsert is an insertion exactly when the key is new, and then adds
    * one record. */
  lemma UpsertInsertsIffNew(t: Table, o: Opportunity)
    requires Fresh(t)
    ensures (forall k :: k in t.rows ==> !SameKey(t.rows[k], o.userId, o.url)) <==>
            (Upsert(t, o).0.rows == t.rows[t.next := o] && Upsert(t, o).1 == t.next)
    ensures (forall k :: k in t.rows ==> !SameKey(t.rows[k], o.userId, o.url)) ==>
            |Upsert(t, o).0.rows| == |t.rows| + 1
    ensures (exists k :: k in t.rows && SameKey(t.rows[k], o.userId, o.url)) ==> Upsert(t, o).0 == t
  {
    LookupMisses(t, o.userId, o.url);
    if forall k :: k in t.rows ==> !SameKey(t.rows[k], o.userId, o.url) {
      assert t.next !in t.rows;
    }
  }

  /** First write wins: upserting a second record with the key of the
    * first, whatever its scores, changes nothing and returns the first id. */
  lemma UpsertFirstWriteWins(t: Table, first: Opportunity, second: Opportunity)
    requires Fresh(t)
    requires second.userId == first.userId && second.url == first.url
    ensures Upsert(Upsert(t, first).0, second) == (Upsert(t, first).0, Upsert(t, first).1)
  {
    var (t1, id1) := Upsert(t, first);
    LookupMisses(t1, first.userId, first.url);
    if Lookup(t, first.userId, first.url).None? {
      LookupMisses(t, first.userId, first.url);
      assert Lookup(t1, first.userId, first.url) == Some(id1);
    }
  }

  /** The table and the ids a batch save produces. */
  datatype Batch = Batch(table: Table, saved: seq<Id>)

  /** saveOpportunities on the table: each item upserted in turn, and the
    * ids of the records it inserted collected in order. */
  function UpsertAll(t: Table, items: seq<Opportunity>): (b: Batch)
    ensures |b.saved| <= |items|
  {
    if |items| == 0 then Batch(t, [])
    else
      var b := UpsertAll(t, items[..|items| - 1]);
      var o := items[|items| - 1];
      match Lookup(b.table, o.userId, o.url)
      case Some(_) => b
      case None => Batch(Upsert(b.table, o).0, b.saved + [b.table.next])
  }

  /** A batch save keeps keys unique even when the batch repeats a key,
    * keeps ids fresh and overwrites no stored record. */
  lemma {:induction false} UpsertAllKeepsTable(t: Table, items: seq<Opportunity>)
    requires Fresh(t) && UniqueKeys(t.rows)
    ensures Fresh(UpsertAll(t, items).table) && UniqueKeys(UpsertAll(t, items).table.rows)
    ensures t.next <= UpsertAll(t, items).table.next
    ensures forall k :: k in t.rows ==> k in UpsertAll(t, items).table.rows && UpsertAll(t, items).table.rows[k] == t.rows[k]
  {
    if |items| > 0 {
      var p := items[..|items| - 1];
      UpsertAllKeepsTable(t, p);
      UpsertKeepsKeysUnique(UpsertAll(t, p).table, items[|items| - 1]);
    }
  }

  /** The ids a batch save returns are exactly the ids it added to the
    * table: fresh ones, in increasing order. */
  lemma {:induction false} UpsertAllSavesNewIds(t: Table, items: seq<Opportunity>)
    requires Fresh(t) && UniqueKeys(t.rows)
    ensures var b := UpsertAll(t, items);
      && (forall k :: k in b.table.rows <==> k in t.rows || k in b.saved)
      && (forall i :: 0 <= i < |b.saved| ==> t.next <= b.saved[i] < b.table.next)
      && (forall i, j :: 0 <= i < j < |b.saved| ==> b.saved[i] < b.saved[j])
  {
    if |items| > 0 {
      var p := items[..|items| - 1];
      UpsertAllSavesNewIds(t, p);
      UpsertAllKeepsTable(t, p);
    }
  }

  /** The table with the records of `userId` among ids below `n` removed. */
  function WithoutOwner(rows: map<Id, Opportunity>, userId: UserId, n: nat): map<Id, Opportunity>
  {
    map k | k in rows && (k >= n || rows[k].userId != userId) :: rows[k]
  }

  /** The ids below `n` of the records of `userId`. */
  ghost function OwnedBelow(rows: map<Id, Opportunity>, userId: UserId, n: nat): set<Id>
  {
    set k | k in rows && k < n && rows[k].userId == userId
  }

  /** One more id examined by the deletion loop. */
  lemma DeleteStep(rows: map<Id, Opportunity>, userId: UserId, id: nat)
    ensures id !in OwnedBelow(rows, userId, id)
    ensures id in rows && rows[id].userId == userId ==>
              WithoutOwner(rows, userId, id + 1) == WithoutOwner(rows, userId, id) - {id} &&
              OwnedBelow(rows, userId, id + 1) == OwnedBelow(rows, userId, id) + {id}
    ensures !(id in rows && rows[id].userId == userId) ==>
              WithoutOwner(rows, userId, id + 1) == WithoutOwner(rows, userId, id) &&
              OwnedBelow(rows, userId, id + 1) == OwnedBelow(rows, userId, id)
  {
  }

  /** Once every id is examined, exactly the user's records are gone, none
    * remains, and the others are untouched; keys stay unique. */
  lemma DeletedFresh(rows: map<Id, Opportunity>, userId: UserId, n: nat)
    requires Fresh(Table(rows, n)) && UniqueKeys(rows)
    ensures forall k :: k in WithoutOwner(rows, userId, n) <==> k in rows && rows[k].userId != userId
    ensures forall k :: k in WithoutOwner(rows, userId, n) ==> WithoutOwner(rows, userId, n)[k] == rows[k]
    ensures OwnedBelow(rows, userId, n) == set k | k in rows && rows[k].userId == userId
    ensures |OwnedBelow(rows, userId, n)| + |WithoutOwner(rows, userId, n)| == |rows|
    ensures UniqueKeys(WithoutOwner(rows, userId, n))
  {
    var kept := WithoutOwner(rows, userId, n);
    var owned := OwnedBelow(rows, userId, n);
    assert rows.Keys == owned + kept.Keys;
    assert owned * kept.Keys == {};
  }

  /** Some record of the table has the key of `o`. */
  ghost predicate Stored(rows: map<Id, Opportunity>, o: Opportunity)
  {
    exists k :: k in rows && SameKey(rows[k], o.userId, o.url)
  }

  /** After a batch save the key of every item is stored. */
  lemma {:induction false} UpsertAllStoresEvery(t: Table, items: seq<Opportunity>)
    requires Fresh(t) && UniqueKeys(t.rows)
    ensures forall j :: 0 <= j < |items| ==> Stored(UpsertAll(t, items).table.rows, items[j])
  {
    if |items| > 0 {
      var p := items[..|items| - 1];
      UpsertAllStoresEvery(t, p);
      UpsertAllKeepsTable(t, p);
      var b := UpsertAll(t, p);
      var o := items[|items| - 1];
      var r := Upsert(b.table, o);
      var rows := UpsertAll(t, items).table.rows;
      assert rows == r.0.rows;
      forall j | 0 <= j < |items|
        ensures Stored(rows, items[j])
      {
        if j < |p| {
          assert items[j] == p[j];
          var k :| k in b.table.rows && SameKey(b.table.rows[k], p[j].userId, p[j].url);
          assert k in rows && rows[k] == b.table.rows[k];
        } else {
          assert r.1 in rows && SameKey(rows[r.1], o.userId, o.url);
        }
      }
    }
  }

  // ---------------------------------------------------------------------
  // Search-term sets and brand guides, as values

  /** The ids of the user's active sets. */
  ghost function ActiveOf(sets: map<Id, SearchQuerySet>, userId: UserId): set<Id>
  {
    set k | k in sets && sets[k].isActive && sets[k].userId == userId
  }

  /** At most one set of each user is active. */
  ghost predicate OneActivePerUser(sets: map<Id, SearchQuerySet>)
  {
    forall i, j :: i in sets && j in sets && sets[i].isActive && sets[j].isActive && sets[i].userId == sets[j].userId ==> i == j
  }

  /** Every set of the user made inactive with `updatedAt` set to `now`;
    * the other users' sets untouched. */
  function Deactivated(sets: map<Id, SearchQuerySet>, userId: UserId, now: int): (r: map<Id, SearchQuerySet>)
    ensures r.Keys == sets.Keys
  {
    map k | k in sets :: if sets[k].userId == userId then sets[k].(isActive := false, updatedAt := now) else sets[k]
  }

  /** After deactivating the user's sets and adding a new active one under a
    * fresh id, the new set is the user's only active set, at most one set
    * per user is still active, and only the user's sets changed. */
  lemma ReplacedSets(sets: map<Id, SearchQuerySet>, userId: UserId, now: int, id: Id, s: SearchQuerySet)
    requires id !in sets && OneActivePerUser(sets)
    requires s.userId == userId && s.isActive
    ensures ActiveOf(Deactivated(sets, userId, now)[id := s], userId) == {id}
    ensures OneActivePerUser(Deactivated(sets, userId, now)[id := s])
    ensures forall k :: k in sets && sets[k].userId != userId ==> Deactivated(sets, userId, now)[id := s][k] == sets[k]
  {
  }

  /** The user's guides. */
  ghost function GuidesOf(guides: map<Id, BrandGuide>, userId: UserId): set<Id>
  {
    set k | k in guides && guides[k].userId == userId
  }

  /** Each user has at most one brand guide. */
  ghost predicate OneGuidePerUser(guides: map<Id, BrandGuide>)
  {
    forall i, j :: i in guides && j in guides && guides[i].userId == guides[j].userId ==> i == j
  }

  /** The table without the records of `userId`. */
  function WithoutGuidesOf(guides: map<Id, BrandGuide>, userId: UserId): (r: map<Id, BrandGuide>)
    ensures forall k :: k in r ==> r[k].userId != userId
  {
    map k | k in guides && guides[k].userId != userId :: guides[k]
  }

  /** After the user's guides are deleted and one is inserted under a
    * fresh id, the user has exactly that guide, and each user at most one. */
  lemma ReplacedGuide(guides: map<Id, BrandGuide>, userId: UserId, id: Id, g: BrandGuide)
    requires id !in guides && OneGuidePerUser(guides) && g.userId == userId
    ensures GuidesOf(WithoutGuidesOf(guides, userId)[id := g], userId) == {id}
    ensures OneGuidePerUser(WithoutGuidesOf(guides, userId)[id := g])
    ensures forall k :: k in guides && guides[k].userId != userId ==> WithoutGuidesOf(guides, userId)[id := g][k] == guides[k]
  {
  }

  /** One search term of an active set, carrying its set's owner and brand
    * embedding (`{...query, userId, brandEmbedding}`). */
  datatype ActiveTerm = ActiveTerm(term: string, weight: real, category: Category, userId: UserId, brandEmbedding: seq<real>)

  function Spread(s: SearchQuerySet): (r: seq<ActiveTerm>)
    ensures |r| == |s.queries|
    ensures forall i :: 0 <= i < |r| ==> r[i] == ActiveTerm(s.queries[i].term, s.queries[i].weight, s.queries[i].category, s.userId, s.brandEmbedding)
  {
    seq(|s.queries|, i requires 0 <= i < |s.queries| =>
      ActiveTerm(s.queries[i].term, s.queries[i].weight, s.queries[i].category, s.userId, s.brandEmbedding))
  }

  /** The `flatMap` of getActiveSearchQueries. */
  function FlattenSets(sets: seq<SearchQuerySet>): seq<ActiveTerm>
  {
    if |sets| == 0 then [] else Spread(sets[0]) + FlattenSets(sets[1..])
  }

  /** A term is in the flattened list exactly when it is a query of one of
    * the sets, carrying that set's owner and embedding. */
  lemma {:induction false} FlattenSetsMembers(sets: seq<SearchQuerySet>, t: ActiveTerm)
    ensures t in FlattenSets(sets) <==>
      exists i, j :: 0 <= i < |sets| && 0 <= j < |sets[i].queries| && t == Spread(sets[i])[j]
  {
    if |sets| > 0 {
      FlattenSetsMembers(sets[1..], t);
      if t in Spread(sets[0]) {
        var j :| 0 <= j < |Spread(sets[0])| && Spread(sets[0])[j] == t;
        assert 0 <= 0 < |sets| && 0 <= j < |sets[0].queries| && t == Spread(sets[0])[j];
      }
      if t in FlattenSets(sets[1..]) {
        var i, j :| 0 <= i < |sets[1..]| && 0 <= j < |sets[1..][i].queries| && t == Spread(sets[1..][i])[j];
        assert sets[1..][i] == sets[i + 1];
      }
      if exists i, j :: 0 <= i < |sets| && 0 <= j < |sets[i].queries| && t == Spread(sets[i])[j] {
        var i, j :| 0 <= i < |sets| && 0 <= j < |sets[i].queries| && t == Spread(sets[i])[j];
        if i > 0 {
          assert sets[1..][i - 1] == sets[i];
        } else {
          assert t in Spread(sets[0]);
        }
      }
    }
  }

  /** The flattened list has one term per query of each set. */
  lemma {:induction false} FlattenSetsLength(sets: seq<SearchQuerySet>)
    ensures |FlattenSets(sets)| == QueryCount(sets)
  {
    if |sets| > 0 {
      FlattenSetsLength(sets[1..]);
    }
  }

  function QueryCount(sets: seq<SearchQuerySet>): nat
  {
    if |sets| == 0 then 0 else |sets[0].queries| + QueryCount(sets[1..])
  }

  /** The active sets among ids below `n`, in id order: the
    * `.withIndex("by_active", isActive == true).collect()`. */
  function ActiveSets(sets: map<Id, SearchQuerySet>, n: nat): (r: seq<SearchQuerySet>)
    ensures forall i :: 0 <= i < |r| ==> r[i].isActive
    ensures forall k :: 0 <= k < n && k in sets && sets[k].isActive ==> sets[k] in r
    ensures forall s :: s in r ==> exists k :: 0 <= k < n && k in sets && sets[k] == s
  {
    if n == 0 then []
    else ActiveSets(sets, n - 1) + (if n - 1 in sets && sets[n - 1].isActive then [sets[n - 1]] else [])
  }

  // ---------------------------------------------------------------------
  // The database

  class Database {
    var opportunities: map<Id, Opportunity>
    var searchQueries: map<Id, SearchQuerySet>
    var brandGuides: map<Id, BrandGuide>
    var nextId: Id

    /** Ids are fresh, opportunity keys unique, at most one active
      * search-term set and one brand guide per user. */
    ghost predicate Valid()
      reads this
    {
      && Fresh(Table(opportunities, nextId))
      && (forall id :: id in searchQueries ==> id < nextId)
      && (forall id :: id in brandGuides ==> id < nextId)
      && UniqueKeys(opportunities)
      && OneActivePerUser(searchQueries)
      && OneGuidePerUser(brandGuides)
    }

    constructor ()
      ensures Valid()
      ensures opportunities == map[] && searchQueries == map[] && brandGuides == map[]
    {
      opportunities := map[];
      searchQueries := map[];
      brandGuides := map[];
      nextId := 0;
    }

    /** The lookup of an opportunity by (userId, url): the first match in
      * creation order, or none. */
    method FindOpportunity(userId: UserId, url: string) returns (found: Option<Id>)
      requires Valid()
      ensures found == Lookup(Table(opportunities, nextId), userId, url)
      ensures found.Some? ==> found.value in opportunities && SameKey(opportunities[found.value], userId, url)
      ensures found.None? <==> forall k :: k in opportunities ==> !SameKey(opportunities[k], userId, url)
    {
      found := None;
      var id := 0;
      while id < nextId && found.None?
        invariant 0 <= id <= nextId
        invariant found.None? ==> found == FirstMatch(opportunities, userId, url, id)
        invariant found.Some? ==> found == FirstMatch(opportunities, userId, url, nextId)
        decreases nextId - id, if found.None? then 1 else 0
      {
        if id in opportunities && SameKey(opportunities[id], userId, url) {
          found := Some(id);
          FirstMatchStable(opportunities, userId, url, id + 1, nextId);
        }
        id := id + 1;
      }
      LookupMisses(Table(opportunities, nextId), userId, url);
    }

    /** `ctx.db.insert`: the record stored under a fresh id. */
    method InsertOpportunity(o: Opportunity) returns (id: Id)
      requires Fresh(Table(opportunities, nextId))
      modifies this
      ensures id == old(nextId) && nextId == old(nextId) + 1
      ensures opportunities == old(opportunities)[id := o]
      ensures searchQueries == old(searchQueries) && brandGuides == old(brandGuides)
    {
      id := nextId;
      opportunities := opportunities[id := o];
      nextId := nextId + 1;
    }

    /** saveOpportunity: returns the id of the record with the same
      * (userId, url) and changes nothing, or inserts the record. */
    method SaveOpportunity(o: Opportunity) returns (id: Id)
      requires Valid()
      modifies this
      ensures Valid()
      ensures (Table(opportunities, nextId), id) == Upsert(old(Table(opportunities, nextId)), o)
      ensures searchQueries == old(searchQueries) && brandGuides == old(brandGuides)
    {
      var existing := FindOpportunity(o.userId, o.url);
      UpsertKeepsKeysUnique(Table(opportunities, nextId), o);
      if existing.Some? {
        return existing.value;
      }
      id := InsertOpportunity(o);
    }

    /** saveOpportunities: each item saved unless its key is already
      * stored (by an earlier call or an earlier item), and the ids of the
      * inserted records returned in order. */
    method SaveOpportunities(items: seq<Opportunity>) returns (saved: seq<Id>)
      requires Valid()
      modifies this
      ensures Valid()
      ensures UpsertAll(old(Table(opportunities, nextId)), items) == Batch(Table(opportunities, nextId), saved)
      ensures searchQueries == old(searchQueries) && brandGuides == old(brandGuides)
    {
      ghost var t0 := Table(opportunities, nextId);
      saved := [];
      for i := 0 to |items|
        invariant Valid()
        invariant UpsertAll(t0, items[..i]) == Batch(Table(opportunities, nextId), saved)
        invariant searchQueries == old(searchQueries) && brandGuides == old(brandGuides)
      {
        var o := items[i];
        assert items[..i + 1][..i] == items[..i];
        var existing := FindOpportunity(o.userId, o.url);
        UpsertKeepsKeysUnique(Table(opportunities, nextId), o);
        if existing.None? {
          var id := InsertOpportunity(o);
          saved := saved + [id];
        }
      }
      assert items[..|items|] == items;
    }

    /** dismissOpportunity: "Opportunity not found" and nothing changed
      * when the record is missing or belongs to someone else; otherwise
      * the record is marked dismissed at `now` and nothing else changes. */
    method DismissOpportunity(userId: UserId, id: Id, now: int) returns (r: Result<bool>)
      requires Valid()
      modifies this
      ensures Valid()
      ensures old(id !in opportunities || opportunities[id].userId != userId) ==>
                r == Err("Opportunity not found") && opportunities == old(opportunities)
      ensures old(id in opportunities && opportunities[id].userId == userId) ==>
                r == Ok(true) && opportunities == old(opportunities)[id := old(opportunities)[id].(isDismissed := true, updatedAt := now)]
      ensures nextId == old(nextId) && searchQueries == old(searchQueries) && brandGuides == old(brandGuides)
    {
      if id !in opportunities || opportunities[id].userId != userId {
        return Err("Opportunity not found");
      }
      opportunities := opportunities[id := opportunities[id].(isDismissed := true, updatedAt := now)];
      r := Ok(true);
    }

    /** updateOpportunityWithBrief: the brief attached and `updatedAt` set;
      * patching a missing record fails and changes nothing. */
    method UpdateOpportunityWithBrief(id: Id, brief: Brief, now: int) returns (r: Result<bool>)
      requires Valid()
      modifies this
      ensures Valid()
      ensures old(id !in opportunities) ==> r.Err? && opportunities == old(opportunities)
      ensures old(id in opportunities) ==>
                r == Ok(true) && opportunities == old(opportunities)[id := old(opportunities)[id].(aiBrief := Some(brief), updatedAt := now)]
      ensures nextId == old(nextId) && searchQueries == old(searchQueries) && brandGuides == old(brandGuides)
    {
      if id !in opportunities {
        return Err("Document not found");
      }
      opportunities := opportunities[id := opportunities[id].(aiBrief := Some(brief), updatedAt := now)];
      r := Ok(true);
    }

    /** deleteMyOpportunities: exactly the user's records removed, and
      * their number returned. */
    method DeleteMyOpportunities(userId: UserId) returns (deletedCount: nat)
      requires Valid()
      modifies this
      ensures Valid()
      ensures opportunities == WithoutOwner(old(opportunities), userId, old(nextId))
      ensures deletedCount == |OwnedBelow(old(opportunities), userId, old(nextId))|
      ensures nextId == old(nextId) && searchQueries == old(searchQueries) && brandGuides == old(brandGuides)
    {
      ghost var before := opportunities;
      deletedCount := 0;
      for id := 0 to nextId
        invariant opportunities == WithoutOwner(before, userId, id)
        invariant deletedCount == |OwnedBelow(before, userId, id)|
        invariant nextId == old(nextId) && searchQueries == old(searchQueries) && brandGuides == old(brandGuides)
      {
        DeleteStep(before, userId, id);
        if id in opportunities && opportunities[id].userId == userId {
          opportunities := opportunities - {id};
          deletedCount := deletedCount + 1;
        }
      }
      DeletedFresh(before, userId, nextId);
    }

    /** saveSearchQueries: every set of the user deactivated at `now`, then
      * the new set inserted as the user's only active one. */
    method SaveSearchQueries(userId: UserId, brandGuideId: Id, queries: seq<Query>, brandEmbedding: seq<real>, now: int)
      returns (id: Id)
      requires Valid()
      modifies this
      ensures Valid()
      ensures id == old(nextId) && nextId == old(nextId) + 1
      ensures searchQueries == Deactivated(old(searchQueries), userId, now)[id := SearchQuerySet(userId, brandGuideId, queries, brandEmbedding, true, now, now)]
      ensures ActiveOf(searchQueries, userId) == {id}
      ensures opportunities == old(opportunities) && brandGuides == old(brandGuides)
    {
      ghost var before := searchQueries;
      for k := 0 to nextId
        invariant searchQueries == map j | j in before :: if j < k && before[j].userId == userId then before[j].(isActive := false, updatedAt := now) else before[j]
        invariant opportunities == old(opportunities) && brandGuides == old(brandGuides) && nextId == old(nextId)
      {
        if k in searchQueries && searchQueries[k].userId == userId {
          searchQueries := searchQueries[k := searchQueries[k].(isActive := false, updatedAt := now)];
        }
      }
      assert searchQueries == Deactivated(before, userId, now);
      id := nextId;
      var s := SearchQuerySet(userId, brandGuideId, queries, brandEmbedding, true, now, now);
      ReplacedSets(before, userId, now, id, s);
      searchQueries := searchQueries[id := s];
      nextId := nextId + 1;
    }

    /** uploadBrandGuide's replace logic: the user's guides deleted, then
      * the new one inserted (unprocessed, uploaded at `now`), so that the
      * user has exactly one guide. The generated file id is a parameter. */
    method UploadBrandGuide(userId: UserId, fileName: string, fileSize: int, fileContent: string, fileId: string, now: int)
      returns (id: Id)
      requires Valid()
      modifies this
      ensures Valid()
      ensures id == old(nextId) && nextId == old(nextId) + 1
      ensures brandGuides == WithoutGuidesOf(old(brandGuides), userId)[id := BrandGuide(userId, fileId, fileName, fileSize, Some(fileContent), now, false)]
      ensures GuidesOf(brandGuides, userId) == {id}
      ensures opportunities == old(opportunities) && searchQueries == old(searchQueries)
    {
      ghost var before := brandGuides;
      for k := 0 to nextId
        invariant brandGuides == map j | j in before && (j >= k || before[j].userId != userId) :: before[j]
        invariant opportunities == old(opportunities) && searchQueries == old(searchQueries) && nextId == old(nextId)
      {
        if k in brandGuides && brandGuides[k].userId == userId {
          brandGuides := brandGuides - {k};
        }
      }
      assert brandGuides == WithoutGuidesOf(before, userId);
      id := nextId;
      var g := BrandGuide(userId, fileId, fileName, fileSize, Some(fileContent), now, false);
      ReplacedGuide(before, userId, id, g);
      brandGuides := brandGuides[id := g];
      nextId := nextId + 1;
    }

    /** getActiveSearchQueries: the terms of every active set, in creation
      * order of the sets, each carrying its set's owner and embedding. */
    method GetActiveSearchQueries() returns (allQueries: seq<ActiveTerm>)
      requires Valid()
      ensures allQueries == FlattenSets(ActiveSets(searchQueries, nextId))
      ensures forall t :: t in allQueries <==>
                exists k, j :: k in searchQueries && searchQueries[k].isActive && 0 <= j < |searchQueries[k].queries| &&
                  t == Spread(searchQueries[k])[j]
    {
      var activeQueries: seq<SearchQuerySet> := [];
      for k := 0 to nextId
        invariant activeQueries == ActiveSets(searchQueries, k)
      {
        if k in searchQueries && searchQueries[k].isActive {
          activeQueries := activeQueries + [searchQueries[k]];
        }
      }
      allQueries := FlattenSets(activeQueries);
      forall t
        ensures t in allQueries <==>
                exists k, j :: k in searchQueries && searchQueries[k].isActive && 0 <= j < |searchQueries[k].queries| &&
                  t == Spread(searchQueries[k])[j]
      {
        FlattenSetsMembers(activeQueries, t);
        if t in allQueries {
          var i, j :| 0 <= i < |activeQueries| && 0 <= j < |activeQueries[i].queries| && t == Spread(activeQueries[i])[j];
          assert activeQueries[i] in activeQueries;
          var k :| 0 <= k < nextId && k in searchQueries && searchQueries[k] == activeQueries[i];
        }
        if exists k, j :: k in searchQueries && searchQueries[k].isActive && 0 <= j < |searchQueries[k].queries| && t == Spread(searchQueries[k])[j] {
          var k, j :| k in searchQueries && searchQueries[k].isActive && 0 <= j < |searchQueries[k].queries| && t == Spread(searchQueries[k])[j];
          assert searchQueries[k] in activeQueries;
          var i :| 0 <= i < |activeQueries| && activeQueries[i] == searchQueries[k];
        }
      }
    }
  }

  /** A match below `n` is still the first match below any larger bound. */
  lemma {:induction false} FirstMatchStable(rows: map<Id, Opportunity>, userId: UserId, url: string, n: nat, m: nat)
    requires n <= m && FirstMatch(rows, userId, url, n).Some?
    ensures FirstMatch(rows, userId, url, m) == FirstMatch(rows, userId, url, n)
    decreases m - n
  {
    if n < m {
      FirstMatchStable(rows, userId, url, n, m - 1);
    }
  }
}
