/** The `cards` table of the server and the operations that change it:
    insert, last-writer-wins upsert, soft delete, create, update, the
    ordered reads and the sync endpoint that merges a client's records and
    returns the delta since its watermark. The SQLite table is a map from
    `sync_id` to the row; `id` is a second unique key. The clock and the
    uuid generator are parameters. */
module CardSync {

  /** One row of `cards`, also the record clients send and receive. */
  datatype Card = Card(
    id: string,
    syncId: string,
    name: string,
    bank: string,
    cardNumber: string,
    cvv: string,
    expiryDate: string,
    cardholderName: string,
    creditLimit: real,
    billingDay: int,
    paymentDueDay: int,
    color: string,
    cardFrontImage: string,
    cardBackImage: string,
    notes: string,
    isDeleted: bool,
    createdAt: int,
    updatedAt: int,
    iv: string,
    owner: string,
    lastFour: string)

  /** The table, keyed by `sync_id`. */
  type Table = map<string, Card>

  /** The `is_deleted` column value written for a flag; rows are read back
      with `is_deleted == 1` (and `!= 0` when matching bills). */
  function BoolToInt(b: bool): (r: int)
    ensures r == 0 || r == 1
    ensures (r == 1) == b && (r != 0) == b
  {
    if b then 1 else 0
  }

  /** Each row sits under its own `sync_id`, and `id` (the primary key) is
      unique across rows. */
  ghost predicate WellFormed(rows: Table) {
    && (forall k :: k in rows ==> rows[k].syncId == k)
    && (forall k1, k2 :: k1 in rows && k2 in rows && rows[k1].id == rows[k2].id ==> k1 == k2)
  }

  /** Some row already has primary key `id`. */
  predicate IdTaken(rows: Table, id: string) {
    exists k :: k in rows && rows[k].id == id
  }

  /** The row after `ON CONFLICT(sync_id) DO UPDATE SET ...`: every column
      but `id` and `created_at` takes the incoming value. */
  function Overwritten(stored: Card, incoming: Card): Card {
    incoming.(id := stored.id, createdAt := stored.createdAt)
  }

  /** `upsertCard` fails only when the insert path hits the `id` primary key. */
  predicate UpsertFails(rows: Table, card: Card) {
    card.syncId !in rows && IdTaken(rows, card.id)
  }

  /** The table after `upsertCard(card)`: insert when the `sync_id` is new,
      overwrite only on a strictly newer `updated_at`, unchanged on failure. */
  function AfterUpsert(rows: Table, card: Card): Table {
    if card.syncId in rows then
      if card.updatedAt > rows[card.syncId].updatedAt
      then rows[card.syncId := Overwritten(rows[card.syncId], card)]
      else rows
    else if IdTaken(rows, card.id) then rows
    else rows[card.syncId := card]
  }

  /** The table after upserting `cards` one by one; failures are skipped. */
  function UpsertAll(rows: Table, cards: seq<Card>): Table
    decreases |cards|
  {
    if cards == [] then rows
    else AfterUpsert(UpsertAll(rows, cards[..|cards| - 1]), cards[|cards| - 1])
  }

  /** The table after `UPDATE cards SET is_deleted = 1, updated_at = now
      WHERE id = key OR sync_id = key`. */
  function AfterDelete(rows: Table, key: string, now: int): Table {
    map k | k in rows :: if k == key || rows[k].id == key
                         then rows[k].(isDeleted := true, updatedAt := now)
                         else rows[k]
  }

  /** The record `syncCards` upserts for the i-th incoming one: an empty
      `syncId` is replaced by the i-th new uuid. */
  function Assigned(incoming: seq<Card>, newIds: seq<string>): (r: seq<Card>)
    requires |newIds| == |incoming|
    ensures |r| == |incoming|
  {
    seq(|incoming|, i requires 0 <= i < |incoming| =>
      if incoming[i].syncId == "" then incoming[i].(syncId := newIds[i]) else incoming[i])
  }

  /** The uuids handed out by `syncCards` are new: absent from the table,
      different from every incoming `syncId` and from each other. */
  predicate FreshIds(rows: Table, incoming: seq<Card>, newIds: seq<string>) {
    && |newIds| == |incoming|
    && (forall i :: 0 <= i < |newIds| ==> newIds[i] != "" && newIds[i] !in rows)
    && (forall i, j :: 0 <= i < |newIds| && 0 <= j < |incoming| ==> newIds[i] != incoming[j].syncId)
    && (forall i, j :: 0 <= i < j < |newIds| ==> newIds[i] != newIds[j])
  }

  /** No two records share a `sync_id`. */
  predicate DistinctSyncIds(cards: seq<Card>) {
    forall i, j :: 0 <= i < j < |cards| ==> cards[i].syncId != cards[j].syncId
  }

  /** `ORDER BY updated_at DESC`; rows with equal timestamps come in any order. */
  predicate NewestFirst(cards: seq<Card>) {
    forall i, j :: 0 <= i < j < |cards| ==> cards[i].updatedAt >= cards[j].updatedAt
  }

  /** `cards` is the result of `SELECT ... WHERE keep ORDER BY updated_at
      DESC` on `rows`: exactly the kept rows, each once, newest first. */
  ghost predicate Selection(rows: Table, keep: Card -> bool, cards: seq<Card>) {
    && (forall c :: c in cards <==> c.syncId in rows && rows[c.syncId] == c && keep(c))
    && DistinctSyncIds(cards)
    && NewestFirst(cards)
  }

  /** The delta of `getCardsSince(since)`: the rows, soft-deleted ones
      included, whose `updated_at` is after the watermark, newest first. */
  ghost predicate IsDelta(rows: Table, since: int, cards: seq<Card>) {
    && (forall c :: c in cards <==> c.syncId in rows && rows[c.syncId] == c && c.updatedAt > since)
    && DistinctSyncIds(cards)
    && NewestFirst(cards)
  }

  /** Where a row goes in a newest-first list: after every strictly newer
      record, before the first one that is not newer. */
  function InsertionPoint(cards: seq<Card>, c: Card): (p: nat)
    ensures p <= |cards|
    ensures forall i :: 0 <= i < p ==> cards[i].updatedAt > c.updatedAt
    ensures p < |cards| ==> cards[p].updatedAt <= c.updatedAt
  {
    if cards == [] || cards[0].updatedAt <= c.updatedAt then 0
    else 1 + InsertionPoint(cards[1..], c)
  }

  class CardStore {
    /** The `cards` table. */
    var rows: Table

    ghost predicate Valid()
      reads this
    {
      WellFormed(rows)
    }

    /** An empty table (`initDB` on a fresh database). */
    constructor ()
      ensures Valid() && rows == map[]
    {
      rows := map[];
    }

    /** `insertCard`: a plain INSERT, always with `is_deleted = 0`; it fails
        on either unique key and then writes nothing. */
    method Insert(card: Card) returns (err: bool)
      requires Valid()
      modifies this
      ensures Valid()
      ensures err == (card.syncId in old(rows) || IdTaken(old(rows), card.id))
      ensures rows == if err then old(rows) else old(rows)[card.syncId := card.(isDeleted := false)]
    {
      err := card.syncId in rows || IdTaken(rows, card.id);
      if !err {
        rows := rows[card.syncId := card.(isDeleted := false)];
      }
    }

    /** `upsertCard`: INSERT ... ON CONFLICT(sync_id) DO UPDATE ... WHERE
        excluded.updated_at > cards.updated_at. */
    method Upsert(card: Card) returns (err: bool)
      requires Valid()
      modifies this
      ensures Valid()
      ensures err == UpsertFails(old(rows), card)
      ensures rows == AfterUpsert(old(rows), card)
    {
      err := false;
      if card.syncId in rows {
        var stored := rows[card.syncId];
        if card.updatedAt > stored.updatedAt {
          rows := rows[card.syncId := Overwritten(stored, card)];
        }
      } else if IdTaken(rows, card.id) {
        err := true;
      } else {
        rows := rows[card.syncId := card];
      }
      UpsertKeepsWellFormed(old(rows), card);
    }

    /** `createCard`: new uuids for `id` and `syncId`, both timestamps set
        to now, inserted with `is_deleted = 0`; the payload, with those four
        fields replaced, is what the client gets back. */
    method Create(payload: Card, newId: string, newSyncId: string, now: int) returns (created: Card)
      requires Valid()
      requires !IdTaken(rows, newId) && newSyncId !in rows
      modifies this
      ensures Valid()
      ensures created == payload.(id := newId, syncId := newSyncId, createdAt := now, updatedAt := now)
      ensures rows == old(rows)[newSyncId := created.(isDeleted := false)]
    {
      created := payload.(id := newId, syncId := newSyncId, createdAt := now, updatedAt := now);
      var err := Insert(created);
      assert !err;
    }

    /** `updateCard`: the path's id and the current time, then `upsertCard`. */
    method Update(key: string, card: Card, now: int) returns (err: bool)
      requires Valid()
      modifies this
      ensures Valid()
      ensures err == UpsertFails(old(rows), card.(id := key, updatedAt := now))
      ensures rows == AfterUpsert(old(rows), card.(id := key, updatedAt := now))
    {
      err := Upsert(card.(id := key, updatedAt := now));
    }

    /** `deleteCard`: soft delete of every row whose `id` or `sync_id` is
        `key`; `updated_at` becomes `now` whatever it was. */
    method Delete(key: string, now: int)
      requires Valid()
      modifies this
      ensures Valid()
      ensures rows == AfterDelete(old(rows), key, now)
    {
      rows := AfterDelete(rows, key, now);
    }

    /** A SELECT over the whole table filtered by `keep`, ordered by
        `updated_at` descending. */
    method SelectNewestFirst(keep: Card -> bool) returns (cards: seq<Card>)
      requires Valid()
      ensures Selection(rows, keep, cards)
    {
      cards := [];
      var todo := rows.Keys;
      while todo != {}
        invariant todo <= rows.Keys
        invariant forall c :: c in cards <==> c.syncId in rows && c.syncId !in todo && rows[c.syncId] == c && keep(c)
        invariant DistinctSyncIds(cards)
        invariant NewestFirst(cards)
        decreases todo
      {
        var k :| k in todo;
        var row := rows[k];
        if keep(row) {
          var next := InsertAt(cards, row, InsertionPoint(cards, row));
          InsertKeepsNewestFirst(cards, row);
          InsertKeepsDistinct(cards, row, InsertionPoint(cards, row));
          cards := next;
        }
        todo := todo - {k};
      }
    }

    /** `getCardsSince`: the delta returned by the sync endpoint. */
    method GetCardsSince(since: int) returns (cards: seq<Card>)
      requires Valid()
      ensures IsDelta(rows, since, cards)
    {
      cards := SelectNewestFirst((c: Card) => c.updatedAt > since);
    }

    /** `getCards`: the rows not soft-deleted, newest first. */
    method GetCards() returns (cards: seq<Card>)
      requires Valid()
      ensures Selection(rows, (c: Card) => !c.isDeleted, cards)
      ensures forall c :: c in cards ==> !c.isDeleted
    {
      cards := SelectNewestFirst((c: Card) => !c.isDeleted);
    }

    /** `syncCards`: take the server time, give records without a `syncId`
        a new uuid, upsert them in order (failures are ignored), then read
        the delta since the client's watermark. */
    method Sync(incoming: seq<Card>, lastSyncAt: int, now: int, newIds: seq<string>)
      returns (delta: seq<Card>, serverTime: int)
      requires Valid()
      requires FreshIds(rows, incoming, newIds)
      modifies this
      ensures Valid()
      ensures serverTime == now
      ensures rows == UpsertAll(old(rows), Assigned(incoming, newIds))
      ensures IsDelta(rows, lastSyncAt, delta)
    {
      serverTime := now;
      var merging := Assigned(incoming, newIds);
      for i := 0 to |incoming|
        invariant Valid()
        invariant rows == UpsertAll(old(rows), merging[..i])
      {
        var card := incoming[i];
        if card.syncId == "" {
          card := card.(syncId := newIds[i]);
        }
        assert card == merging[i];
        assert merging[..i + 1][..i] == merging[..i];
        var _ := Upsert(card);
      }
      assert merging[..|incoming|] == merging;
      delta := GetCardsSince(lastSyncAt);
    }
  }

  /** `row` placed at position `p` of `cards`. */
  function InsertAt(cards: seq<Card>, row: Card, p: nat): (next: seq<Card>)
    requires p <= |cards|
    ensures |next| == |cards| + 1
    ensures forall i :: 0 <= i < p ==> next[i] == cards[i]
    ensures next[p] == row
    ensures forall i :: p < i < |next| ==> next[i] == cards[i - 1]
  {
    cards[..p] + [row] + cards[p..]
  }

  /** Inserting a row at its insertion point keeps a list newest-first. */
  lemma InsertKeepsNewestFirst(cards: seq<Card>, row: Card)
    requires NewestFirst(cards)
    ensures NewestFirst(InsertAt(cards, row, InsertionPoint(cards, row)))
  {
    var p := InsertionPoint(cards, row);
    var next := InsertAt(cards, row, p);
    forall i, j | 0 <= i < j < |next| ensures next[i].updatedAt >= next[j].updatedAt {
      if j == p {
      } else if i == p {
        assert cards[j - 1].updatedAt <= cards[p].updatedAt;
      } else if i < p && j < p {
      } else if i < p {
        assert next[j] == cards[j - 1];
      } else {
        assert next[i] == cards[i - 1] && next[j] == cards[j - 1];
      }
    }
  }

  /** Inserting a row with a new `sync_id` keeps the `sync_id`s distinct and
      adds exactly that row. */
  lemma InsertKeepsDistinct(cards: seq<Card>, row: Card, p: nat)
    requires p <= |cards|
    requires DistinctSyncIds(cards)
    requires forall c :: c in cards ==> c.syncId != row.syncId
    ensures DistinctSyncIds(InsertAt(cards, row, p))
    ensures forall c :: c in InsertAt(cards, row, p) <==> c in cards || c == row
  {
    var next := InsertAt(cards, row, p);
    forall i, j | 0 <= i < j < |next| ensures next[i].syncId != next[j].syncId {
      if i == p {
        assert next[j] == cards[j - 1];
      } else if j == p {
        assert next[i] == cards[i];
      } else {
        assert next[i] == cards[if i < p then i else i - 1];
        assert next[j] == cards[if j < p then j else j - 1];
      }
    }
    forall c ensures c in next <==> c in cards || c == row {
      if c in cards {
        var i :| 0 <= i < |cards| && cards[i] == c;
        assert next[if i < p then i else i + 1] == c;
      }
      if c in next {
        var i :| 0 <= i < |next| && next[i] == c;
        if i != p { assert cards[if i < p then i else i - 1] == c; }
      }
    }
  }

  /** `row` holds `card`'s value in every column an upsert overwrites. */
  predicate AgreesOnSyncedColumns(row: Card, card: Card) {
    Overwritten(row, card) == row
  }

  /** An upsert touches no row but its own: other rows keep their values
      and no row disappears. */
  lemma UpsertTouchesOnlyItsRow(rows: Table, card: Card, k: string)
    requires k in rows || k in AfterUpsert(rows, card)
    requires k != card.syncId
    ensures k in rows && k in AfterUpsert(rows, card) && AfterUpsert(rows, card)[k] == rows[k]
  {
  }

  /** On an existing `sync_id`, a strictly newer record overwrites every
      synced column and keeps `id` and `created_at`; an equal or older one
      changes nothing. */
  lemma UpsertExistingRow(rows: Table, card: Card)
    requires card.syncId in rows
    ensures var after := AfterUpsert(rows, card)[card.syncId];
      && after.id == rows[card.syncId].id
      && after.createdAt == rows[card.syncId].createdAt
      && (card.updatedAt > rows[card.syncId].updatedAt ==> AgreesOnSyncedColumns(after, card))
      && (card.updatedAt <= rows[card.syncId].updatedAt ==> AfterUpsert(rows, card) == rows)
  {
  }

  /** After an upsert that does not fail, the record's `updated_at` is the
      larger of the stored and the incoming timestamp. */
  lemma UpsertKeepsNewestTimestamp(rows: Table, card: Card)
    requires !UpsertFails(rows, card)
    ensures card.syncId in AfterUpsert(rows, card)
    ensures AfterUpsert(rows, card)[card.syncId].updatedAt
         == if card.syncId in rows && rows[card.syncId].updatedAt > card.updatedAt
            then rows[card.syncId].updatedAt else card.updatedAt
  {
  }

  /** Re-applying the same record (a retried sync) changes nothing. */
  lemma UpsertIdempotent(rows: Table, card: Card)
    ensures AfterUpsert(AfterUpsert(rows, card), card) == AfterUpsert(rows, card)
  {
    if card.syncId !in rows && !IdTaken(rows, card.id) {
      assert AfterUpsert(rows, card)[card.syncId].updatedAt == card.updatedAt;
    }
  }

  /** Two writes to an existing record converge: whichever order they
      arrive in, the table ends up the same. */
  lemma UpsertsCommuteOnExistingRow(rows: Table, c1: Card, c2: Card)
    requires c1.syncId == c2.syncId && c1.syncId in rows
    requires c1.updatedAt < c2.updatedAt
    ensures AfterUpsert(AfterUpsert(rows, c1), c2) == AfterUpsert(AfterUpsert(rows, c2), c1)
  {
    var k := c1.syncId;
    if c2.updatedAt > rows[k].updatedAt {
      assert AfterUpsert(AfterUpsert(rows, c2), c1) == AfterUpsert(rows, c2);
      if c1.updatedAt > rows[k].updatedAt {
        assert AfterUpsert(AfterUpsert(rows, c1), c2) == rows[k := Overwritten(rows[k], c2)];
      }
    }
  }

  /** Last writer wins by timestamp: of two writes to one `sync_id`, the
      newer one's synced columns are stored whichever arrives first (only
      `id` and `created_at` of a brand-new record depend on the order). */
  lemma NewerWriteWins(rows: Table, c1: Card, c2: Card)
    requires c1.syncId == c2.syncId
    requires c1.updatedAt < c2.updatedAt
    requires !UpsertFails(rows, c2)
    ensures var k := c2.syncId;
      && k in AfterUpsert(AfterUpsert(rows, c1), c2)
      && k in AfterUpsert(AfterUpsert(rows, c2), c1)
      && ((k in rows && c2.updatedAt > rows[k].updatedAt) || k !in rows ==>
            (&& AgreesOnSyncedColumns(AfterUpsert(AfterUpsert(rows, c1), c2)[k], c2)
             && AgreesOnSyncedColumns(AfterUpsert(AfterUpsert(rows, c2), c1)[k], c2)))
  {
    var k := c2.syncId;
    if k in rows {
      UpsertsCommuteOnExistingRow(rows, c1, c2);
    } else if UpsertFails(rows, c1) {
      assert AfterUpsert(rows, c1) == rows;
    } else {
      assert AfterUpsert(rows, c1)[k] == c1;
    }
  }

  /** Last writer wins needs the newer write's `id` to be free. For a new
      `sync_id` whose newer write carries an `id` another row already
      holds, that write's insert fails when it arrives first, and the older
      write is then stored; in the other order the newer one overwrites the
      older. */
  lemma NewerWriteLosesOnIdCollision(rows: Table, c1: Card, c2: Card)
    requires c1.syncId == c2.syncId && c2.syncId !in rows
    requires c1.updatedAt < c2.updatedAt
    requires IdTaken(rows, c2.id) && !IdTaken(rows, c1.id)
    ensures AfterUpsert(AfterUpsert(rows, c2), c1)[c1.syncId] == c1
    ensures AfterUpsert(AfterUpsert(rows, c1), c2)[c1.syncId] == Overwritten(c1, c2)
    ensures c1.name != c2.name ==> !AgreesOnSyncedColumns(AfterUpsert(AfterUpsert(rows, c2), c1)[c1.syncId], c2)
  {
    assert AfterUpsert(rows, c2) == rows;
    assert AfterUpsert(rows, c1)[c1.syncId] == c1;
  }

  /** A sequence of upserts never moves a stored timestamp backwards and
      never removes a row. */
  lemma {:induction false} UpsertAllNeverGoesBack(rows: Table, cards: seq<Card>, k: string)
    requires k in rows
    ensures k in UpsertAll(rows, cards)
    ensures UpsertAll(rows, cards)[k].updatedAt >= rows[k].updatedAt
    decreases |cards|
  {
    if cards != [] {
      UpsertAllNeverGoesBack(rows, cards[..|cards| - 1], k);
    }
  }

  /** Upserts add rows only under the `sync_id`s of the records applied. */
  lemma {:induction false} UpsertAllAddsOnlyTheirKeys(rows: Table, cards: seq<Card>, k: string)
    requires k !in rows
    requires forall i :: 0 <= i < |cards| ==> cards[i].syncId != k
    ensures k !in UpsertAll(rows, cards)
    decreases |cards|
  {
    if cards != [] {
      UpsertAllAddsOnlyTheirKeys(rows, cards[..|cards| - 1], k);
    }
  }

  /** When `syncCards` gives the i-th record a new uuid, no row has that
      `sync_id` yet, even after the records before it were merged: the
      record is inserted, never merged into someone else's row. */
  lemma AssignedIdIsAbsent(rows: Table, incoming: seq<Card>, newIds: seq<string>, i: nat)
    requires FreshIds(rows, incoming, newIds)
    requires i < |incoming| && incoming[i].syncId == ""
    ensures Assigned(incoming, newIds)[i].syncId == newIds[i]
    ensures newIds[i] !in UpsertAll(rows, Assigned(incoming, newIds)[..i])
  {
    var applied := Assigned(incoming, newIds)[..i];
    forall j | 0 <= j < |applied| ensures applied[j].syncId != newIds[i] {
      assert applied[j] == Assigned(incoming, newIds)[j];
    }
    UpsertAllAddsOnlyTheirKeys(rows, applied, newIds[i]);
  }

  /** `deleteCard` removes no row; the rows it hits are flagged deleted and
      stamped `now`, with every other column kept, and the rest are kept. */
  lemma DeleteIsSoft(rows: Table, key: string, now: int, k: string)
    requires k in rows
    ensures k in AfterDelete(rows, key, now)
    ensures AfterDelete(rows, key, now)[k]
         == if k == key || rows[k].id == key then rows[k].(isDeleted := true, updatedAt := now) else rows[k]
    ensures AfterDelete(rows, key, now).Keys == rows.Keys
  {
  }

  /** `deleteCard` stamps the server time unconditionally, so a record whose
      `updated_at` came from a client clock ahead of the server's goes back
      in time, and a write that was stale before the delete now wins and
      can bring the record back. */
  lemma DeleteReopensStaleWrite(rows: Table, card: Card, now: int)
    requires card.syncId in rows
    requires now < card.updatedAt <= rows[card.syncId].updatedAt
    ensures AfterUpsert(rows, card) == rows
    ensures AfterDelete(rows, card.syncId, now)[card.syncId].updatedAt < rows[card.syncId].updatedAt
    ensures AfterUpsert(AfterDelete(rows, card.syncId, now), card)[card.syncId].isDeleted == card.isDeleted
    ensures AgreesOnSyncedColumns(AfterUpsert(AfterDelete(rows, card.syncId, now), card)[card.syncId], card)
  {
  }

  lemma UpsertKeepsWellFormed(rows: Table, card: Card)
    requires WellFormed(rows)
    ensures WellFormed(AfterUpsert(rows, card))
  {
  }
}
