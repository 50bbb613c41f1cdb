/** The `bill_statements` table and the ingestion loop of `handleFetchBills`:
    every fetched message that has text and matches a card is saved as a
    statement, at most once per mail uid (`INSERT OR IGNORE` under the
    unique index on `email_uid`). */
module Statements {
  import opened BillText
  import opened CardSync
  import opened Extraction
  import opened Matching

  /** A `BillStatement` row. The autoincrement `id` column is assigned by
      the database and is not part of the model. */
  datatype BillStatement = BillStatement(
    cardSyncId: string,
    emailUid: nat,
    bank: string,
    amount: real,
    currency: string,
    billDate: string,
    dueDate: string,
    minPayment: real,
    statementType: string,
    matchedBy: string,
    matchConfidence: string,
    fetchedAt: int,
    rawContent: string)

  /** The table, keyed by the unique `email_uid`. */
  type Rows = map<nat, BillStatement>

  /** Every row sits under its own mail uid. */
  predicate KeyedByUid(rows: Rows) {
    forall uid :: uid in rows ==> rows[uid].emailUid == uid
  }

  /** `INSERT OR IGNORE`: a statement whose uid is already stored changes
      nothing; otherwise it becomes one new row. */
  function AfterSave(rows: Rows, bs: BillStatement): Rows {
    if bs.emailUid in rows then rows else rows[bs.emailUid := bs]
  }

  /** Saving never overwrites, adds at most the one row for the statement's
      uid, and keeps the table keyed by uid. */
  lemma SaveOnlyAdds(rows: Rows, bs: BillStatement)
    ensures forall uid :: uid in rows ==> uid in AfterSave(rows, bs) && AfterSave(rows, bs)[uid] == rows[uid]
    ensures AfterSave(rows, bs).Keys == rows.Keys + {bs.emailUid}
    ensures bs.emailUid !in rows ==> AfterSave(rows, bs)[bs.emailUid] == bs && |AfterSave(rows, bs)| == |rows| + 1
    ensures KeyedByUid(rows) ==> KeyedByUid(AfterSave(rows, bs))
  {
    if bs.emailUid !in rows {
      assert AfterSave(rows, bs).Keys == rows.Keys + {bs.emailUid};
    }
  }

  /** Saving the same statement again, or any statement for a stored uid,
      changes nothing. */
  lemma SaveIdempotent(rows: Rows, bs: BillStatement, again: BillStatement)
    requires again.emailUid == bs.emailUid
    ensures AfterSave(AfterSave(rows, bs), again) == AfterSave(rows, bs)
  {
  }

  /** What the loop does with one message. */
  datatype Outcome = Skip | Attempt(statement: BillStatement)

  /** The statement row built from a message and its match, stamped with
      the fetch time; the raw content is the body cut to 2000 runes. */
  function StatementOf(b: Bill, card: Card, tier: Tier, confidence: Confidence, fetchedAt: int): BillStatement {
    BillStatement(card.syncId, b.uid, b.bank, b.amount, b.currency, b.billDate, b.dueDate,
                  b.minPayment, b.statementType, tier.Label(), confidence.Label(), fetchedAt,
                  Truncate(b.body, 2000))
  }

  /** A fetched message is well-formed for matching when its full card
      number is empty or long enough to take four digits from. */
  predicate Matchable(b: Bill) {
    b.fullCardNumber == "" || |b.fullCardNumber| >= 4
  }

  /** A PDF-only message with no text is skipped, so is one that matches
      no card; any other is saved, under its uid, for the matched card,
      with the tier and confidence of the match. */
  function OutcomeOf(b: Bill, cards: seq<Card>, fetchedAt: int): (o: Outcome)
    requires Matchable(b)
    ensures o.Skip? <==> (b.statementType == "pdf" && b.body == "") || Expected(b, cards).NotFound?
    ensures o.Attempt? ==>
      var m := Expected(b, cards);
      && o.statement.emailUid == b.uid
      && o.statement.cardSyncId == m.card.syncId
      && o.statement.matchedBy == m.matchedBy.Label()
      && o.statement.matchConfidence == m.confidence.Label()
      && o.statement.fetchedAt == fetchedAt
  {
    if b.statementType == "pdf" && b.body == "" then Skip
    else match Expected(b, cards)
      case NotFound => Skip
      case Found(card, tier, confidence) => Attempt(StatementOf(b, card, tier, confidence, fetchedAt))
  }

  /** The per-message inputs of the loop: the message, the fetch time
      `time.Now()` gives it, and whether its save reports an error. */
  datatype Fetched = Fetched(bill: Bill, fetchedAt: int, saveFails: bool)

  predicate AllMatchable(fs: seq<Fetched>) {
    forall i :: 0 <= i < |fs| ==> Matchable(fs[i].bill)
  }

  /** The table after the loop has handled the given messages. */
  function RowsAfter(rows: Rows, fs: seq<Fetched>, cards: seq<Card>): Rows
    requires AllMatchable(fs)
    decreases |fs|
  {
    if fs == [] then rows
    else
      var f := fs[|fs| - 1];
      var before := RowsAfter(rows, fs[..|fs| - 1], cards);
      match OutcomeOf(f.bill, cards, f.fetchedAt)
      case Attempt(bs) => if f.saveFails then before else AfterSave(before, bs)
      case Skip => before
  }

  /** How many of the messages were skipped, saved without an error, and
      attempted but failed. */
  function Skipped(fs: seq<Fetched>, cards: seq<Card>): nat
    requires AllMatchable(fs)
    decreases |fs|
  {
    if fs == [] then 0
    else
      var f := fs[|fs| - 1];
      Skipped(fs[..|fs| - 1], cards) + (if OutcomeOf(f.bill, cards, f.fetchedAt).Skip? then 1 else 0)
  }

  function Saved(fs: seq<Fetched>, cards: seq<Card>): nat
    requires AllMatchable(fs)
    decreases |fs|
  {
    if fs == [] then 0
    else
      var f := fs[|fs| - 1];
      Saved(fs[..|fs| - 1], cards) + (if OutcomeOf(f.bill, cards, f.fetchedAt).Attempt? && !f.saveFails then 1 else 0)
  }

  function Failed(fs: seq<Fetched>, cards: seq<Card>): nat
    requires AllMatchable(fs)
    decreases |fs|
  {
    if fs == [] then 0
    else
      var f := fs[|fs| - 1];
      Failed(fs[..|fs| - 1], cards) + (if OutcomeOf(f.bill, cards, f.fetchedAt).Attempt? && f.saveFails then 1 else 0)
  }

  /** Every message is counted exactly once: saved, skipped, or failed. */
  lemma {:induction false} CountsAddUp(fs: seq<Fetched>, cards: seq<Card>)
    requires AllMatchable(fs)
    ensures Saved(fs, cards) + Skipped(fs, cards) + Failed(fs, cards) == |fs|
    decreases |fs|
  {
    if fs != [] {
      CountsAddUp(fs[..|fs| - 1], cards);
    }
  }

  /** A message whose uid is already stored still counts as saved, though
      the ignored insert leaves the table as it was. */
  lemma DuplicateCountsAsSaved(rows: Rows, f: Fetched, cards: seq<Card>)
    requires Matchable(f.bill) && !f.saveFails && f.bill.uid in rows
    requires OutcomeOf(f.bill, cards, f.fetchedAt).Attempt?
    ensures Saved([f], cards) == 1
    ensures RowsAfter(rows, [f], cards) == rows
  {
    assert [f][..0] == [];
  }

  /** The loop never overwrites or removes a stored statement. */
  lemma {:induction false} IngestOnlyAdds(rows: Rows, fs: seq<Fetched>, cards: seq<Card>)
    requires AllMatchable(fs)
    ensures forall uid :: uid in rows ==> uid in RowsAfter(rows, fs, cards) && RowsAfter(rows, fs, cards)[uid] == rows[uid]
    ensures KeyedByUid(rows) ==> KeyedByUid(RowsAfter(rows, fs, cards))
    decreases |fs|
  {
    if fs != [] {
      var f := fs[|fs| - 1];
      var before := RowsAfter(rows, fs[..|fs| - 1], cards);
      IngestOnlyAdds(rows, fs[..|fs| - 1], cards);
      if OutcomeOf(f.bill, cards, f.fetchedAt).Attempt? {
        SaveOnlyAdds(before, OutcomeOf(f.bill, cards, f.fetchedAt).statement);
      }
    }
  }

  /** One step of the loop keeps every stored uid and stores the uid of a
      message it saves. */
  lemma IngestStep(rows: Rows, fs: seq<Fetched>, cards: seq<Card>)
    requires AllMatchable(fs) && fs != []
    ensures RowsAfter(rows, fs[..|fs| - 1], cards).Keys <= RowsAfter(rows, fs, cards).Keys
    ensures !fs[|fs| - 1].saveFails && OutcomeOf(fs[|fs| - 1].bill, cards, fs[|fs| - 1].fetchedAt).Attempt? ==>
      fs[|fs| - 1].bill.uid in RowsAfter(rows, fs, cards)
  {
    var f := fs[|fs| - 1];
    var before := RowsAfter(rows, fs[..|fs| - 1], cards);
    match OutcomeOf(f.bill, cards, f.fetchedAt)
    case Attempt(bs) =>
      if !f.saveFails {
        SaveOnlyAdds(before, bs);
      }
    case Skip =>
  }

  /** Every message the loop saves without an error has its uid in the
      table afterwards. */
  lemma {:induction false} SavedUidsAreStored(rows: Rows, fs: seq<Fetched>, cards: seq<Card>)
    requires AllMatchable(fs)
    ensures forall i :: 0 <= i < |fs| && !fs[i].saveFails && OutcomeOf(fs[i].bill, cards, fs[i].fetchedAt).Attempt? ==>
      fs[i].bill.uid in RowsAfter(rows, fs, cards)
    decreases |fs|
  {
    if fs != [] {
      var init := fs[..|fs| - 1];
      SavedUidsAreStored(rows, init, cards);
      IngestStep(rows, fs, cards);
      assert forall i :: 0 <= i < |init| ==> init[i] == fs[i];
    }
  }

  /** When every message the loop would save has its uid stored already,
      the loop leaves the table unchanged. */
  lemma {:induction false} IngestOfStoredIsNoop(rows: Rows, fs: seq<Fetched>, cards: seq<Card>)
    requires AllMatchable(fs)
    requires forall i :: 0 <= i < |fs| && OutcomeOf(fs[i].bill, cards, fs[i].fetchedAt).Attempt? ==> fs[i].bill.uid in rows
    ensures RowsAfter(rows, fs, cards) == rows
    decreases |fs|
  {
    if fs != [] {
      var init := fs[..|fs| - 1];
      assert forall i :: 0 <= i < |init| ==> init[i] == fs[i];
      IngestOfStoredIsNoop(rows, init, cards);
    }
  }

  /** Fetching the same messages again, at other times and whatever fails
      then, changes nothing once a first run saved them all. */
  lemma IngestTwice(rows: Rows, first: seq<Fetched>, again: seq<Fetched>, cards: seq<Card>)
    requires AllMatchable(first) && |again| == |first|
    requires forall i :: 0 <= i < |first| ==> !first[i].saveFails && again[i].bill == first[i].bill
    ensures AllMatchable(again)
    ensures RowsAfter(RowsAfter(rows, first, cards), again, cards) == RowsAfter(rows, first, cards)
  {
    var stored := RowsAfter(rows, first, cards);
    SavedUidsAreStored(rows, first, cards);
    forall i | 0 <= i < |again| && OutcomeOf(again[i].bill, cards, again[i].fetchedAt).Attempt?
      ensures again[i].bill.uid in stored
    {
      assert OutcomeOf(first[i].bill, cards, first[i].fetchedAt).Attempt?;
    }
    IngestOfStoredIsNoop(stored, again, cards);
  }

  /** The statement table. */
  class StatementStore {
    var rows: Rows

    ghost predicate Valid()
      reads this
    {
      KeyedByUid(rows)
    }

    constructor ()
      ensures rows == map[] && Valid()
    {
      rows := map[];
    }

    /** `saveBillStatement`; `fails` stands for an error the database
        reports, in which case nothing is written. */
    method Save(bs: BillStatement, fails: bool) returns (err: bool)
      requires Valid()
      modifies this
      ensures Valid()
      ensures err == fails
      ensures rows == if fails then old(rows) else AfterSave(old(rows), bs)
    {
      if fails {
        return true;
      }
      SaveOnlyAdds(rows, bs);
      rows := AfterSave(rows, bs);
      return false;
    }

    /** The matching and saving loop of `handleFetchBills`, over the
        messages `fetchEmailsFromIMAP` returned and the cards
        `getCardsAll` read; it answers total, saved and skipped. */
    method FetchBills(fs: seq<Fetched>, cards: seq<Card>) returns (total: nat, saved: nat, skipped: nat)
      requires Valid() && AllMatchable(fs)
      modifies this
      ensures Valid()
      ensures total == |fs|
      ensures saved == Saved(fs, cards) && skipped == Skipped(fs, cards)
      ensures saved + skipped + Failed(fs, cards) == total
      ensures rows == RowsAfter(old(rows), fs, cards)
    {
      saved, skipped := 0, 0;
      for i := 0 to |fs|
        invariant Valid()
        invariant saved == Saved(fs[..i], cards) && skipped == Skipped(fs[..i], cards)
        invariant rows == RowsAfter(old(rows), fs[..i], cards)
      {
        assert fs[..i + 1][..i] == fs[..i];
        var pb := fs[i].bill;
        if pb.statementType == "pdf" && pb.body == "" {
          skipped := skipped + 1;
          continue;
        }

        var mr := MatchBillToCard(pb, cards);
        if !mr.Found? {
          skipped := skipped + 1;
          continue;
        }

        var bs := StatementOf(pb, mr.card, mr.matchedBy, mr.confidence, fs[i].fetchedAt);
        var err := Save(bs, fs[i].saveFails);
        if !err {
          saved := saved + 1;
        }
      }
      assert fs[..|fs|] == fs;
      CountsAddUp(fs, cards);
      total := |fs|;
    }
  }
}
