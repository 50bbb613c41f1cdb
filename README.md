# Card vault server: card sync and bill-statement ingestion, in Dafny

This project models the core of the Go backend of a credit-card vault. It
covers two parts.

- **The card store and its last-writer-wins sync** (`server/main.go`).
  - The `cards` table is a map from `sync_id` to `Card`, and `id` is a
    second unique key.
  - `CardSync.CardStore` holds that map. Its methods are `insertCard`,
    `upsertCard` (INSERT … ON CONFLICT(sync_id) DO UPDATE … WHERE
    excluded.updated_at > cards.updated_at), `createCard`, `updateCard`, the
    soft delete of `deleteCard`, the newest-first selections of
    `getCardsSince` and `getCards`, and the merge loop of `syncCards`.
  - Each method is proved against a function on the table (`AfterUpsert`,
    `UpsertAll`, `AfterDelete`) or a selection predicate (`IsDelta`).
  - The last-writer-wins properties are lemmas about those functions.
- **Bill statements fetched from a mailbox** (`server/email_bills.go`).
  - `GoStrings` holds the parts of Go's `strings`/`unicode` packages and of
    RE2's `\s` that the code relies on.
  - `BillText` holds `stripHTML`, `normalizeDate`, `truncate`,
    `normalizeChineseName` and `detectBank`.
  - `Extraction` holds the `parsedBill` record as a class, the field rules
    of `extractBillFields`, and the MIME part fold of `parseIMAPMessage`.
  - `Matching` holds the three-tier `matchBillToCard`.
  - `Statements` holds the `bill_statements` table (INSERT OR IGNORE under
    the unique index on `email_uid`) and the counting loop of
    `handleFetchBills`.

Some behaviour of the code is worth knowing:

- **Delta boundary.** The sync delta uses a strict `updated_at > since`. A
  record stamped exactly at the client's watermark (for example 0 with a
  watermark of 0) is therefore not sent back. The model follows the code.
- **Delete can lower a timestamp.** `deleteCard` stamps the server clock
  whatever the stored `updated_at` was. When client timestamps run ahead of
  the server clock, the delete lowers the timestamp, and a stale write that
  had already lost can then win and undelete the card
  (`CardSync.DeleteReopensStaleWrite`).
- **Arrival order on a new record.** Two writes to a `sync_id` that is not
  yet stored converge on every synced column, provided the newer write's
  `id` is not held by another row. The `id` and `created_at` kept are those
  of whichever write arrived first (`CardSync.NewerWriteWins`).
- **Id collision breaks convergence.** Suppose the newer write to a new
  `sync_id` carries an `id` that another row already holds. If it arrives
  first, its insert fails on the primary key and the older write is then
  stored. In the other order the newer write overwrites the older one
  (`CardSync.NewerWriteLosesOnIdCollision`).
- **Equal timestamps.** The upsert overwrites only on a strictly newer
  `updated_at` (`WHERE excluded.updated_at > cards.updated_at`). Of two
  writes with the same timestamp, the stored row, that is the first
  writer, is kept (`CardSync.UpsertExistingRow`).
- **Ambiguous bank.** `"cmbc"` is a substring of `"cmbchina"`. Go's map
  order is unspecified, so a China Merchants Bank sender may be reported as
  either bank (`BillText.CmbChinaSenderIsAmbiguous`).
- **The `saved` count.** It includes messages whose uid was already stored,
  because an ignored insert reports no error
  (`Statements.DuplicateCountsAsSaved`).
- **Escaped entities.** The entity replacements run in a fixed order, so
  `&amp;lt;` decodes to `<` (`BillText.AmpLtDecodesToLt`).
- **Currency without a body.** A message with no readable body gets no
  field extraction at all. Its currency stays empty rather than "CNY".

## Model

| member | source | states |
|---|---|---|
| CardSync.BoolToInt | server/main.go:388-393 | the column value is 1 exactly for true and 0 exactly for false |
| CardSync.CardStore.Insert | server/main.go:298-313 | fails exactly when the sync_id or the id is already stored, and then writes nothing; otherwise adds the row under its sync_id with is_deleted forced to false; the table stays keyed by sync_id with unique ids |
| CardSync.CardStore.Upsert | server/main.go:315-351 | fails only when a new sync_id collides on id; the new table is `AfterUpsert`: insert when absent, overwrite only on a strictly newer updated_at, keeping id and created_at |
| CardSync.CardStore.Create | server/main.go:241-260 | given new uuids and the time, the card is created with those ids, created_at == updated_at == now, is stored with is_deleted false, and nothing else changes |
| CardSync.CardStore.Update | server/main.go:262-281 | the upsert of the payload with the path id and updated_at set to now |
| CardSync.CardStore.Delete | server/main.go:283-296 | every row whose id or sync_id is the key gets is_deleted and updated_at = now; other rows are untouched |
| CardSync.CardStore.SelectNewestFirst | server/main.go:353-386 | returns exactly the stored rows that pass the filter, each once, in non-increasing updated_at order |
| CardSync.CardStore.GetCardsSince | server/main.go:353-386 | the delta: exactly the rows with updated_at > since, deleted ones included, newest first |
| CardSync.CardStore.GetCards | server/main.go:204-239 | exactly the rows not soft-deleted, newest first |
| CardSync.CardStore.Sync | server/main.go:173-202 | the server time is the time taken before any write; records without a sync_id get a new uuid; the table is all upserts applied in order; the returned cards are the delta of the table after those upserts |
| CardSync.InsertKeepsNewestFirst | server/main.go:360 | placing a row at its insertion point keeps a list in updated_at descending order |
| CardSync.InsertKeepsDistinct | server/main.go:359-360 | inserting a row with a new sync_id keeps sync_ids distinct and adds exactly that row |
| CardSync.UpsertTouchesOnlyItsRow | server/main.go:316-323 | an upsert neither changes nor removes any row under another sync_id |
| CardSync.UpsertExistingRow | server/main.go:323-341 | on a stored sync_id, a strictly newer record overwrites every listed column (is_deleted included) and keeps id and created_at; an equal or older one changes nothing |
| CardSync.UpsertKeepsNewestTimestamp | server/main.go:341-342 | after an upsert that does not fail, the row's updated_at is the larger of the stored and incoming timestamps |
| CardSync.UpsertIdempotent | server/main.go:342 | applying the same record twice is the same as applying it once |
| CardSync.UpsertsCommuteOnExistingRow | server/main.go:323-342 | two writes with different timestamps to a stored record leave the same table in either order |
| CardSync.NewerWriteWins | server/main.go:323-342 | of two writes t1 < t2 to one sync_id, in either order, the row ends with the t2 write's synced columns, provided the t2 write's id is not held by another row and, when the record is already stored, t2 is newer than the stored row |
| CardSync.NewerWriteLosesOnIdCollision | server/main.go:315-342 | on a new sync_id whose newer write carries an id another row holds: newer first leaves the older write stored, older first leaves the newer write's columns; so with different names the two orders disagree |
| CardSync.UpsertAllNeverGoesBack | server/main.go:184-189 | a run of upserts never removes a row and never lowers its updated_at |
| CardSync.UpsertAllAddsOnlyTheirKeys | server/main.go:184-189 | a run of upserts adds rows only under the sync_ids of the records applied |
| CardSync.AssignedIdIsAbsent | server/main.go:184-189 | a record given a new uuid in the sync loop finds no row under that uuid when its turn comes, so it is inserted rather than merged |
| CardSync.DeleteIsSoft | server/main.go:286-288 | the delete removes no row; hit rows keep every column except is_deleted (true) and updated_at (now) |
| CardSync.DeleteReopensStaleWrite | server/main.go:286-288 | a write that loses to the stored row wins after a delete stamped with an earlier server time: the row then holds every synced column of that write, is_deleted included |
| CardSync.UpsertKeepsWellFormed | server/main.go:315-351 | an upsert keeps every row under its own sync_id and ids unique |
| GoStrings.TrimSpace | server/email_bills.go:366 | the result is a slice of the input with only Unicode spaces cut before and after it; it has no leading or trailing Unicode space, and is the input itself when that is already trimmed |
| GoStrings.ToLower | server/email_bills.go:383 | same length; every rune whose lower case is ASCII ('A'-'Z', U+0130, U+212A) becomes that ASCII letter, and every other rune is kept |
| GoStrings.ReplaceAllRunes | server/email_bills.go:248-252 | a replacement brings in no rune that is in neither the input nor the replacement |
| GoStrings.ReplaceRunePointwise | server/email_bills.go:406-408 | replacing one rune by one rune keeps the length and changes exactly the occurrences of that rune |
| GoStrings.TrimSpaceIdempotent | server/email_bills.go:489-491 | trimming twice is trimming once |
| GoStrings.JoinSplit | server/email_bills.go:410-418 | joining the parts of a split with the separator gives back the string |
| GoStrings.SplitJoin | server/email_bills.go:410-418 | splitting a join of separator-free parts gives back the parts |
| GoStrings.ReplaceRuneRemovesIt | server/email_bills.go:406-408 | replacing a one-rune pattern leaves none of it and brings in no rune from elsewhere |
| GoStrings.ToUpper | server/email_bills.go:490 | same length; no 'a'-'z' is left, each becomes its capital, and every other rune is kept in place |
| BillText.StripTags | server/email_bills.go:245-246 | the tag pass is no longer than its input and only keeps input runes or puts in spaces |
| BillText.StripTagsKeepsPrefix | server/email_bills.go:245-246 | text before the first '<' comes through the tag pass unchanged |
| BillText.StripTagsReplacesTag | server/email_bills.go:245-246 | a tag `<t>` (t non-empty, no '>') after text without '<' becomes exactly one space; the text before it is kept and the pass goes on after its '>' |
| BillText.DecodeEntities | server/email_bills.go:248-252 | text without '&' is unchanged |
| BillText.DecodesNbsp | server/email_bills.go:248 | `&nbsp;` between texts without '&' becomes one space |
| BillText.DecodesAmp | server/email_bills.go:249 | `&amp;` between texts without '&' becomes '&', unless the text after it spells the rest of a later entity (then it is decoded twice, see `DecodeEntitiesAmpLt`) |
| BillText.DecodesLt | server/email_bills.go:250 | `&lt;` between texts without '&' becomes '<' |
| BillText.DecodesGt | server/email_bills.go:251 | `&gt;` between texts without '&' becomes '>' |
| BillText.DecodesYen | server/email_bills.go:252 | `&yen;` between texts without '&' becomes '¥' |
| BillText.DecodeEntitiesRunes | server/email_bills.go:248-252 | the pass brings in no rune but ' ', '&', '<', '>' and '¥' |
| BillText.StripTagsLeavesNoTag | server/email_bills.go:245-246 | no `<` followed by a non-empty run up to `>` survives the tag pass |
| BillText.CollapseSpaces | server/email_bills.go:254-255 | no two adjacent `\s` runes remain, every `\s` left is ' ', and the result starts with a space only if the input did |
| BillText.CollapseAndTrim | server/email_bills.go:254-255 | the result is trimmed, single-spaced, and a slice of the collapsed text with only Unicode spaces cut at the ends |
| BillText.TokensOfRun | server/email_bills.go:254 | a leading run of `\s` counts as one separator, whatever its length |
| BillText.CollapseKeepsTokens | server/email_bills.go:254 | the collapsing pass keeps every non-`\s` rune in order, and puts a space between two of them exactly where a `\s` run was |
| BillText.CollapseKeepsTrailingSpace | server/email_bills.go:254 | the collapsed text ends in a space exactly when the input ends in `\s` |
| BillText.SingleSpacedByTokens | server/email_bills.go:254 | two single-spaced texts with the same runes and separators, and the same trailing space, are equal |
| BillText.CollapseSpacesUnique | server/email_bills.go:254 | the collapsing pass is the only single-spaced text with the input's runes and separators, ending in a space when the input does |
| BillText.CollapseRunes | server/email_bills.go:254 | the collapsing pass brings in no rune but ' ' |
| BillText.TrimKeepsTokens | server/email_bills.go:255 | cutting spaces at both ends keeps every non-space rune and every inner separator |
| BillText.CollapseAndTrimKeepsTokens | server/email_bills.go:254-255 | for text whose Unicode spaces are all `\s`, the result holds every non-space rune in order, one space exactly between two runes that a `\s` run separated, and nothing else |
| BillText.CollapseWithoutSpaces | server/email_bills.go:254-255 | text with no `\s` rune is returned unchanged by the collapsing pass |
| BillText.StripHTML | server/email_bills.go:244-256 | the result has no leading or trailing whitespace and no run of two `\s` runes |
| BillText.StripHTMLKeepsTokens | server/email_bills.go:244-256 | for markup whose Unicode spaces are all `\s`, every non-space rune left by the tag and entity passes survives in order, with one space exactly where those passes left a run of `\s` |
| BillText.DecodeEntitiesAmpLt | server/email_bills.go:248-252 | the replacements in their fixed order turn `&amp;lt;` into `<` |
| BillText.AmpLtDecodesToLt | server/email_bills.go:244-256 | `stripHTML("&amp;lt;")` is `<` |
| BillText.DashedHasNoSeparators | server/email_bills.go:406-408 | after the replacements no 年, 月 or '/' remains |
| BillText.DashedFixesDashed | server/email_bills.go:406-408 | a string already without 年, 月 and '/' is unchanged by the replacements |
| BillText.DashedChineseDate | server/email_bills.go:406-408 | a date written y年m月d, with no separator inside its parts, becomes y-m-d |
| BillText.PaddedDate | server/email_bills.go:410-419 | on a dashed date of three parts, the joined result holds no separator and splits back into the year and the padded month and day |
| BillText.NormalizeDate | server/email_bills.go:404-421 | the output has no 年, 月 or '/' |
| BillText.DashedPointwise | server/email_bills.go:406-408 | the separator rewrite keeps the length and maps each rune to '-' exactly when it is 年, 月 or '/' |
| BillText.NormalizeDateShape | server/email_bills.go:404-421 | with three '-' parts after the rewrite, the output splits into the year and the month and day with one-byte parts given a leading '0'; with any other number of parts, the output is the rewritten string itself |
| BillText.NormalizeDateIdempotent | server/email_bills.go:404-421 | normalising a normalised date changes nothing |
| BillText.Truncate | server/email_bills.go:753-759 | at most n runes: unchanged; otherwise the first n runes followed by "...", n+3 runes in all |
| BillText.NormalizeChineseName | server/email_bills.go:489-491 | a normalised name has no ' ', no leading or trailing space, and no lower-case ASCII letter |
| BillText.NonSpaces | server/email_bills.go:490 | the runes other than ' ' keep their counts and no ' ' is left |
| BillText.RemoveSpacesFilters | server/email_bills.go:490 | `strings.ReplaceAll(s, " ", "")` is exactly the filter `NonSpaces` |
| BillText.NormalizeChineseNameKeeps | server/email_bills.go:489-491 | the normalised name is the runes of the trimmed name other than ' ', in order, each upper-cased |
| BillText.NormalizeChineseNameIdempotent | server/email_bills.go:489-491 | normalising a normalised name changes nothing |
| BillText.DetectBank | server/email_bills.go:382-395 | some bank whose domain key is in the lower-cased sender; only when there is none, some bank whose keyword is in the subject; "" exactly when neither matches |
| BillText.CmbChinaSenderIsAmbiguous | server/email_bills.go:280-295 | a cmbchina sender admits both 招商银行 and 民生银行 as the answer |
| Extraction.StripSeparators | server/email_bills.go:323 | the result holds only runes of the capture, none of them `\s` or '-', and is the capture itself when it has no separator |
| Extraction.StripSeparatorsAppend | server/email_bills.go:323 | the separators of a concatenation are removed piece by piece |
| Extraction.DateOf | server/email_bills.go:355-362 | a date capture always normalises to YYYY-MM-DD |
| Extraction.NormalizeCapturedDate | server/email_bills.go:404-421 | on a capture of `\d{4}[-/年]\d{1,2}[-/月]\d{1,2}`, the result is YYYY-MM-DD with the captured year and the month and day zero-padded to two digits |
| Extraction.DashedDate | server/email_bills.go:406-408 | the separator rewrite of a date capture is year, month and day joined by '-' |
| Extraction.SplitDigitParts | server/email_bills.go:410 | three digit strings joined by '-' split back into themselves |
| Extraction.FullCardRule | server/email_bills.go:322-328 | a full card number is taken only with 15 or more digits, all digits, so its final four are four digits |
| Extraction.MaskedLastFourRule | server/email_bills.go:330-341 | a known last four is kept; otherwise the text's masked capture, else the subject's, else ""; so the result is "" or four digits |
| Extraction.HolderNameRule | server/email_bills.go:364-379 | a taken name is trimmed and contains none of 您/您已/请/温馨, and an unblocked capture is always taken |
| Extraction.Extracted | server/email_bills.go:314-380 | uid, sender, subject, body, type and bank are untouched and the currency is "CNY"; each other field keeps its value or takes the shape its rule guarantees: a full number of 15+ digits, a last four of four digits, YYYY-MM-DD dates, a trimmed unblocked name; when a full card number is taken it is stored and its final four become the last four |
| Extraction.ExtractedIdempotent | server/email_bills.go:314-380 | running the extraction a second time on its own output changes nothing |
| Extraction.ScreenName | server/email_bills.go:368-375 | the blocklist loop answers whether the name contains any blocked fragment |
| Extraction.ParsedBill.constructor | server/email_bills.go:177-183 | a new record holds the uid, sender and subject, every other field at its zero value |
| Extraction.ParsedBill.ExtractBillFields | server/email_bills.go:314-380 | the bank is a `DetectBank` choice and every other field is as `Extracted` defines: each rule sets its field only when it matches, the currency is always "CNY" |
| Extraction.ParsedBill.TakeCardNumber | server/email_bills.go:321-341 | full card number and last four per the full-card and masked rules; nothing else changes |
| Extraction.ParsedBill.TakeAmounts | server/email_bills.go:343-352 | currency "CNY"; amount and minimum payment parsed from their captures when present; nothing else changes |
| Extraction.ParsedBill.TakeDates | server/email_bills.go:354-362 | statement and due dates normalised from their captures when present; nothing else changes |
| Extraction.ParsedBill.TakeHolderName | server/email_bills.go:364-379 | the holder name becomes the trimmed capture unless it is blocked; nothing else changes |
| Extraction.TypeAfterLastDecisive | server/email_bills.go:207-225 | the statement type is set by the last text/plain or application/pdf part, whatever HTML parts follow |
| Extraction.TypeAfterWithoutDecisive | server/email_bills.go:207-225 | without plain-text or PDF parts, the type is "html" when some part is HTML and "" otherwise |
| Extraction.PdfOnlyMessage | server/email_bills.go:207-228 | a message of PDFs and images is typed "pdf" and has no text parts |
| Extraction.NoTextParts | server/email_bills.go:207-215 | parts that are neither plain text nor HTML contribute no text |
| Extraction.ParsedBill.ReadParts | server/email_bills.go:197-226 | the text parts are the plain texts and stripped HTML texts in part order; the statement type is the fold of the content types (text overrides, html only when unset, pdf overrides); no other field changes |
| Extraction.ParseIMAPMessage | server/email_bills.go:172-231 | no envelope gives no record; without a readable body, just the uid, first sender and subject; otherwise the text parts joined by "\n", the folded statement type, and the extraction of that body; a record's full card number is "" or 15+ long, so it meets the matcher's precondition |
| Extraction.FetchWindow | server/email_bills.go:130-138 | an empty mailbox fetches nothing; otherwise the window ends at the last message and spans min(messages, 100) messages |
| Matching.CandidatesSpec | server/email_bills.go:436-487 | the candidates are exactly the active cards answering to a key; the first is the one with the smallest index; there are two or more exactly when two positions answer |
| Matching.Expected | server/email_bills.go:434-487 | full_card goes with high, last_four with medium or ambiguous, name with low or ambiguous |
| Matching.MatchIsActiveCard | server/email_bills.go:436-441 | a found card is in the input list and is not deleted |
| Matching.FullCardWins | server/email_bills.go:444-451 | when an active card has the full number's last four, the first such card is returned with full_card/high, whatever else the message says |
| Matching.LastFourTier | server/email_bills.go:454-468 | a last_four match happens only when the full number matched no active card; the card has the masked digits as a non-empty last four; ambiguous exactly when two active cards share them, medium otherwise |
| Matching.NameTier | server/email_bills.go:471-484 | a name match happens only when neither number matched; the card's normalised holder name equals the message's; ambiguous exactly when two active cards match, low otherwise |
| Matching.NotFoundWhenNoTierHits | server/email_bills.go:486 | no match exactly when no tier with a non-empty key has an active card answering to it |
| Matching.DeletedCardIsIgnored | server/email_bills.go:436-441 | inserting a deleted card anywhere in the list never changes the result |
| Matching.ActiveCards | server/email_bills.go:436-441 | keeps exactly the cards not marked deleted, in list order |
| Matching.ActiveThenHit | server/email_bills.go:436-484 | scanning the active list for a key yields exactly the eligible candidates of the full list |
| Matching.DeletedCardIsNoCandidate | server/email_bills.go:436-441 | a deleted card inserted anywhere adds no candidate for any key |
| Matching.FirstHit | server/email_bills.go:446-450 | the scan finds a hit exactly when one exists, and returns the first |
| Matching.AllHits | server/email_bills.go:455-460 | collects the cards answering to the key, in list order |
| Matching.MatchBillToCard | server/email_bills.go:434-487 | the result is `Expected`: the first tier with an eligible card decides and picks the first such card, with the tier's confidence |
| Statements.SaveOnlyAdds | server/email_bills.go:497-508 | a save never overwrites; it adds exactly the statement's row when its uid is new, and keeps the table keyed by uid |
| Statements.SaveIdempotent | server/email_bills.go:497-508 | saving again for a stored uid changes nothing |
| Statements.OutcomeOf | server/email_bills.go:536-563 | skipped exactly when it is a PDF with no text or matches no card; otherwise saved under its own uid for the matched card, with the match's tier and confidence labels and the fetch time |
| Statements.CountsAddUp | server/email_bills.go:535-569 | saved + skipped + failed saves equals the number of messages |
| Statements.DuplicateCountsAsSaved | server/email_bills.go:564-568 | a message whose uid is already stored counts as saved while the table stays unchanged |
| Statements.IngestOnlyAdds | server/email_bills.go:535-569 | the loop never overwrites or removes a stored statement |
| Statements.SavedUidsAreStored | server/email_bills.go:535-569 | every message saved without an error ends up stored under its uid |
| Statements.IngestOfStoredIsNoop | server/email_bills.go:535-569 | when every message to be saved is already stored, the table is unchanged |
| Statements.IngestTwice | server/email_bills.go:535-569 | fetching the same messages again, at any time, changes nothing after a run with no failed save |
| Statements.StatementStore.Save | server/email_bills.go:497-508 | a reported error writes nothing; otherwise the table becomes `AfterSave`: insert if the uid is absent, ignore otherwise |
| Statements.StatementStore.FetchBills | server/email_bills.go:535-569 | the answer counts every message; saved and skipped are the per-message counts; saved + skipped + failed == total; the table is every successful save applied in order |

## Left out

- Network and mail I/O are not part of this model. That covers the IMAP
  dial, login, mailbox selection and the goroutine/channel fetch of
  `fetchEmailsFromIMAP`, and `handleTestEmailConfig`. The fetched messages
  are an input sequence, and only the sequence-number window is modelled
  (`FetchWindow`).
- MIME parsing and `decodeBody` (base64 detection) are library calls. A
  message body is given as no body, an unreadable body, or a sequence of
  (content type, decoded text) parts.
- The regular expressions for card number, last four, amounts, dates and
  name are not modelled as regex matching. Each becomes a function from
  the searched text to its optional capture, typed with the shape of the
  capture group (`CardCapture`, `FourDigits`, `AmountCapture`,
  `DateCapture`, `NameCapture`). The word boundaries and the text around
  the group are not modelled. The tag pass and the whitespace pass of `stripHTML`
  are written out as scans.
- `parseAmount` is a float parse via `Sscanf`. It is an opaque parameter,
  and the amounts and `credit_limit` are `real`.
- `time.Now()` and `uuid.New()` become parameters. The uuids are required
  to be new, as uuids are in practice.
- The database is modelled as maps.
  - The `cards` upsert assumes SQLite checks the `sync_id` conflict target
    first. A new `sync_id` whose `id` is taken fails and writes nothing;
    `syncCards` ignores that error.
  - Row scanning errors, the autoincrement `id` of `bill_statements`, and
    the `GET /bills` listing are not modelled.
  - `getCardsAll` returns rows in no defined order. `FetchBills` takes the
    card list as given.
- Concurrency between requests, JSON binding, routing and CORS, table
  creation, and the email-config handlers are plumbing and are left out.
- BillText.DetectBank: it states which answers are possible, not which
  one a given Go map iteration picks. That order is unspecified in Go.
- GoStrings.ToLower: it lower-cases the runes whose lower case is ASCII
  and keeps every other rune, not the full Unicode case mapping of
  `strings.ToLower`. The bank domain keys it is compared with are ASCII.
- GoStrings.ToUpper: it upper-cases ASCII letters only, not the full
  Unicode case mapping of `strings.ToUpper`. Card holder names in this
  system are Chinese or Latin.
- Byte lengths: Go's `len` counts bytes. The date padding test is written
  as "one rune below U+0080", which is the same condition. The full card
  number is sliced by rune rather than by byte; extraction only stores
  all-digit ASCII numbers, for which the two agree. A full card number
  shorter than four would make the Go slice panic, so the matcher requires
  it to be empty or at least four long.
- The email uid is a `nat`, not a 32-bit unsigned integer. Timestamps are
  unbounded integers, not 64-bit ones.
