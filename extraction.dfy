/** Turning one fetched mail message into a `parsedBill`: the MIME part
    fold of `parseIMAPMessage` and the post-processing of the pattern
    matches in `extractBillFields`. The regular expressions are parameters:
    each `FindStringSubmatch` becomes a function from the searched text to
    the optional first capture group, whose type records the shape the
    pattern guarantees. */
module Extraction {
  import opened GoStrings
  import opened BillText

  datatype Option<T> = None | Some(value: T)

  predicate IsDigit(c: char) {
    '0' <= c <= '9'
  }

  /** A capture of the full-card pattern: digits with optional `\s` or '-'
      separators between the groups. */
  type CardCapture = s: string | forall i :: 0 <= i < |s| ==> IsDigit(s[i]) || IsRe2Space(s[i]) || s[i] == '-'
    witness ""

  /** A capture of the masked last-four pattern: exactly four digits. */
  type FourDigits = s: string | |s| == 4 && forall i :: 0 <= i < 4 ==> IsDigit(s[i])
    witness "0000"

  /** A capture of the holder-name pattern: two to eight runes, none of them
      `\s`, '，', ',', '。' or '！'. */
  type NameCapture = s: string | 2 <= |s| <= 8 && forall i :: 0 <= i < |s| ==> !IsRe2Space(s[i]) && s[i] !in "，,。！"
    witness "AB"

  /** The length of the month in a date capture: two digits when the rune
      after the first month digit is a digit too. */
  function MonthLength(s: string): nat
    requires |s| > 6
  {
    if IsDigit(s[6]) then 2 else 1
  }

  /** The date patterns' capture `\d{4}[-/年]\d{1,2}[-/月]\d{1,2}`: four
      digits, a separator, one or two month digits, a separator, one or two
      day digits. */
  predicate DateShape(s: string) {
    && 8 <= |s|
    && (forall i :: 0 <= i < 4 ==> IsDigit(s[i]))
    && s[4] in "-/年" && IsDigit(s[5])
    && var m := MonthLength(s);
      && s[5 + m] in "-/月"
      && 7 + m <= |s| <= 8 + m
      && forall i :: 6 + m <= i < |s| ==> IsDigit(s[i])
  }

  type DateCapture = s: string | DateShape(s)
    witness "2024-1-1"

  function Month(s: DateCapture): string {
    s[5..5 + MonthLength(s)]
  }

  function Day(s: DateCapture): string {
    s[6 + MonthLength(s)..]
  }

  /** The amount patterns' capture `[0-9,]+\.?\d{0,2}`: digits and commas,
      at least one, then at most a '.' and two digits. */
  predicate AmountShape(s: string) {
    var k := IndexOf(s, '.');
    && 1 <= k
    && (forall i :: 0 <= i < k ==> IsDigit(s[i]) || s[i] == ',')
    && (k < |s| ==> |s| <= k + 3 && forall i :: k < i < |s| ==> IsDigit(s[i]))
  }

  type AmountCapture = s: string | AmountShape(s)
    witness "0"

  /** The extraction patterns, as the captures they yield on a given text,
      and `parseAmount` (a float parse), which the model does not look into. */
  datatype Patterns = Patterns(
    fullCard: string -> Option<CardCapture>,
    lastFour: string -> Option<FourDigits>,
    amount: string -> Option<AmountCapture>,
    minPayment: string -> Option<AmountCapture>,
    billDate: string -> Option<DateCapture>,
    dueDate: string -> Option<DateCapture>,
    holderName: string -> Option<NameCapture>,
    parseAmount: AmountCapture -> real)

  /** A `parsedBill` value, as `fetchEmailsFromIMAP` collects them. */
  datatype Bill = Bill(
    uid: nat,
    from: string,
    subject: string,
    body: string,
    statementType: string,
    fullCardNumber: string,
    lastFourFromMsg: string,
    holderName: string,
    amount: real,
    currency: string,
    minPayment: real,
    billDate: string,
    dueDate: string,
    bank: string)

  // ---------------------------------------------------------------------
  // The field rules of extractBillFields
  // ---------------------------------------------------------------------

  /** Removes the `[\s\-]` separators of a card capture. */
  function StripSeparators(s: string): (r: string)
    ensures forall i :: 0 <= i < |r| ==> r[i] in s && !IsRe2Space(r[i]) && r[i] != '-'
    ensures |r| <= |s|
    ensures (forall i :: 0 <= i < |s| ==> !IsRe2Space(s[i]) && s[i] != '-') ==> r == s
  {
    if s == [] then []
    else if IsRe2Space(s[0]) || s[0] == '-' then StripSeparators(s[1..])
    else [s[0]] + StripSeparators(s[1..])
  }

  /** The separators are removed piece by piece: the result on a
      concatenation is the concatenation of the results. */
  lemma {:induction false} StripSeparatorsAppend(a: string, b: string)
    ensures StripSeparators(a + b) == StripSeparators(a) + StripSeparators(b)
    decreases |a|
  {
    if a == [] {
      assert a + b == b;
    } else {
      StripSeparatorsAppend(a[1..], b);
      assert (a + b)[1..] == a[1..] + b;
    }
  }

  /** The full card number the text yields: the separator-free capture, kept
      only when it has at least 15 digits. */
  function FullCardOf(p: Patterns, text: string): Option<string> {
    match p.fullCard(text)
    case None => None
    case Some(m) =>
      var raw := StripSeparators(m);
      if |raw| >= 15 then Some(raw) else None
  }

  /** The masked last four, tried only when none was found yet: in the text
      first, then in the subject. */
  function MaskedLastFour(p: Patterns, text: string, subject: string, found: string): string {
    if found != "" then found
    else match p.lastFour(text)
      case Some(m) => m
      case None =>
        match p.lastFour(subject)
        case Some(m) => m
        case None => ""
  }

  /** The greeting fragments that show a capture is not a name. */
  const NameBlocklist: seq<string> := ["您", "您已", "请", "温馨"]

  predicate Blocked(name: string) {
    exists e :: e in NameBlocklist && Contains(name, e)
  }

  /** The holder name the text yields: the trimmed capture, unless it holds
      a blocked fragment. */
  function HolderNameOf(p: Patterns, text: string): Option<string> {
    match p.holderName(text)
    case None => None
    case Some(m) =>
      var name := TrimSpace(m);
      if Blocked(name) then None else Some(name)
  }

  /** `x` when the rule matched, else the field's current value. */
  function OrKeep<T>(found: Option<T>, current: T): T {
    match found
    case Some(x) => x
    case None => current
  }

  function AmountOf(p: Patterns, capture: Option<AmountCapture>): Option<real> {
    match capture
    case Some(m) => Some(p.parseAmount(m))
    case None => None
  }

  /** YYYY-MM-DD. */
  predicate IsoDate(d: string) {
    && |d| == 10 && d[4] == '-' && d[7] == '-'
    && forall i :: 0 <= i < 10 && i != 4 && i != 7 ==> IsDigit(d[i])
  }

  /** The normalized date of a capture, which is always YYYY-MM-DD. */
  function DateOf(capture: Option<DateCapture>): (r: Option<string>)
    ensures r.Some? <==> capture.Some?
    ensures r.Some? ==> IsoDate(r.value)
  {
    match capture
    case Some(m) =>
      NormalizeCapturedDate(m);
      Some(NormalizeDate(m))
    case None => None
  }

  /** `normalizeDate` on a captured date gives YYYY-MM-DD: the year as
      captured, the month and the day zero-padded to two digits. */
  lemma NormalizeCapturedDate(s: DateCapture)
    ensures var r := NormalizeDate(s);
      && IsoDate(r)
      && r[..4] == s[..4]
      && r[5..7] == (if |Month(s)| == 1 then "0" + Month(s) else Month(s))
      && r[8..] == (if |Day(s)| == 1 then "0" + Day(s) else Day(s))
  {
    var y, mo, d := s[..4], Month(s), Day(s);
    DashedDate(s);
    NormalizeDigitParts(s, y, mo, d);
  }

  /** `normalizeDate` on a text whose rewrite is three digit parts of four,
      one or two, and one or two runes. */
  lemma NormalizeDigitParts(s: string, y: string, mo: string, d: string)
    requires Dashed(s) == y + "-" + (mo + "-" + d)
    requires |y| == 4 && 1 <= |mo| <= 2 && 1 <= |d| <= 2
    requires forall x :: x in y || x in mo || x in d ==> IsDigit(x)
    ensures var r := NormalizeDate(s);
      && IsoDate(r)
      && r[..4] == y
      && r[5..7] == (if |mo| == 1 then "0" + mo else mo)
      && r[8..] == (if |d| == 1 then "0" + d else d)
  {
    var r := NormalizeDate(s);
    SplitDigitParts(y, mo, d);
    NormalizeDateShape(s);
    JoinSplit(r, '-');
    assert mo[0] in mo && d[0] in d;
    var pm, pd := Pad(mo), Pad(d);
    assert pm == (if |mo| == 1 then "0" + mo else mo);
    assert pd == (if |d| == 1 then "0" + d else d);
    assert Split(r, '-') == [y, pm, pd];
    Join3(y, pm, pd, "-");
    IsoDateOfParts(y, pm, pd);
  }

  /** Four, two and two digits joined by '-' are YYYY-MM-DD. */
  lemma IsoDateOfParts(y: string, m: string, d: string)
    requires |y| == 4 && |m| == 2 && |d| == 2
    requires forall x :: x in y || x in m || x in d ==> IsDigit(x)
    ensures var r := y + "-" + (m + "-" + d);
      IsoDate(r) && r[..4] == y && r[5..7] == m && r[8..] == d
  {
    var r := y + "-" + (m + "-" + d);
    forall i | 0 <= i < 10 && i != 4 && i != 7 ensures IsDigit(r[i]) {
      if i < 4 {
        assert r[i] == y[i] && y[i] in y;
      } else if i < 7 {
        assert r[i] == m[i - 5] && m[i - 5] in m;
      } else {
        assert r[i] == d[i - 8] && d[i - 8] in d;
      }
    }
  }

  /** The separator rewrite turns a captured date into year, month and day
      joined by '-'. */
  lemma DashedDate(s: DateCapture)
    ensures Dashed(s) == s[..4] + "-" + (Month(s) + "-" + Day(s))
  {
    var m := MonthLength(s);
    var y, mo, d := s[..4], Month(s), Day(s);
    var t := Dashed(s);
    DashedPointwise(s);
    var joined := y + "-" + (mo + "-" + d);
    forall i | 0 <= i < |s| ensures t[i] == joined[i] {
      if i < 4 {
        assert joined[i] == y[i];
      } else if i == 4 {
      } else if i < 5 + m {
        assert joined[i] == mo[i - 5];
      } else if i == 5 + m {
      } else {
        assert joined[i] == d[i - 6 - m];
      }
    }
  }

  /** Three all-digit parts joined by '-' split back into themselves. */
  lemma SplitDigitParts(y: string, mo: string, d: string)
    requires forall x :: x in y || x in mo || x in d ==> IsDigit(x)
    ensures Split(y + "-" + (mo + "-" + d), '-') == [y, mo, d]
  {
    var parts := [y, mo, d];
    assert forall i :: 0 <= i < 3 ==> '-' !in parts[i];
    Join3(y, mo, d, "-");
    SplitJoin(parts, '-');
  }

  /** A new record: uid, first sender address and subject, every other
      field at Go's zero value. */
  function Blank(uid: nat, from: string, subject: string): Bill {
    Bill(uid, from, subject, "", "", "", "", "", 0.0, "", 0.0, "", "", "")
  }

  /** The envelope fields read into a new record. */
  function Header(uid: nat, env: Envelope): Bill {
    Blank(uid, if |env.from| > 0 then env.from[0] else "", env.subject)
  }

  /** The last four once the full-card rule has run. */
  function LastFourAfterFull(p: Patterns, text: string, current: string): string {
    match FullCardOf(p, text)
    case Some(raw) => raw[|raw| - 4..]
    case None => current
  }

  /** What `extractBillFields` makes of a record, bank aside (the bank is
      chosen by `DetectBank`, whose choice is not a function of its input).
      The envelope, body and type are left alone, the currency becomes
      "CNY", and each other field either keeps its value or is set to a
      value of the shape its rule guarantees. */
  function Extracted(p: Patterns, b: Bill): (r: Bill)
    ensures r.uid == b.uid && r.from == b.from && r.subject == b.subject && r.body == b.body
    ensures r.statementType == b.statementType && r.bank == b.bank
    ensures r.currency == "CNY"
    ensures r.fullCardNumber == b.fullCardNumber
      || (|r.fullCardNumber| >= 15 && forall i :: 0 <= i < |r.fullCardNumber| ==> IsDigit(r.fullCardNumber[i]))
    ensures r.lastFourFromMsg == b.lastFourFromMsg || IsLastFour(r.lastFourFromMsg)
    ensures FullCardOf(p, b.body).Some? ==>
      r.fullCardNumber == FullCardOf(p, b.body).value && |r.fullCardNumber| >= 15
      && r.lastFourFromMsg == r.fullCardNumber[|r.fullCardNumber| - 4..]
    ensures r.billDate == b.billDate || IsoDate(r.billDate)
    ensures r.dueDate == b.dueDate || IsoDate(r.dueDate)
    ensures r.holderName == b.holderName || (Trimmed(r.holderName) && !Blocked(r.holderName))
  {
    HolderNameRule(p, b.body);
    assert FullCardOf(p, b.body).Some? ==> IsLastFour(LastFourAfterFull(p, b.body, b.lastFourFromMsg)) by {
      if FullCardOf(p, b.body).Some? {
        FullCardRule(p, b.body);
      }
    }
    b.(fullCardNumber := OrKeep(FullCardOf(p, b.body), b.fullCardNumber),
       lastFourFromMsg := MaskedLastFour(p, b.body, b.subject, LastFourAfterFull(p, b.body, b.lastFourFromMsg)),
       currency := "CNY",
       amount := OrKeep(AmountOf(p, p.amount(b.body)), b.amount),
       minPayment := OrKeep(AmountOf(p, p.minPayment(b.body)), b.minPayment),
       billDate := OrKeep(DateOf(p.billDate(b.body)), b.billDate),
       dueDate := OrKeep(DateOf(p.dueDate(b.body)), b.dueDate),
       holderName := OrKeep(HolderNameOf(p, b.body), b.holderName))
  }

  /** Running the extraction twice on the same record changes nothing the
      first run did not: every rule reads only the body and the subject,
      and the second run finds the fields it would set already set. */
  lemma ExtractedIdempotent(p: Patterns, b: Bill)
    ensures Extracted(p, Extracted(p, b)) == Extracted(p, b)
  {
  }

  /** A full card number is only ever taken with 15 or more digits, so its
      final four runes are four digits (`Extracted` stores them as the
      message's last four). */
  lemma FullCardRule(p: Patterns, text: string)
    requires FullCardOf(p, text).Some?
    ensures var raw := FullCardOf(p, text).value;
      && |raw| >= 15
      && (forall i :: 0 <= i < |raw| ==> IsDigit(raw[i]))
      && IsLastFour(raw[|raw| - 4..])
  {
    var m := p.fullCard(text).value;
    var raw := StripSeparators(m);
    forall i | 0 <= i < |raw| ensures IsDigit(raw[i]) {
      assert raw[i] in m;
    }
  }

  /** Four ASCII digits. */
  predicate IsLastFour(s: string) {
    |s| == 4 && forall i :: 0 <= i < 4 ==> IsDigit(s[i])
  }

  /** The masked pattern is consulted only when no last four is known, the
      text before the subject; the result is then empty only when neither
      matches, and four digits otherwise. */
  lemma MaskedLastFourRule(p: Patterns, text: string, subject: string, found: string)
    ensures found != "" ==> MaskedLastFour(p, text, subject, found) == found
    ensures found == "" && p.lastFour(text).Some? ==> MaskedLastFour(p, text, subject, found) == p.lastFour(text).value
    ensures found == "" && p.lastFour(text).None? && p.lastFour(subject).Some? ==>
      MaskedLastFour(p, text, subject, found) == p.lastFour(subject).value
    ensures found == "" && p.lastFour(text).None? && p.lastFour(subject).None? ==>
      MaskedLastFour(p, text, subject, found) == ""
    ensures found == "" ==> MaskedLastFour(p, text, subject, found) == "" || IsLastFour(MaskedLastFour(p, text, subject, found))
  {
  }

  /** A holder name is never taken when it contains a blocked fragment, and
      is taken trimmed otherwise. */
  lemma HolderNameRule(p: Patterns, text: string)
    ensures HolderNameOf(p, text).Some? ==> !Blocked(HolderNameOf(p, text).value) && Trimmed(HolderNameOf(p, text).value)
    ensures p.holderName(text).Some? && !Blocked(TrimSpace(p.holderName(text).value)) ==> HolderNameOf(p, text).Some?
  {
    match p.holderName(text)
    case None =>
    case Some(m) =>
      var name := TrimSpace(m);
      assert Trimmed(name);
      assert HolderNameOf(p, text) == if Blocked(name) then None else Some(name);
  }

  // ---------------------------------------------------------------------
  // The part fold of parseIMAPMessage
  // ---------------------------------------------------------------------

  /** One MIME part: its content type and its text after `decodeBody`. */
  datatype Part = Part(contentType: string, text: string)

  /** The body section of a fetched message. */
  datatype Body =
    | NoBody               // GetBody returned nil
    | Unreadable           // mail.CreateReader failed
    | Parts(parts: seq<Part>)  // the parts NextPart yields before EOF or an error

  /** The envelope fields the parser reads. */
  datatype Envelope = Envelope(subject: string, from: seq<string>)

  /** How one part moves `statementType`: plain text and PDF overwrite it,
      HTML sets it only while it is empty, anything else leaves it. */
  function NextType(current: string, contentType: string): string {
    if contentType == "text/plain" then "text"
    else if contentType == "text/html" then (if current == "" then "html" else current)
    else if contentType == "application/pdf" then "pdf"
    else current
  }

  /** `statementType` after the given parts. */
  function TypeAfter(parts: seq<Part>): string
    decreases |parts|
  {
    if parts == [] then "" else NextType(TypeAfter(parts[..|parts| - 1]), parts[|parts| - 1].contentType)
  }

  /** The text a part contributes, if any. */
  function PartText(part: Part): Option<string> {
    if part.contentType == "text/plain" then Some(part.text)
    else if part.contentType == "text/html" then Some(StripHTML(part.text))
    else None
  }

  /** `textParts` after the given parts. */
  function TextsAfter(parts: seq<Part>): seq<string>
    decreases |parts|
  {
    if parts == [] then []
    else
      var before := TextsAfter(parts[..|parts| - 1]);
      match PartText(parts[|parts| - 1])
      case Some(t) => before + [t]
      case None => before
  }

  /** A plain-text or PDF part: one that sets `statementType` outright. */
  predicate Decisive(part: Part) {
    part.contentType == "text/plain" || part.contentType == "application/pdf"
  }

  /** Some part is HTML. */
  predicate HasHtml(parts: seq<Part>) {
    exists i :: 0 <= i < |parts| && parts[i].contentType == "text/html"
  }

  /** The statement type is decided by the last plain-text or PDF part,
      whatever HTML parts come after it. */
  lemma {:induction false} TypeAfterLastDecisive(parts: seq<Part>, i: nat)
    requires i < |parts| && Decisive(parts[i])
    requires forall j :: i < j < |parts| ==> !Decisive(parts[j])
    ensures TypeAfter(parts) == (if parts[i].contentType == "text/plain" then "text" else "pdf")
    decreases |parts|
  {
    var init := parts[..|parts| - 1];
    if i < |parts| - 1 {
      assert init[i] == parts[i];
      assert forall j :: i < j < |init| ==> init[j] == parts[j];
      TypeAfterLastDecisive(init, i);
    }
  }

  /** Without plain-text or PDF parts, the type is "html" when some part is
      HTML and stays "" otherwise. */
  lemma {:induction false} TypeAfterWithoutDecisive(parts: seq<Part>)
    requires forall i :: 0 <= i < |parts| ==> !Decisive(parts[i])
    ensures TypeAfter(parts) == (if HasHtml(parts) then "html" else "")
    decreases |parts|
  {
    if parts != [] {
      var init := parts[..|parts| - 1];
      assert forall i :: 0 <= i < |init| ==> init[i] == parts[i];
      TypeAfterWithoutDecisive(init);
      if parts[|parts| - 1].contentType == "text/html" {
        assert HasHtml(parts);
      } else if HasHtml(parts) {
        var i :| 0 <= i < |parts| && parts[i].contentType == "text/html";
        assert init[i].contentType == "text/html";
      }
    }
  }

  /** A message whose parts are PDFs and images ends up typed "pdf" with no
      text at all. */
  lemma {:induction false} PdfOnlyMessage(parts: seq<Part>)
    requires exists i :: 0 <= i < |parts| && parts[i].contentType == "application/pdf"
    requires forall i :: 0 <= i < |parts| ==> parts[i].contentType !in {"text/plain", "text/html"}
    ensures TypeAfter(parts) == "pdf"
    ensures TextsAfter(parts) == []
    decreases |parts|
  {
    var init := parts[..|parts| - 1];
    assert forall i :: 0 <= i < |init| ==> init[i] == parts[i];
    if parts[|parts| - 1].contentType != "application/pdf" {
      var i :| 0 <= i < |parts| && parts[i].contentType == "application/pdf";
      assert init[i].contentType == "application/pdf";
      PdfOnlyMessage(init);
    } else if exists i :: 0 <= i < |init| && init[i].contentType == "application/pdf" {
      PdfOnlyMessage(init);
    } else {
      NoTextParts(init);
    }
  }

  /** Parts that are neither plain text nor HTML contribute no text. */
  lemma {:induction false} NoTextParts(parts: seq<Part>)
    requires forall i :: 0 <= i < |parts| ==> parts[i].contentType !in {"text/plain", "text/html"}
    ensures TextsAfter(parts) == []
    decreases |parts|
  {
    if parts != [] {
      var init := parts[..|parts| - 1];
      assert forall i :: 0 <= i < |init| ==> init[i] == parts[i];
      NoTextParts(init);
    }
  }

  /** The blocklist scan of `extractBillFields`: whether the name contains
      any of the blocked fragments. */
  method ScreenName(name: string) returns (excluded: bool)
    ensures excluded == Blocked(name)
  {
    excluded := false;
    for k := 0 to |NameBlocklist|
      invariant excluded == exists e :: e in NameBlocklist[..k] && Contains(name, e)
    {
      if Contains(name, NameBlocklist[k]) {
        excluded := true;
      }
    }
    assert NameBlocklist[..|NameBlocklist|] == NameBlocklist;
  }

  // ---------------------------------------------------------------------
  // parsedBill
  // ---------------------------------------------------------------------

  class ParsedBill {
    var uid: nat
    var from: string
    var subject: string
    var body: string
    var statementType: string
    var fullCardNumber: string
    var lastFourFromMsg: string
    var holderName: string
    var amount: real
    var currency: string
    var minPayment: real
    var billDate: string
    var dueDate: string
    var bank: string

    /** The record's current value. */
    function Value(): Bill
      reads this
    {
      Bill(uid, from, subject, body, statementType, fullCardNumber, lastFourFromMsg, holderName,
           amount, currency, minPayment, billDate, dueDate, bank)
    }

    /** The part loop of `parseIMAPMessage`: plain text is kept as is and
        marks the record "text", HTML is kept stripped and marks it "html"
        unless a type is already set, a PDF marks it "pdf"; nothing else
        changes. */
    method ReadParts(parts: seq<Part>) returns (textParts: seq<string>)
      requires statementType == ""
      modifies this
      ensures textParts == TextsAfter(parts)
      ensures Value() == old(Value()).(statementType := TypeAfter(parts))
    {
      textParts := [];
      for i := 0 to |parts|
        invariant textParts == TextsAfter(parts[..i])
        invariant Value() == old(Value()).(statementType := TypeAfter(parts[..i]))
      {
        var part := parts[i];
        assert parts[..i + 1][..i] == parts[..i];
        if part.contentType == "text/plain" {
          textParts := textParts + [part.text];
          statementType := "text";
        } else if part.contentType == "text/html" {
          textParts := textParts + [StripHTML(part.text)];
          if statementType == "" {
            statementType := "html";
          }
        } else if part.contentType == "application/pdf" {
          statementType := "pdf";
        }
      }
      assert parts[..|parts|] == parts;
    }

    /** `&parsedBill{uid, subject}` plus the first sender address; every
        other field holds Go's zero value. */
    constructor (uid: nat, from: string, subject: string)
      ensures Value() == Blank(uid, from, subject)
    {
      this.uid := uid;
      this.from := from;
      this.subject := subject;
      body, statementType := "", "";
      fullCardNumber, lastFourFromMsg, holderName := "", "", "";
      amount, currency, minPayment := 0.0, "", 0.0;
      billDate, dueDate, bank := "", "", "";
    }

    /** `extractBillFields`: bank from sender then subject, full card number,
        masked last four, currency, amounts, dates and holder name, each
        field set only when its rule matches. */
    method ExtractBillFields(p: Patterns)
      modifies this
      ensures BankChoice(from, subject, bank)
      ensures Value() == Extracted(p, old(Value())).(bank := bank)
    {
      var text := body;
      bank := DetectBank(from, subject);
      TakeCardNumber(p, text);
      TakeAmounts(p, text);
      TakeDates(p, text);
      TakeHolderName(p, text);
    }

    /** The full-card and masked last-four steps of `extractBillFields`. */
    method TakeCardNumber(p: Patterns, text: string)
      modifies this
      ensures Value() == old(Value()).(fullCardNumber := fullCardNumber, lastFourFromMsg := lastFourFromMsg)
      ensures fullCardNumber == OrKeep(FullCardOf(p, text), old(fullCardNumber))
      ensures lastFourFromMsg == MaskedLastFour(p, text, subject, LastFourAfterFull(p, text, old(lastFourFromMsg)))
    {
      var m := p.fullCard(text);
      if m.Some? {
        var raw := StripSeparators(m.value);
        if |raw| >= 15 {
          fullCardNumber := raw;
          lastFourFromMsg := raw[|raw| - 4..];
        }
      }

      if lastFourFromMsg == "" {
        var t := p.lastFour(text);
        if t.Some? {
          lastFourFromMsg := t.value;
        }
        if lastFourFromMsg == "" {
          var s := p.lastFour(subject);
          if s.Some? {
            lastFourFromMsg := s.value;
          }
        }
      }
    }

    /** The currency, amount and minimum-payment steps. */
    method TakeAmounts(p: Patterns, text: string)
      modifies this
      ensures Value() == old(Value()).(currency := "CNY", amount := amount, minPayment := minPayment)
      ensures amount == OrKeep(AmountOf(p, p.amount(text)), old(amount))
      ensures minPayment == OrKeep(AmountOf(p, p.minPayment(text)), old(minPayment))
    {
      currency := "CNY";
      var a := p.amount(text);
      if a.Some? {
        amount := p.parseAmount(a.value);
      }
      var mp := p.minPayment(text);
      if mp.Some? {
        minPayment := p.parseAmount(mp.value);
      }
    }

    /** The statement-date and due-date steps. */
    method TakeDates(p: Patterns, text: string)
      modifies this
      ensures Value() == old(Value()).(billDate := billDate, dueDate := dueDate)
      ensures billDate == OrKeep(DateOf(p.billDate(text)), old(billDate))
      ensures dueDate == OrKeep(DateOf(p.dueDate(text)), old(dueDate))
    {
      var bd := p.billDate(text);
      if bd.Some? {
        billDate := NormalizeDate(bd.value);
      }
      var dd := p.dueDate(text);
      if dd.Some? {
        dueDate := NormalizeDate(dd.value);
      }
    }

    /** The holder-name step. */
    method TakeHolderName(p: Patterns, text: string)
      modifies this
      ensures Value() == old(Value()).(holderName := OrKeep(HolderNameOf(p, text), old(holderName)))
    {
      var n := p.holderName(text);
      if n.Some? {
        var name := TrimSpace(n.value);
        var excluded := ScreenName(name);
        if !excluded {
          holderName := name;
        }
      }
    }
  }

  /** `parseIMAPMessage`: no envelope gives no record; otherwise the record
      carries uid, first sender and subject, and, when the body can be read
      as MIME, the text parts joined by newlines, the statement type, and
      the extracted fields. */
  method ParseIMAPMessage(uid: nat, envelope: Option<Envelope>, mime: Body, p: Patterns)
    returns (bill: Option<Bill>)
    ensures envelope.None? ==> bill.None?
    ensures bill.Some? ==> bill.value.fullCardNumber == "" || |bill.value.fullCardNumber| >= 15
    ensures envelope.Some? && !mime.Parts? ==> bill == Some(Header(uid, envelope.value))
    ensures envelope.Some? && mime.Parts? ==>
      var read := Header(uid, envelope.value).(body := Join(TextsAfter(mime.parts), "\n"),
                                               statementType := TypeAfter(mime.parts));
      && bill.Some?
      && BankChoice(read.from, read.subject, bill.value.bank)
      && bill.value == Extracted(p, read).(bank := bill.value.bank)
  {
    if envelope.None? {
      return None;
    }
    var env := envelope.value;
    var pb := new ParsedBill(uid, if |env.from| > 0 then env.from[0] else "", env.subject);
    if !mime.Parts? {
      return Some(pb.Value());
    }
    ghost var header := pb.Value();
    assert header == Header(uid, env);
    var textParts := pb.ReadParts(mime.parts);
    pb.body := Join(textParts, "\n");
    assert pb.Value() == header.(body := Join(TextsAfter(mime.parts), "\n"), statementType := TypeAfter(mime.parts));
    pb.ExtractBillFields(p);
    bill := Some(pb.Value());
  }

  /** The sequence-number window of `fetchEmailsFromIMAP`: the last
      min(messages, 100) messages, or nothing for an empty mailbox. */
  function FetchWindow(messages: nat): (w: Option<(nat, nat)>)
    ensures messages == 0 <==> w.None?
    ensures w.Some? ==> 1 <= w.value.0 <= w.value.1 == messages
    ensures w.Some? ==> w.value.1 - w.value.0 + 1 == if messages > 100 then 100 else messages
  {
    if messages == 0 then None
    else Some((if messages > 100 then messages - 99 else 1, messages))
  }
}
