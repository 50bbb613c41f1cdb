/** `matchBillToCard`: which saved card a fetched statement belongs to. Three
    tiers are tried in order, each only among the cards that are not
    deleted: the last four digits of a full card number in the statement
    (high confidence), the masked last four (medium, or ambiguous when
    several cards share them), and the normalised holder name (low, or
    ambiguous). */
module Matching {
  import opened BillText
  import opened CardSync
  import opened Extraction

  /** How a statement was matched; `Label` is the `matched_by` column value. */
  datatype Tier = FullCard | LastFour | Name {
    function Label(): string {
      match this
      case FullCard => "full_card"
      case LastFour => "last_four"
      case Name => "name"
    }
  }

  /** The `match_confidence` column value. */
  datatype Confidence = High | Medium | Low | Ambiguous {
    function Label(): string {
      match this
      case High => "high"
      case Medium => "medium"
      case Low => "low"
      case Ambiguous => "ambiguous"
    }
  }

  /** `matchResult`; `NotFound` is the result with `found == false`. */
  datatype MatchResult = Found(card: Card, matchedBy: Tier, confidence: Confidence) | NotFound

  /** What a tier compares a card with. */
  datatype Key = ByLastFour(digits: string) | ByName(holder: string)

  /** Whether a card answers to a key: a non-empty `last_four` equal to the
      digits, or a cardholder name equal to the holder name once both are
      normalised. */
  predicate Hit(c: Card, k: Key) {
    match k
    case ByLastFour(digits) => c.lastFour != "" && c.lastFour == digits
    case ByName(holder) => NormalizeChineseName(c.cardholderName) == NormalizeChineseName(holder)
  }

  /** A card a tier may pick: not deleted, and answering to the key. */
  predicate Eligible(c: Card, k: Key) {
    !c.isDeleted && Hit(c, k)
  }

  // ---------------------------------------------------------------------
  // Order-preserving filters
  // ---------------------------------------------------------------------

  /** The cards of a list that pass `f`, in list order. */
  function Filter(cards: seq<Card>, f: Card -> bool): seq<Card>
    decreases |cards|
  {
    if cards == [] then []
    else
      var last := cards[|cards| - 1];
      Filter(cards[..|cards| - 1], f) + (if f(last) then [last] else [])
  }

  /** Filtering distributes over concatenation. */
  lemma {:induction false} FilterAppend(xs: seq<Card>, ys: seq<Card>, f: Card -> bool)
    ensures Filter(xs + ys, f) == Filter(xs, f) + Filter(ys, f)
    decreases |ys|
  {
    if ys == [] {
      assert xs + ys == xs;
    } else {
      var init := ys[..|ys| - 1];
      assert (xs + ys)[..|xs + ys| - 1] == xs + init;
      assert (xs + ys)[|xs + ys| - 1] == ys[|ys| - 1];
      FilterAppend(xs, init, f);
    }
  }

  /** The filter keeps exactly the cards that pass. */
  lemma {:induction false} FilterMembers(cards: seq<Card>, f: Card -> bool)
    ensures forall c :: c in Filter(cards, f) <==> c in cards && f(c)
    decreases |cards|
  {
    if cards != [] {
      var init := cards[..|cards| - 1];
      FilterMembers(init, f);
      assert cards == init + [cards[|cards| - 1]];
    }
  }

  /** The first card kept is the passing card with the smallest index. */
  lemma {:induction false} FilterFirst(cards: seq<Card>, f: Card -> bool)
    requires Filter(cards, f) != []
    ensures exists i ::
      (0 <= i < |cards| && cards[i] == Filter(cards, f)[0] && f(cards[i]) &&
       forall j :: 0 <= j < i ==> !f(cards[j]))
    decreases |cards|
  {
    var init := cards[..|cards| - 1];
    assert forall i :: 0 <= i < |init| ==> init[i] == cards[i];
    if Filter(init, f) != [] {
      FilterFirst(init, f);
      var i :| 0 <= i < |init| && init[i] == Filter(init, f)[0] && f(init[i]) &&
        forall j :: 0 <= j < i ==> !f(init[j]);
      assert cards[i] == Filter(cards, f)[0];
    } else {
      FilterMembers(init, f);
      forall j | 0 <= j < |init| ensures !f(cards[j]) {
        assert init[j] in init;
      }
      assert Filter(cards, f)[0] == cards[|cards| - 1];
    }
  }

  /** Two different passing positions leave two or more cards kept. */
  lemma {:induction false} TwoPassingAreKept(cards: seq<Card>, f: Card -> bool, i: nat, j: nat)
    requires i < j < |cards| && f(cards[i]) && f(cards[j])
    ensures |Filter(cards, f)| >= 2
    decreases |cards|
  {
    var init := cards[..|cards| - 1];
    assert init[i] == cards[i];
    if j < |init| {
      assert init[j] == cards[j];
      TwoPassingAreKept(init, f, i, j);
    } else {
      FilterMembers(init, f);
      assert init[i] in init;
    }
  }

  /** Two or more cards kept come from two different passing positions. */
  lemma {:induction false} KeptTwoArePassing(cards: seq<Card>, f: Card -> bool)
    requires |Filter(cards, f)| >= 2
    ensures exists i, j :: 0 <= i < j < |cards| && f(cards[i]) && f(cards[j])
    decreases |cards|
  {
    var init := cards[..|cards| - 1];
    var last := |cards| - 1;
    if |Filter(init, f)| >= 2 {
      KeptTwoArePassing(init, f);
      var i, j :| 0 <= i < j < |init| && f(init[i]) && f(init[j]);
      assert init[i] == cards[i] && init[j] == cards[j];
    } else {
      assert f(cards[last]) && |Filter(init, f)| == 1;
      FilterMembers(init, f);
      var c0 := Filter(init, f)[0];
      assert c0 in Filter(init, f);
      var i :| 0 <= i < |init| && init[i] == c0;
      assert cards[i] == init[i];
    }
  }

  /** Two or more cards are kept exactly when two different positions pass. */
  lemma FilterTwo(cards: seq<Card>, f: Card -> bool)
    ensures |Filter(cards, f)| >= 2 <==>
      exists i, j :: 0 <= i < j < |cards| && f(cards[i]) && f(cards[j])
  {
    if exists i, j :: 0 <= i < j < |cards| && f(cards[i]) && f(cards[j]) {
      var i, j :| 0 <= i < j < |cards| && f(cards[i]) && f(cards[j]);
      TwoPassingAreKept(cards, f, i, j);
    }
    if |Filter(cards, f)| >= 2 {
      KeptTwoArePassing(cards, f);
    }
  }

  /** A passing card after a prefix with none is the first card kept. */
  lemma {:induction false} FirstFiltered(cards: seq<Card>, i: nat, f: Card -> bool)
    requires i < |cards| && Filter(cards[..i], f) == [] && f(cards[i])
    ensures Filter(cards, f) != [] && Filter(cards, f)[0] == cards[i]
    decreases |cards|
  {
    var init := cards[..|cards| - 1];
    if i == |init| {
      assert init == cards[..i];
    } else {
      assert init[..i] == cards[..i];
      assert init[i] == cards[i];
      FirstFiltered(init, i, f);
    }
  }

  /** A card that fails `f` leaves the filter unchanged wherever it sits. */
  lemma FilterSkips(xs: seq<Card>, d: Card, ys: seq<Card>, f: Card -> bool)
    requires !f(d)
    ensures Filter(xs + [d] + ys, f) == Filter(xs + ys, f)
  {
    assert Filter([d], f) == [] by {
      assert [d][..0] == [];
    }
    FilterAppend(xs + [d], ys, f);
    FilterAppend(xs, [d], f);
    FilterAppend(xs, ys, f);
  }

  /** Filtering by `g`, then by `f`, is filtering by both at once. */
  lemma {:induction false} FilterTwice(cards: seq<Card>, g: Card -> bool, f: Card -> bool, both: Card -> bool)
    requires forall c :: both(c) == (g(c) && f(c))
    ensures Filter(Filter(cards, g), f) == Filter(cards, both)
    decreases |cards|
  {
    if cards != [] {
      var init := cards[..|cards| - 1];
      var last := cards[|cards| - 1];
      FilterTwice(init, g, f, both);
      FilterAppend(Filter(init, g), if g(last) then [last] else [], f);
      assert Filter([last], f) == (if f(last) then [last] else []) by {
        assert [last][..0] == [];
      }
    }
  }

  // ---------------------------------------------------------------------
  // The specification
  // ---------------------------------------------------------------------

  function HitBy(k: Key): Card -> bool {
    (c: Card) => Hit(c, k)
  }

  function EligibleBy(k: Key): Card -> bool {
    (c: Card) => Eligible(c, k)
  }

  function IsActive(): Card -> bool {
    (c: Card) => !c.isDeleted
  }

  /** The eligible cards, in the order of the card list. */
  function Candidates(cards: seq<Card>, k: Key): seq<Card> {
    Filter(cards, EligibleBy(k))
  }

  /** The last four digits of a full card number. */
  function LastFourOf(fullCardNumber: string): string
    requires |fullCardNumber| >= 4
  {
    fullCardNumber[|fullCardNumber| - 4..]
  }

  /** The confidence of a match on an unambiguous key. */
  function Single(candidates: seq<Card>, unique: Confidence): Confidence {
    if |candidates| == 1 then unique else Ambiguous
  }

  /** The result the matcher owes: the first tier with an eligible card
      decides, and picks the first such card. A full-number match is of
      high confidence, a masked-number match medium or ambiguous, a name
      match low or ambiguous. */
  function Expected(b: Bill, cards: seq<Card>): (r: MatchResult)
    requires b.fullCardNumber == "" || |b.fullCardNumber| >= 4
    ensures r.Found? && r.matchedBy == FullCard ==> r.confidence == High
    ensures r.Found? && r.matchedBy == LastFour ==> r.confidence == Medium || r.confidence == Ambiguous
    ensures r.Found? && r.matchedBy == Name ==> r.confidence == Low || r.confidence == Ambiguous
  {
    var full := if b.fullCardNumber != "" then Candidates(cards, ByLastFour(LastFourOf(b.fullCardNumber))) else [];
    var masked := if b.lastFourFromMsg != "" then Candidates(cards, ByLastFour(b.lastFourFromMsg)) else [];
    var named := if b.holderName != "" then Candidates(cards, ByName(b.holderName)) else [];
    if full != [] then Found(full[0], FullCard, High)
    else if masked != [] then Found(masked[0], LastFour, Single(masked, Medium))
    else if named != [] then Found(named[0], Name, Single(named, Low))
    else NotFound
  }

  /** The candidates are exactly the active cards answering to the key;
      the first of them is the eligible card with the smallest index; there
      are two or more exactly when two different positions hold eligible
      cards. */
  lemma CandidatesSpec(cards: seq<Card>, k: Key)
    ensures forall c :: c in Candidates(cards, k) <==> c in cards && Eligible(c, k)
    ensures Candidates(cards, k) != [] ==>
      exists i ::
        (0 <= i < |cards| && cards[i] == Candidates(cards, k)[0] && Eligible(cards[i], k) &&
         forall j :: 0 <= j < i ==> !Eligible(cards[j], k))
    ensures |Candidates(cards, k)| >= 2 <==>
      exists i, j :: 0 <= i < j < |cards| && Eligible(cards[i], k) && Eligible(cards[j], k)
  {
    var f := EligibleBy(k);
    FilterMembers(cards, f);
    if Candidates(cards, k) != [] {
      FilterFirst(cards, f);
    }
    FilterTwo(cards, f);
  }

  /** A match names a card from the list that is not deleted. */
  lemma MatchIsActiveCard(b: Bill, cards: seq<Card>)
    requires b.fullCardNumber == "" || |b.fullCardNumber| >= 4
    ensures Expected(b, cards).Found? ==> Expected(b, cards).card in cards && !Expected(b, cards).card.isDeleted
  {
    if b.fullCardNumber != "" { CandidatesSpec(cards, ByLastFour(LastFourOf(b.fullCardNumber))); }
    CandidatesSpec(cards, ByLastFour(b.lastFourFromMsg));
    CandidatesSpec(cards, ByName(b.holderName));
  }

  /** A full card number whose last four belong to an active card always
      wins, with high confidence, over every masked-number or name match;
      the card picked is the first such card. */
  lemma FullCardWins(b: Bill, cards: seq<Card>, i: nat)
    requires |b.fullCardNumber| >= 4
    requires i < |cards| && Eligible(cards[i], ByLastFour(LastFourOf(b.fullCardNumber)))
    requires forall j :: 0 <= j < i ==> !Eligible(cards[j], ByLastFour(LastFourOf(b.fullCardNumber)))
    ensures Expected(b, cards) == Found(cards[i], FullCard, High)
  {
    var k := ByLastFour(LastFourOf(b.fullCardNumber));
    CandidatesSpec(cards, k);
    assert cards[i] in Candidates(cards, k);
    var i' :| 0 <= i' < |cards| && cards[i'] == Candidates(cards, k)[0] && Eligible(cards[i'], k) &&
      forall j :: 0 <= j < i' ==> !Eligible(cards[j], k);
    assert i' == i;
  }

  /** The masked last four decides only when the full number matched no
      active card; its confidence is medium for one candidate and ambiguous
      for two different positions that share the digits. */
  lemma LastFourTier(b: Bill, cards: seq<Card>)
    requires b.fullCardNumber == "" || |b.fullCardNumber| >= 4
    requires Expected(b, cards).Found? && Expected(b, cards).matchedBy == LastFour
    ensures b.fullCardNumber != "" ==>
      forall j :: 0 <= j < |cards| ==> !Eligible(cards[j], ByLastFour(LastFourOf(b.fullCardNumber)))
    ensures Eligible(Expected(b, cards).card, ByLastFour(b.lastFourFromMsg))
    ensures Expected(b, cards).confidence == Ambiguous <==>
      exists i, j :: 0 <= i < j < |cards| && Eligible(cards[i], ByLastFour(b.lastFourFromMsg)) && Eligible(cards[j], ByLastFour(b.lastFourFromMsg))
  {
    if b.fullCardNumber != "" {
      CandidatesSpec(cards, ByLastFour(LastFourOf(b.fullCardNumber)));
      forall j | 0 <= j < |cards| ensures !Eligible(cards[j], ByLastFour(LastFourOf(b.fullCardNumber))) {
        assert cards[j] in cards;
      }
    }
    CandidatesSpec(cards, ByLastFour(b.lastFourFromMsg));
  }

  /** The name decides only when neither number matched an active card;
      its confidence is low for one candidate and ambiguous otherwise. */
  lemma NameTier(b: Bill, cards: seq<Card>)
    requires b.fullCardNumber == "" || |b.fullCardNumber| >= 4
    requires Expected(b, cards).Found? && Expected(b, cards).matchedBy == Name
    ensures b.fullCardNumber != "" ==>
      forall j :: 0 <= j < |cards| ==> !Eligible(cards[j], ByLastFour(LastFourOf(b.fullCardNumber)))
    ensures b.lastFourFromMsg != "" ==>
      forall j :: 0 <= j < |cards| ==> !Eligible(cards[j], ByLastFour(b.lastFourFromMsg))
    ensures Eligible(Expected(b, cards).card, ByName(b.holderName))
    ensures Expected(b, cards).confidence == Ambiguous <==>
      exists i, j :: 0 <= i < j < |cards| && Eligible(cards[i], ByName(b.holderName)) && Eligible(cards[j], ByName(b.holderName))
  {
    if b.fullCardNumber != "" {
      CandidatesSpec(cards, ByLastFour(LastFourOf(b.fullCardNumber)));
      forall j | 0 <= j < |cards| ensures !Eligible(cards[j], ByLastFour(LastFourOf(b.fullCardNumber))) {
        assert cards[j] in cards;
      }
    }
    if b.lastFourFromMsg != "" {
      CandidatesSpec(cards, ByLastFour(b.lastFourFromMsg));
      forall j | 0 <= j < |cards| ensures !Eligible(cards[j], ByLastFour(b.lastFourFromMsg)) {
        assert cards[j] in cards;
      }
    }
    CandidatesSpec(cards, ByName(b.holderName));
  }

  /** No match exactly when no tier with a non-empty key has an active card
      answering to it. */
  lemma NotFoundWhenNoTierHits(b: Bill, cards: seq<Card>)
    requires b.fullCardNumber == "" || |b.fullCardNumber| >= 4
    ensures Expected(b, cards) == NotFound <==>
      && (b.fullCardNumber != "" ==> forall j :: 0 <= j < |cards| ==> !Eligible(cards[j], ByLastFour(LastFourOf(b.fullCardNumber))))
      && (b.lastFourFromMsg != "" ==> forall j :: 0 <= j < |cards| ==> !Eligible(cards[j], ByLastFour(b.lastFourFromMsg)))
      && (b.holderName != "" ==> forall j :: 0 <= j < |cards| ==> !Eligible(cards[j], ByName(b.holderName)))
  {
    if b.fullCardNumber != "" { CandidatesSpec(cards, ByLastFour(LastFourOf(b.fullCardNumber))); }
    CandidatesSpec(cards, ByLastFour(b.lastFourFromMsg));
    CandidatesSpec(cards, ByName(b.holderName));
    forall j | 0 <= j < |cards| ensures cards[j] in cards { }
  }

  /** A deleted card is never a candidate, wherever it sits. */
  lemma DeletedCardIsNoCandidate(cards: seq<Card>, at: nat, d: Card, k: Key)
    requires at <= |cards| && d.isDeleted
    ensures Candidates(cards[..at] + [d] + cards[at..], k) == Candidates(cards, k)
  {
    FilterSkips(cards[..at], d, cards[at..], EligibleBy(k));
    assert cards[..at] + cards[at..] == cards;
  }

  /** Adding a deleted card anywhere in the list changes no match. */
  lemma DeletedCardIsIgnored(b: Bill, cards: seq<Card>, at: nat, d: Card)
    requires b.fullCardNumber == "" || |b.fullCardNumber| >= 4
    requires at <= |cards| && d.isDeleted
    ensures Expected(b, cards[..at] + [d] + cards[at..]) == Expected(b, cards)
  {
    if b.fullCardNumber != "" {
      DeletedCardIsNoCandidate(cards, at, d, ByLastFour(LastFourOf(b.fullCardNumber)));
    }
    DeletedCardIsNoCandidate(cards, at, d, ByLastFour(b.lastFourFromMsg));
    DeletedCardIsNoCandidate(cards, at, d, ByName(b.holderName));
  }

  // ---------------------------------------------------------------------
  // The matcher
  // ---------------------------------------------------------------------

  /** Picking among the active cards the ones that answer to a key gives
      the candidates. */
  lemma ActiveThenHit(cards: seq<Card>, k: Key)
    ensures Filter(Filter(cards, IsActive()), HitBy(k)) == Candidates(cards, k)
  {
    FilterTwice(cards, IsActive(), HitBy(k), EligibleBy(k));
  }

  /** The scan of a tier that stops at the first card passing `f`. */
  method FirstHit(cards: seq<Card>, f: Card -> bool) returns (found: bool, c: Card)
    ensures found <==> Filter(cards, f) != []
    ensures found ==> c == Filter(cards, f)[0]
  {
    c := Card("", "", "", "", "", "", "", "", 0.0, 0, 0, "", "", "", "", false, 0, 0, "", "", "");
    for i := 0 to |cards|
      invariant Filter(cards[..i], f) == []
    {
      assert cards[..i + 1][..i] == cards[..i];
      if f(cards[i]) {
        FirstFiltered(cards, i, f);
        return true, cards[i];
      }
    }
    assert cards[..|cards|] == cards;
    return false, c;
  }

  /** The loop of a tier that collects every card passing `f`. */
  method AllHits(cards: seq<Card>, f: Card -> bool) returns (matched: seq<Card>)
    ensures matched == Filter(cards, f)
  {
    matched := [];
    for i := 0 to |cards|
      invariant matched == Filter(cards[..i], f)
    {
      assert cards[..i + 1][..i] == cards[..i];
      if f(cards[i]) {
        matched := matched + [cards[i]];
      }
    }
    assert cards[..|cards|] == cards;
  }

  /** The loop that drops deleted cards. */
  method ActiveCards(cards: seq<Card>) returns (active: seq<Card>)
    ensures active == Filter(cards, IsActive())
  {
    active := [];
    for i := 0 to |cards|
      invariant active == Filter(cards[..i], IsActive())
    {
      assert cards[..i + 1][..i] == cards[..i];
      if !cards[i].isDeleted {
        active := active + [cards[i]];
      }
    }
    assert cards[..|cards|] == cards;
  }

  /** `matchBillToCard`. A full card number shorter than four runes would
      make the Go slice panic; extraction only stores numbers of 15 digits
      or more. */
  method MatchBillToCard(b: Bill, cards: seq<Card>) returns (r: MatchResult)
    requires b.fullCardNumber == "" || |b.fullCardNumber| >= 4
    ensures r == Expected(b, cards)
  {
    var active := ActiveCards(cards);
    if b.fullCardNumber != "" {
      ActiveThenHit(cards, ByLastFour(LastFourOf(b.fullCardNumber)));
    }
    ActiveThenHit(cards, ByLastFour(b.lastFourFromMsg));
    ActiveThenHit(cards, ByName(b.holderName));

    if b.fullCardNumber != "" {
      var last4 := LastFourOf(b.fullCardNumber);
      var found, c := FirstHit(active, HitBy(ByLastFour(last4)));
      if found {
        return Found(c, FullCard, High);
      }
    }

    if b.lastFourFromMsg != "" {
      var matched := AllHits(active, HitBy(ByLastFour(b.lastFourFromMsg)));
      if |matched| == 1 {
        return Found(matched[0], LastFour, Medium);
      }
      if |matched| > 1 {
        return Found(matched[0], LastFour, Ambiguous);
      }
    }

    if b.holderName != "" {
      var matched := AllHits(active, HitBy(ByName(b.holderName)));
      if |matched| == 1 {
        return Found(matched[0], Name, Low);
      }
      if |matched| > 1 {
        return Found(matched[0], Name, Ambiguous);
      }
    }

    return NotFound;
  }
}
