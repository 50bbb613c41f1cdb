/** The text helpers of statement ingestion: HTML stripping, date
    normalisation, excerpt truncation, holder-name normalisation and bank
    detection from the sender and the subject. */
module BillText {
  import opened GoStrings

  // ---------------------------------------------------------------------
  // stripHTML
  // ---------------------------------------------------------------------

  /** Index of the first `c` in `s`, or `|s|` when there is none. */
  function IndexOf(s: string, c: char): (i: nat)
    ensures i <= |s|
    ensures i < |s| ==> s[i] == c
    ensures forall k :: 0 <= k < i ==> s[k] != c
  {
    if s == [] || s[0] == c then 0 else 1 + IndexOf(s[1..], c)
  }

  /** `s` starts with a match of `<[^>]+>`: a '<', at least one rune that is
      not '>', then the first '>'. */
  predicate OpensTag(s: string) {
    s != [] && s[0] == '<' && 2 <= IndexOf(s, '>') < |s|
  }

  /** The `<[^>]+>` to " " pass, scanning left to right as RE2 does. It
      adds no rune but spaces, and is no longer than its input. */
  function StripTags(s: string): (r: string)
    ensures forall x :: x in r ==> x in s || x == ' '
    ensures |r| <= |s|
    decreases |s|
  {
    if s == [] then []
    else if OpensTag(s) then
      var rest := s[IndexOf(s, '>') + 1..];
      assert forall x :: x in rest ==> x in s;
      " " + StripTags(rest)
    else
      assert forall x :: x in s[1..] ==> x in s;
      [s[0]] + StripTags(s[1..])
  }

  /** No tag survives the pass: no position of the result opens one. */
  lemma {:induction false} StripTagsLeavesNoTag(s: string)
    ensures forall i :: 0 <= i < |StripTags(s)| ==> !OpensTag(StripTags(s)[i..])
    decreases |s|
  {
    if s != [] {
      var r := StripTags(s);
      if OpensTag(s) {
        var rest := s[IndexOf(s, '>') + 1..];
        StripTagsLeavesNoTag(rest);
        forall i | 1 <= i < |r| ensures r[i..] == StripTags(rest)[i - 1..] {
          assert r == " " + StripTags(rest);
        }
      } else {
        var rest := s[1..];
        StripTagsLeavesNoTag(rest);
        var tail := StripTags(rest);
        assert r == [s[0]] + tail;
        forall i | 1 <= i < |r| ensures r[i..] == tail[i - 1..] {
        }
        if s[0] == '<' {
          if IndexOf(s, '>') < |s| {
            assert s[1] == '>';
            assert rest[0] == '>' && !OpensTag(rest);
            assert tail == [rest[0]] + StripTags(rest[1..]);
            assert IndexOf(r, '>') == 1;
          } else {
            assert IndexOf(s, '>') == |s|;
            assert '>' !in rest;
            assert '>' !in tail;
            assert IndexOf(r, '>') == |r|;
          }
        }
      }
    }
  }

  /** Drops a leading run of RE2 `\s` runes. */
  function DropRe2Spaces(s: string): (r: string)
    ensures |r| <= |s| && r == s[|s| - |r|..]
    ensures r == [] || !IsRe2Space(r[0])
    ensures s != [] && IsRe2Space(s[0]) ==> |r| < |s|
    ensures forall i :: 0 <= i < |s| - |r| ==> IsRe2Space(s[i])
  {
    if s != [] && IsRe2Space(s[0]) then DropRe2Spaces(s[1..]) else s
  }

  /** Every RE2 `\s` rune is a plain space and none is followed by another. */
  predicate SingleSpaced(s: string) {
    forall i :: 0 <= i < |s| && IsRe2Space(s[i]) ==> s[i] == ' ' && (i + 1 < |s| ==> !IsRe2Space(s[i + 1]))
  }

  /** A rune put in front of a single-spaced string keeps it single-spaced
      when it is no space, or a plain space before a non-space. */
  lemma SingleSpacedCons(c: char, rest: string)
    requires SingleSpaced(rest)
    requires IsRe2Space(c) ==> c == ' ' && (rest == [] || !IsRe2Space(rest[0]))
    ensures SingleSpaced([c] + rest)
  {
    var t := [c] + rest;
    forall i | 0 <= i < |t| && IsRe2Space(t[i]) ensures t[i] == ' ' && (i + 1 < |t| ==> !IsRe2Space(t[i + 1])) {
      if i > 0 {
        assert t[i] == rest[i - 1];
        if i + 1 < |t| { assert t[i + 1] == rest[i]; }
      }
    }
  }

  /** The `\s+` to " " pass: each maximal run of RE2 `\s` becomes one space. */
  function CollapseSpaces(s: string): (r: string)
    ensures SingleSpaced(r)
    ensures r != [] && IsRe2Space(r[0]) ==> s != [] && IsRe2Space(s[0])
    decreases |s|
  {
    if s == [] then []
    else if IsRe2Space(s[0]) then
      var rest := CollapseSpaces(DropRe2Spaces(s));
      SingleSpacedCons(' ', rest);
      " " + rest
    else
      var rest := CollapseSpaces(s[1..]);
      SingleSpacedCons(s[0], rest);
      [s[0]] + rest
  }

  /** A slice of a single-spaced string is single-spaced. */
  lemma SingleSpacedSlice(s: string, a: nat, b: nat)
    requires a <= b <= |s|
    requires SingleSpaced(s)
    ensures SingleSpaced(s[a..b])
  {
    var t := s[a..b];
    forall i | 0 <= i < |t| && IsRe2Space(t[i]) ensures t[i] == ' ' && (i + 1 < |t| ==> !IsRe2Space(t[i + 1])) {
      assert t[i] == s[a + i];
      if i + 1 < |t| { assert t[i + 1] == s[a + i + 1]; }
    }
  }

  /** The runes of a text that are not RE2 `\s`, in order, each paired with
      whether a run of `\s` comes right before it: what the `\s+` pass must
      keep. */
  function Tokens(s: string): seq<(bool, char)>
    decreases |s|
  {
    if s == [] then []
    else if IsRe2Space(s[0]) then AfterSpace(Tokens(s[1..]))
    else [(false, s[0])] + Tokens(s[1..])
  }

  /** Marks the first token as coming after whitespace. */
  function AfterSpace(t: seq<(bool, char)>): seq<(bool, char)> {
    if t == [] then [] else [(true, t[0].1)] + t[1..]
  }

  /** Marks the first token as coming after nothing. */
  function NothingBefore(t: seq<(bool, char)>): seq<(bool, char)> {
    if t == [] then [] else [(false, t[0].1)] + t[1..]
  }

  /** The text ends with an RE2 `\s` rune. */
  predicate EndsInSpace(s: string) {
    s != [] && IsRe2Space(s[|s| - 1])
  }

  /** A leading run of `\s` counts once, whatever its length. */
  lemma {:induction false} TokensOfRun(s: string)
    requires s != [] && IsRe2Space(s[0])
    ensures Tokens(s) == AfterSpace(Tokens(DropRe2Spaces(s)))
    decreases |s|
  {
    var rest := s[1..];
    if rest != [] && IsRe2Space(rest[0]) {
      TokensOfRun(rest);
    }
  }

  /** A text with no token holds only `\s`. */
  lemma {:induction false} OnlySpacesWithoutTokens(s: string)
    requires forall i :: 0 <= i < |s| ==> IsRe2Space(s[i])
    ensures Tokens(s) == []
    decreases |s|
  {
    if s != [] {
      OnlySpacesWithoutTokens(s[1..]);
    }
  }

  /** The `\s+` pass keeps every non-space rune in order, and puts a space
      between two of them exactly where the input had a run of `\s`. */
  lemma {:induction false} CollapseKeepsTokens(s: string)
    ensures Tokens(CollapseSpaces(s)) == Tokens(s)
    decreases |s|
  {
    if s != [] {
      if IsRe2Space(s[0]) {
        CollapseKeepsTokens(DropRe2Spaces(s));
        CollapseRunTokens(s);
      } else {
        CollapseKeepsTokens(s[1..]);
        CollapseRuneTokens(s);
      }
    }
  }

  /** The step of `CollapseKeepsTokens` for a text starting with `\s`. */
  lemma CollapseRunTokens(s: string)
    requires s != [] && IsRe2Space(s[0])
    requires Tokens(CollapseSpaces(DropRe2Spaces(s))) == Tokens(DropRe2Spaces(s))
    ensures Tokens(CollapseSpaces(s)) == Tokens(s)
  {
    var c := CollapseSpaces(DropRe2Spaces(s));
    TokensOfRun(s);
    assert CollapseSpaces(s) == " " + c;
    assert (" " + c)[1..] == c;
  }

  /** The step of `CollapseKeepsTokens` for a text starting with a token. */
  lemma CollapseRuneTokens(s: string)
    requires s != [] && !IsRe2Space(s[0])
    requires Tokens(CollapseSpaces(s[1..])) == Tokens(s[1..])
    ensures Tokens(CollapseSpaces(s)) == Tokens(s)
  {
    var c := CollapseSpaces(s[1..]);
    assert CollapseSpaces(s) == [s[0]] + c;
    assert ([s[0]] + c)[1..] == c;
  }

  lemma CollapseNonEmpty(s: string)
    requires s != []
    ensures CollapseSpaces(s) != []
  {
  }

  /** A trailing run of `\s` stays a trailing space, and only such a run. */
  lemma {:induction false} CollapseKeepsTrailingSpace(s: string)
    ensures EndsInSpace(CollapseSpaces(s)) == EndsInSpace(s)
    decreases |s|
  {
    if s != [] {
      if IsRe2Space(s[0]) {
        var d := DropRe2Spaces(s);
        var c := CollapseSpaces(d);
        assert CollapseSpaces(s) == " " + c;
        if d == [] {
          assert IsRe2Space(s[|s| - 1]);
        } else {
          CollapseNonEmpty(d);
          CollapseKeepsTrailingSpace(d);
          assert (" " + c)[|c|] == c[|c| - 1];
          assert d[|d| - 1] == s[|s| - 1];
        }
      } else {
        var t := s[1..];
        var c := CollapseSpaces(t);
        assert CollapseSpaces(s) == [s[0]] + c;
        if t != [] {
          CollapseNonEmpty(t);
          CollapseKeepsTrailingSpace(t);
          assert ([s[0]] + c)[|c|] == c[|c| - 1];
          assert t[|t| - 1] == s[|s| - 1];
        }
      }
    }
  }

  /** A single-spaced text with no token and no trailing space is empty. */
  lemma SingleSpacedWithoutTokens(s: string)
    requires SingleSpaced(s) && Tokens(s) == [] && !EndsInSpace(s)
    ensures s == []
  {
  }

  /** The first token of a text is marked exactly when the text starts
      with `\s`; a text starting with another rune has a token. */
  lemma FirstTokenFlag(s: string)
    requires s != []
    ensures !IsRe2Space(s[0]) ==> Tokens(s) != []
    ensures Tokens(s) != [] ==> Tokens(s)[0].0 == IsRe2Space(s[0])
  {
  }

  /** A single-spaced text is fixed by its tokens and by whether it ends in
      whitespace. */
  lemma {:induction false} SingleSpacedByTokens(a: string, b: string)
    requires SingleSpaced(a) && SingleSpaced(b)
    requires Tokens(a) == Tokens(b) && EndsInSpace(a) == EndsInSpace(b)
    ensures a == b
    decreases |a|
  {
    if a == [] {
      SingleSpacedWithoutTokens(b);
    } else if b == [] {
      SingleSpacedWithoutTokens(a);
    } else {
      var a', b' := a[1..], b[1..];
      SingleSpacedSlice(a, 1, |a|);
      SingleSpacedSlice(b, 1, |b|);
      if a' != [] { assert a'[|a'| - 1] == a[|a| - 1]; }
      if b' != [] { assert b'[|b'| - 1] == b[|b| - 1]; }
      FirstTokenFlag(a);
      FirstTokenFlag(b);
      assert IsRe2Space(a[0]) == IsRe2Space(b[0]);
      if IsRe2Space(a[0]) {
        assert a' == [] || !IsRe2Space(a'[0]);
        assert b' == [] || !IsRe2Space(b'[0]);
        assert Tokens(a) == AfterSpace(Tokens(a')) && Tokens(b) == AfterSpace(Tokens(b'));
        assert (a' == []) == (b' == []) by {
          assert a' != [] ==> Tokens(a') != [];
          assert b' != [] ==> Tokens(b') != [];
        }
        if a' == [] {
          assert a == [a[0]] && b == [b[0]];
        } else {
          assert Tokens(a')[0] == (false, a'[0]) && Tokens(b')[0] == (false, b'[0]);
          AfterSpaceInjective(Tokens(a'), Tokens(b'));
          SingleSpacedByTokens(a', b');
        }
      } else {
        assert Tokens(a) == [(false, a[0])] + Tokens(a') && Tokens(b) == [(false, b[0])] + Tokens(b');
        assert Tokens(a)[1..] == Tokens(a') && Tokens(b)[1..] == Tokens(b');
        assert EndsInSpace(a') == EndsInSpace(a) by {
          if a' == [] { assert a[|a| - 1] == a[0]; }
        }
        assert EndsInSpace(b') == EndsInSpace(b) by {
          if b' == [] { assert b[|b| - 1] == b[0]; }
        }
        SingleSpacedByTokens(a', b');
      }
    }
  }

  /** Marking the first token is undone by knowing it was unmarked. */
  lemma AfterSpaceInjective(x: seq<(bool, char)>, y: seq<(bool, char)>)
    requires x != [] && y != [] && !x[0].0 && !y[0].0
    requires AfterSpace(x) == AfterSpace(y)
    ensures x == y
  {
    var ax, ay := AfterSpace(x), AfterSpace(y);
    assert ax[0].1 == x[0].1 && ay[0].1 == y[0].1;
    assert ax[1..] == x[1..] && ay[1..] == y[1..];
    assert x == [x[0]] + x[1..] && y == [y[0]] + y[1..];
  }

  /** `CollapseSpaces(s)` is the only single-spaced text with the tokens of
      `s` that ends in whitespace just when `s` does. */
  lemma CollapseSpacesUnique(s: string, t: string)
    requires SingleSpaced(t) && Tokens(t) == Tokens(s) && EndsInSpace(t) == EndsInSpace(s)
    ensures t == CollapseSpaces(s)
  {
    CollapseKeepsTokens(s);
    CollapseKeepsTrailingSpace(s);
    SingleSpacedByTokens(t, CollapseSpaces(s));
  }

  /** The entity pass, in the source's order: nbsp, amp, lt, gt, yen. */
  /** Text without an '&' holds no entity and comes back unchanged. */
  function DecodeEntities(text: string): (r: string)
    ensures '&' !in text ==> r == text
  {
    var t1 := ReplaceAll(text, "&nbsp;", " ");
    var t2 := ReplaceAll(t1, "&amp;", "&");
    var t3 := ReplaceAll(t2, "&lt;", "<");
    var t4 := ReplaceAll(t3, "&gt;", ">");
    var r := ReplaceAll(t4, "&yen;", "¥");
    assert '&' !in text ==> r == text by {
      if '&' !in text {
        ReplaceAbsentPattern(text, "&nbsp;", " ");
        ReplaceAbsentPattern(text, "&amp;", "&");
        ReplaceAbsentPattern(text, "&lt;", "<");
        ReplaceAbsentPattern(text, "&gt;", ">");
        ReplaceAbsentPattern(text, "&yen;", "¥");
      }
    }
    r
  }

  /** The entity pass brings in no rune but ' ', '&', '<', '>' and '¥'. */
  lemma DecodeEntitiesRunes(text: string)
    ensures forall x :: x in DecodeEntities(text) ==> x in text || x in " &<>¥"
  {
    var t1 := ReplaceAll(text, "&nbsp;", " ");
    var t2 := ReplaceAll(t1, "&amp;", "&");
    var t3 := ReplaceAll(t2, "&lt;", "<");
    var t4 := ReplaceAll(t3, "&gt;", ">");
    ReplaceAllRunes(text, "&nbsp;", " ");
    ReplaceAllRunes(t1, "&amp;", "&");
    ReplaceAllRunes(t2, "&lt;", "<");
    ReplaceAllRunes(t3, "&gt;", ">");
    ReplaceAllRunes(t4, "&yen;", "¥");
  }

  /** Whitespace collapsing then `strings.TrimSpace`. */
  function CollapseAndTrim(text: string): (r: string)
    ensures Trimmed(r)
    ensures SingleSpaced(r)
    ensures exists a :: SpaceCut(CollapseSpaces(text), r, a)
  {
    var collapsed := CollapseSpaces(text);
    var left := TrimLeft(collapsed);
    SingleSpacedSlice(collapsed, |collapsed| - |left|, |collapsed|);
    SingleSpacedSlice(left, 0, |TrimRight(left)|);
    TrimSpace(collapsed)
  }

  /** `stripHTML`: the tag pass, the entities, then whitespace collapsing and
      trimming. The result neither starts nor ends with a space and holds no
      run of whitespace. */
  function StripHTML(html: string): (r: string)
    ensures Trimmed(r)
    ensures SingleSpaced(r)
  {
    CollapseAndTrim(DecodeEntities(StripTags(html)))
  }

  /** The `\s+` pass brings in no rune but the plain space. */
  lemma {:induction false} CollapseRunes(s: string)
    ensures forall x :: x in CollapseSpaces(s) ==> x in s || x == ' '
    decreases |s|
  {
    if s != [] {
      if IsRe2Space(s[0]) {
        var d := DropRe2Spaces(s);
        CollapseRunes(d);
        assert forall x :: x in d ==> x in s;
      } else {
        CollapseRunes(s[1..]);
        assert forall x :: x in s[1..] ==> x in s;
      }
    }
  }

  /** Whitespace in front of a text counts once, however long it is. */
  lemma {:induction false} TokensAfterSpaces(p: string, x: string)
    requires forall i :: 0 <= i < |p| ==> IsRe2Space(p[i])
    ensures Tokens(p + x) == if p == [] then Tokens(x) else AfterSpace(Tokens(x))
    decreases |p|
  {
    if p == [] {
      assert p + x == x;
    } else {
      TokensAfterSpaces(p[1..], x);
      assert (p + x)[1..] == p[1..] + x;
    }
  }

  /** Whitespace after a text adds no token. */
  lemma {:induction false} TokensBeforeSpaces(x: string, q: string)
    requires forall i :: 0 <= i < |q| ==> IsRe2Space(q[i])
    ensures Tokens(x + q) == Tokens(x)
    decreases |x|
  {
    if x == [] {
      assert x + q == q;
      OnlySpacesWithoutTokens(q);
    } else {
      TokensBeforeSpaces(x[1..], q);
      assert (x + q)[1..] == x[1..] + q;
    }
  }

  /** Every Unicode space in the text is an RE2 `\s` rune (no U+00A0, no
      U+3000, no vertical tab). */
  predicate OnlyRe2Spaces(s: string) {
    forall i :: 0 <= i < |s| && IsUnicodeSpace(s[i]) ==> IsRe2Space(s[i])
  }

  lemma CollapseKeepsOnlyRe2Spaces(text: string)
    requires OnlyRe2Spaces(text)
    ensures OnlyRe2Spaces(CollapseSpaces(text))
  {
    var c := CollapseSpaces(text);
    CollapseRunes(text);
    forall i | 0 <= i < |c| && IsUnicodeSpace(c[i]) ensures IsRe2Space(c[i]) {
      assert c[i] in c;
    }
  }

  /** Cutting whitespace off both ends of a text keeps its tokens, except
      that the first no longer comes after whitespace. */
  lemma TrimKeepsTokens(c: string, r: string, a: int)
    requires SpaceCut(c, r, a) && OnlyRe2Spaces(c) && Trimmed(r)
    ensures Tokens(r) == NothingBefore(Tokens(c))
  {
    var p, q := c[..a], c[a + |r|..];
    assert forall i :: 0 <= i < |p| ==> IsRe2Space(p[i]) by {
      forall i | 0 <= i < |p| ensures IsRe2Space(p[i]) {
        assert p[i] == c[i] && IsUnicodeSpace(c[i]);
      }
    }
    assert forall i :: 0 <= i < |q| ==> IsRe2Space(q[i]) by {
      forall i | 0 <= i < |q| ensures IsRe2Space(q[i]) {
        assert q[i] == c[a + |r| + i] && IsUnicodeSpace(c[a + |r| + i]);
      }
    }
    assert c == (p + r) + q;
    TokensBeforeSpaces(p + r, q);
    TokensAfterSpaces(p, r);
    assert r == [] || !IsRe2Space(r[0]);
  }

  /** Collapsing and trimming keeps every non-space rune in order, with one
      space between two of them exactly where the text had a run of `\s`,
      and none before the first; for a text whose Unicode spaces are all
      RE2 `\s` (a U+00A0 is kept by the `\s+` pass, and cut only at the
      ends by the trim). */
  lemma CollapseAndTrimKeepsTokens(text: string)
    requires OnlyRe2Spaces(text)
    ensures Tokens(CollapseAndTrim(text)) == NothingBefore(Tokens(text))
  {
    var c := CollapseSpaces(text);
    var r := CollapseAndTrim(text);
    var a :| SpaceCut(c, r, a);
    CollapseKeepsTokens(text);
    CollapseKeepsOnlyRe2Spaces(text);
    TrimKeepsTokens(c, r, a);
  }

  /** `stripHTML` keeps every non-space rune left by the tag and entity
      passes, in order, with one space wherever those passes left a run of
      `\s`; for markup whose Unicode spaces are all RE2 `\s`. */
  lemma StripHTMLKeepsTokens(html: string)
    requires OnlyRe2Spaces(html)
    ensures Tokens(StripHTML(html)) == NothingBefore(Tokens(DecodeEntities(StripTags(html))))
  {
    var t := StripTags(html);
    var d := DecodeEntities(t);
    DecodeEntitiesRunes(t);
    assert OnlyRe2Spaces(d) by {
      forall i | 0 <= i < |d| && IsUnicodeSpace(d[i]) ensures IsRe2Space(d[i]) {
        assert d[i] in d;
        if d[i] !in " &<>¥" {
          assert d[i] in t;
          if d[i] != ' ' {
            var j :| 0 <= j < |html| && html[j] == d[i];
          }
        }
      }
    }
    CollapseAndTrimKeepsTokens(d);
  }

  // ---------------------------------------------------------------------
  // normalizeDate
  // ---------------------------------------------------------------------

  /** Go's `len(p) == 1`: one rune that takes one UTF-8 byte. */
  predicate OneByte(p: string) {
    |p| == 1 && p[0] < '\U{80}'
  }

  /** The zero padding of one month or day part. */
  function Pad(p: string): string {
    if OneByte(p) then "0" + p else p
  }

  /** The separators rewritten to '-': 年, 月 and '/'. */
  function Dashed(s: string): string {
    ReplaceAll(ReplaceAll(ReplaceAll(s, "年", "-"), "月", "-"), "/", "-")
  }

  /** The separator rewrite on one rune. */
  function DashRune(c: char): char {
    if c == '年' || c == '月' || c == '/' then '-' else c
  }

  /** The separator rewrite works rune by rune. */
  lemma DashedPointwise(s: string)
    ensures |Dashed(s)| == |s|
    ensures forall i :: 0 <= i < |s| ==> Dashed(s)[i] == DashRune(s[i])
  {
    var a := ReplaceAll(s, "年", "-");
    var b := ReplaceAll(a, "月", "-");
    ReplaceRunePointwise(s, '年', '-');
    ReplaceRunePointwise(a, '月', '-');
    ReplaceRunePointwise(b, '/', '-');
  }

  /** `normalizeDate`: rewrite the separators to '-', and when that gives
      three parts, zero-pad one-byte month and day parts. No 年, 月 or '/'
      is left in the result. */
  function NormalizeDate(s: string): (r: string)
    ensures '年' !in r && '月' !in r && '/' !in r
  {
    var t := Dashed(s);
    var parts := Split(t, '-');
    DashedHasNoSeparators(s);
    if |parts| == 3 then
      PaddedDate(t);
      Join([parts[0], Pad(parts[1]), Pad(parts[2])], "-")
    else t
  }

  /** Replacing a rune the string does not hold changes nothing. */
  lemma {:induction false} ReplaceAbsentRune(s: string, c: char, rep: string)
    requires c !in s
    ensures ReplaceAll(s, [c], rep) == s
    decreases |s|
  {
    if s != [] {
      ReplaceAbsentRune(s[1..], c, rep);
      assert s == [s[0]] + s[1..];
    }
  }

  /** After the separator rewrite no 年, 月 or '/' is left. */
  lemma DashedHasNoSeparators(s: string)
    ensures '年' !in Dashed(s) && '月' !in Dashed(s) && '/' !in Dashed(s)
  {
    var a := ReplaceAll(s, "年", "-");
    var b := ReplaceAll(a, "月", "-");
    ReplaceRuneRemovesIt(s, '年', "-");
    ReplaceRuneRemovesIt(a, '月', "-");
    ReplaceRuneRemovesIt(b, '/', "-");
  }

  /** A string without the separators is left alone by the rewrite. */
  lemma DashedFixesDashed(s: string)
    requires '年' !in s && '月' !in s && '/' !in s
    ensures Dashed(s) == s
  {
    ReplaceAbsentRune(s, '年', "-");
    ReplaceAbsentRune(s, '月', "-");
    ReplaceAbsentRune(s, '/', "-");
  }

  /** A date that splits into three parts keeps its year part and gets
      one-byte month and day parts zero-padded; any other input is returned
      with its separators rewritten and nothing else changed. */
  lemma NormalizeDateShape(s: string)
    ensures var parts := Split(Dashed(s), '-');
      |parts| == 3 ==> Split(NormalizeDate(s), '-') == [parts[0], Pad(parts[1]), Pad(parts[2])]
    ensures |Split(Dashed(s), '-')| != 3 ==> NormalizeDate(s) == Dashed(s)
  {
    DashedHasNoSeparators(s);
    if |Split(Dashed(s), '-')| == 3 {
      PaddedDate(Dashed(s));
    }
  }

  /** The padding step on a dashed date of three parts: no separator comes
      back, and splitting the result gives the padded parts. */
  lemma PaddedDate(t: string)
    requires '年' !in t && '月' !in t && '/' !in t
    requires |Split(t, '-')| == 3
    ensures var parts := Split(t, '-');
      var r := Join([parts[0], Pad(parts[1]), Pad(parts[2])], "-");
      '年' !in r && '月' !in r && '/' !in r &&
      Split(r, '-') == [parts[0], Pad(parts[1]), Pad(parts[2])]
  {
    var parts := Split(t, '-');
    var out := [parts[0], Pad(parts[1]), Pad(parts[2])];
    var r := Join(out, "-");
    ThreePartsInText(t);
    assert Split(r, '-') == out by {
      assert forall i :: 0 <= i < 3 ==> '-' !in out[i];
      SplitJoin(out, '-');
    }
    assert r == out[0] + "-" + (out[1] + "-" + out[2]) by {
      Join3(out[0], out[1], out[2], "-");
    }
    forall x | x in r ensures x in t || x == '-' || x == '0' {
      assert x in out[0] || x == '-' || x in out[1] || x in out[2];
    }
  }

  /** Every rune of the three parts of a split comes from the text. */
  lemma ThreePartsInText(t: string)
    requires |Split(t, '-')| == 3
    ensures var parts := Split(t, '-');
      forall x :: x in parts[0] || x in parts[1] || x in parts[2] ==> x in t
  {
    var parts := Split(t, '-');
    JoinSplit(t, '-');
    assert parts == [parts[0], parts[1], parts[2]];
    Join3(parts[0], parts[1], parts[2], "-");
  }

  lemma Join3(a: string, b: string, c: string, sep: string)
    ensures Join([a, b, c], sep) == a + sep + (b + sep + c)
  {
    assert [a, b, c][1..] == [b, c];
    assert [b, c][1..] == [c];
    assert Join([b, c], sep) == b + sep + Join([c], sep);
  }

  /** `normalizeDate` is idempotent. */
  lemma NormalizeDateIdempotent(s: string)
    ensures NormalizeDate(NormalizeDate(s)) == NormalizeDate(s)
  {
    var r := NormalizeDate(s);
    NormalizeDateShape(s);
    DashedFixesDashed(r);
    var parts := Split(Dashed(s), '-');
    if |parts| == 3 {
      assert Pad(Pad(parts[1])) == Pad(parts[1]);
      assert Pad(Pad(parts[2])) == Pad(parts[2]);
    }
  }

  // ---------------------------------------------------------------------
  // truncate
  // ---------------------------------------------------------------------

  /** `truncate(s, n)` on runes: short strings come back unchanged, longer
      ones are cut to `n` runes followed by "...". */
  function Truncate(s: string, n: nat): (r: string)
    ensures |s| <= n ==> r == s
    ensures |s| > n ==> |r| == n + 3 && r[..n] == s[..n] && r[n..] == "..."
  {
    if |s| <= n then s else s[..n] + "..."
  }

  // ---------------------------------------------------------------------
  // normalizeChineseName
  // ---------------------------------------------------------------------

  /** `normalizeChineseName`: trim, remove every ' ', upper-case. The result
      holds no ' ', is trimmed and has no lower-case ASCII letter. */
  function NormalizeChineseName(s: string): (r: string)
    ensures ' ' !in r
    ensures Trimmed(r)
    ensures forall i :: 0 <= i < |r| ==> !('a' <= r[i] <= 'z')
  {
    var x := ReplaceAll(TrimSpace(s), " ", "");
    ReplaceRuneRemovesIt(TrimSpace(s), ' ', "");
    RemoveSpacesKeepsTrimmed(TrimSpace(s));
    UpperShape(x);
    ToUpper(x)
  }
  /** Removing a rune other than the last one keeps that last rune last. */
  lemma {:induction false} RemoveRuneSnoc(s: string, x: char, c: char)
    requires x != c
    ensures ReplaceAll(s + [x], [c], "") == ReplaceAll(s, [c], "") + [x]
    decreases |s|
  {
    if s == [] {
      assert ReplaceAll([x], [c], "") == [x] + ReplaceAll([], [c], "");
    } else {
      RemoveRuneSnoc(s[1..], x, c);
      assert (s + [x])[1..] == s[1..] + [x];
    }
  }

  /** Removing the spaces of a trimmed string leaves it trimmed. */
  lemma RemoveSpacesKeepsTrimmed(s: string)
    requires Trimmed(s)
    ensures Trimmed(ReplaceAll(s, " ", ""))
  {
    if s != [] {
      var init := s[..|s| - 1];
      assert s == init + [s[|s| - 1]];
      RemoveRuneSnoc(init, s[|s| - 1], ' ');
    }
  }

  /** Upper-casing keeps a string free of spaces and trimmed, and leaves no
      lower-case ASCII letter. */
  lemma UpperShape(x: string)
    requires ' ' !in x && Trimmed(x)
    ensures ' ' !in ToUpper(x) && Trimmed(ToUpper(x))
    ensures forall i :: 0 <= i < |ToUpper(x)| ==> !('a' <= ToUpper(x)[i] <= 'z')
  {
    var r := ToUpper(x);
    assert forall i :: 0 <= i < |r| ==> r[i] == UpperRune(x[i]);
    assert ' ' !in r by {
      forall i | 0 <= i < |r| ensures r[i] != ' ' {
        assert x[i] in x;
      }
    }
  }

  /** The runes of `s` other than ' ', in order: each non-space rune is kept
      as often as it occurs, and no space is left. */
  function NonSpaces(s: string): (r: string)
    ensures multiset(r) == multiset(s)[' ' := 0]
  {
    if s == [] then []
    else
      assert s == [s[0]] + s[1..];
      (if s[0] == ' ' then [] else [s[0]]) + NonSpaces(s[1..])
  }

  /** Replacing " " by "" is filtering out the spaces. */
  lemma {:induction false} RemoveSpacesFilters(s: string)
    ensures ReplaceAll(s, " ", "") == NonSpaces(s)
    decreases |s|
  {
    if s != [] {
      RemoveSpacesFilters(s[1..]);
      assert (" " <= s) == (s[0] == ' ');
    }
  }

  /** What the name tier compares: the runes of the trimmed name other than
      ' ', in order, each upper-cased. */
  lemma NormalizeChineseNameKeeps(s: string)
    ensures |NormalizeChineseName(s)| == |NonSpaces(TrimSpace(s))|
    ensures forall i :: 0 <= i < |NormalizeChineseName(s)| ==>
      NormalizeChineseName(s)[i] == UpperRune(NonSpaces(TrimSpace(s))[i])
  {
    RemoveSpacesFilters(TrimSpace(s));
  }

  /** `normalizeChineseName` is idempotent, so the name tier compares
      canonical forms. */
  lemma NormalizeChineseNameIdempotent(s: string)
    ensures NormalizeChineseName(NormalizeChineseName(s)) == NormalizeChineseName(s)
  {
    var n := NormalizeChineseName(s);
    ReplaceAbsentRune(n, ' ', "");
    assert ToUpper(n) == n;
  }

  // ---------------------------------------------------------------------
  // detectBank
  // ---------------------------------------------------------------------

  /** A bank's name as the statements record it; never empty. */
  type BankName = s: string | s != "" witness "银行"

  /** `bankDomainMap`: sender-domain fragment to bank. */
  const BankDomains: map<string, BankName> := map[
    "cmbchina" := "招商银行",
    "icbc" := "工商银行",
    "ccb" := "建设银行",
    "abchina" := "农业银行",
    "bankcomm" := "交通银行",
    "spdb" := "浦发银行",
    "cib" := "兴业银行",
    "cmbc" := "民生银行",
    "cgbchina" := "广发银行",
    "pingan" := "平安银行",
    "citic" := "中信银行",
    "hxb" := "华夏银行",
    "boc" := "中国银行",
    "psbc" := "邮储银行"]

  /** `bankSubjectMap`: subject keyword to bank. */
  const BankKeywords: map<string, BankName> := map[
    "招商" := "招商银行",
    "工商" := "工商银行",
    "建设" := "建设银行",
    "农业" := "农业银行",
    "交通" := "交通银行",
    "浦发" := "浦发银行",
    "兴业" := "兴业银行",
    "民生" := "民生银行",
    "广发" := "广发银行",
    "平安" := "平安银行",
    "中信" := "中信银行",
    "华夏" := "华夏银行",
    "中国银行" := "中国银行",
    "邮储" := "邮储银行"]

  /** Some domain fragment occurs in the lower-cased sender. */
  predicate SenderNamesBank(from: string) {
    exists d :: d in BankDomains && Contains(ToLower(from), d)
  }

  /** Some keyword occurs in the subject. */
  predicate SubjectNamesBank(subject: string) {
    exists k :: k in BankKeywords && Contains(subject, k)
  }

  /** The outcomes `detectBank` allows. Go ranges over a map in no fixed
      order, so when several entries match, any of them may be returned; the
      sender's domain is always tried before the subject. */
  predicate BankChoice(from: string, subject: string, bank: string) {
    if SenderNamesBank(from) then
      exists d :: d in BankDomains && Contains(ToLower(from), d) && bank == BankDomains[d]
    else if SubjectNamesBank(subject) then
      exists k :: k in BankKeywords && Contains(subject, k) && bank == BankKeywords[k]
    else bank == ""
  }

  /** `detectBank`: the bank of some matching domain fragment, else of some
      matching subject keyword, else "". */
  method DetectBank(from: string, subject: string) returns (bank: string)
    ensures BankChoice(from, subject, bank)
    ensures bank == "" <==> !SenderNamesBank(from) && !SubjectNamesBank(subject)
  {
    var fromLower := ToLower(from);
    if domain :| domain in BankDomains && Contains(fromLower, domain) {
      bank := BankDomains[domain];
    } else if keyword :| keyword in BankKeywords && Contains(subject, keyword) {
      bank := BankKeywords[keyword];
    } else {
      bank := "";
    }
  }

  /** "cmbc" is a prefix of "cmbchina": mail from China Merchants Bank's
      domain may be attributed to either China Merchants Bank or China
      Minsheng Bank, whatever the subject says. */
  lemma CmbChinaSenderIsAmbiguous(from: string, subject: string)
    requires Contains(ToLower(from), "cmbchina")
    ensures BankChoice(from, subject, "招商银行")
    ensures BankChoice(from, subject, "民生银行")
  {
    var lower := ToLower(from);
    assert Contains(lower, "cmbc") by {
      var i :| 0 <= i <= |lower| && "cmbchina" <= lower[i..];
      assert "cmbc" <= lower[i..];
    }
    assert "cmbchina" in BankDomains && BankDomains["cmbchina"] == "招商银行";
    assert "cmbc" in BankDomains && BankDomains["cmbc"] == "民生银行";
    assert SenderNamesBank(from);
  }

  // ---------------------------------------------------------------------
  // Worked examples
  // ---------------------------------------------------------------------

  /** A string without '<' passes the tag pass unchanged. */
  lemma {:induction false} StripTagsWithoutLt(s: string)
    requires '<' !in s
    ensures StripTags(s) == s
    decreases |s|
  {
    if s != [] {
      StripTagsWithoutLt(s[1..]);
      assert s == [s[0]] + s[1..];
    }
  }

  /** Text before the first '<' is kept as it is. */
  lemma {:induction false} StripTagsKeepsPrefix(a: string, s: string)
    requires '<' !in a
    ensures StripTags(a + s) == a + StripTags(s)
    decreases |a|
  {
    if a != [] {
      StripTagsKeepsPrefix(a[1..], s);
      assert a[0] in a;
      assert !OpensTag(a + s) by { assert (a + s)[0] == a[0]; }
      assert (a + s)[1..] == a[1..] + s;
      assert StripTags(a + s) == [a[0]] + StripTags(a[1..] + s);
      assert a + StripTags(s) == [a[0]] + (a[1..] + StripTags(s));
    } else {
      assert a + s == s;
    }
  }

  /** A tag `<t>` becomes one space: the text before it is kept and the
      pass goes on after its '>'. */
  lemma StripTagsReplacesTag(a: string, t: string, b: string)
    requires '<' !in a && t != [] && '>' !in t
    ensures StripTags(a + "<" + t + ">" + b) == a + " " + StripTags(b)
  {
    var s := "<" + t + ">" + b;
    assert a + "<" + t + ">" + b == a + s;
    StripTagsKeepsPrefix(a, s);
    assert s[1 + |t|] == '>';
    assert forall k :: 1 <= k <= |t| ==> s[k] == t[k - 1];
    assert IndexOf(s, '>') == 1 + |t|;
    assert s[IndexOf(s, '>') + 1..] == b;
  }

  /** Text before the first rune of the pattern is kept. */
  lemma {:induction false} ReplaceAllKeepsPrefix(a: string, s: string, pat: string, rep: string)
    requires pat != [] && pat[0] !in a
    ensures ReplaceAll(a + s, pat, rep) == a + ReplaceAll(s, pat, rep)
    decreases |a|
  {
    if a != [] {
      ReplaceAllKeepsPrefix(a[1..], s, pat, rep);
      assert a[0] in a;
      assert !(pat <= a + s) by { assert (a + s)[0] == a[0]; }
      assert (a + s)[1..] == a[1..] + s;
      assert ReplaceAll(a + s, pat, rep) == [a[0]] + ReplaceAll(a[1..] + s, pat, rep);
      assert a + ReplaceAll(s, pat, rep) == [a[0]] + (a[1..] + ReplaceAll(s, pat, rep));
    } else {
      assert a + s == s;
    }
  }

  /** One replacement of an entity pattern over `a + x`, where the '&'
      opening `x` is the text's only '&': the pattern is replaced there
      when `x` starts with it, and nothing changes otherwise. */
  lemma EntityStep(a: string, x: string, pat: string, rep: string)
    requires pat != [] && pat[0] == '&' && '&' !in a
    requires x != [] && x[0] == '&' && '&' !in x[1..]
    ensures pat <= x ==> ReplaceAll(a + x, pat, rep) == a + rep + x[|pat|..]
    ensures !(pat <= x) ==> ReplaceAll(a + x, pat, rep) == a + x
  {
    ReplaceAllKeepsPrefix(a, x, pat, rep);
    if pat <= x {
      assert forall c :: c in x[|pat|..] ==> c in x[1..];
      ReplaceAbsentPattern(x[|pat|..], pat, rep);
    } else {
      ReplaceAbsentPattern(x[1..], pat, rep);
      assert x == [x[0]] + x[1..];
    }
  }

  /** Text without '&' comes through the last `n` replacements unchanged. */
  lemma NoEntityLeft(t: string)
    requires '&' !in t
    ensures ReplaceAll(ReplaceAll(ReplaceAll(t, "&lt;", "<"), "&gt;", ">"), "&yen;", "¥") == t
  {
    ReplaceAbsentPattern(t, "&lt;", "<");
    ReplaceAbsentPattern(t, "&gt;", ">");
    ReplaceAbsentPattern(t, "&yen;", "¥");
  }

  /** `&nbsp;` between text without '&' becomes one space. */
  lemma DecodesNbsp(a: string, b: string)
    requires '&' !in a && '&' !in b
    ensures DecodeEntities(a + "&nbsp;" + b) == a + " " + b
  {
    var x := "&nbsp;" + b;
    assert a + "&nbsp;" + b == a + x;
    assert x[1..] == "nbsp;" + b;
    EntityStep(a, x, "&nbsp;", " ");
    assert x[6..] == b;
    ReplaceAbsentPattern(a + " " + b, "&amp;", "&");
    NoEntityLeft(a + " " + b);
  }

  /** `&amp;` between text without '&' becomes '&', provided the text after
      it does not spell out the rest of a later entity. */
  lemma DecodesAmp(a: string, b: string)
    requires '&' !in a && '&' !in b
    requires !("lt;" <= b) && !("gt;" <= b) && !("yen;" <= b)
    ensures DecodeEntities(a + "&amp;" + b) == a + "&" + b
  {
    AmpFirstSteps(a, b);
    AmpLastSteps(a, b);
  }

  /** A decoded '&' that opens no later entity survives the lt, gt and yen
      replacements. */
  lemma AmpLastSteps(a: string, b: string)
    requires '&' !in a && '&' !in b
    requires !("lt;" <= b) && !("gt;" <= b) && !("yen;" <= b)
    ensures ReplaceAll(ReplaceAll(ReplaceAll(a + "&" + b, "&lt;", "<"), "&gt;", ">"), "&yen;", "¥") == a + "&" + b
  {
    assert "&" + "lt;" == "&lt;" && "&" + "gt;" == "&gt;" && "&" + "yen;" == "&yen;";
    KeepsAmp(a, b, "lt;", "<");
    KeepsAmp(a, b, "gt;", ">");
    KeepsAmp(a, b, "yen;", "¥");
  }

  /** The entity `"&" + w` is not replaced in `a + "&" + b` when `b` does
      not start with `w`. */
  lemma KeepsAmp(a: string, b: string, w: string, rep: string)
    requires '&' !in a && '&' !in b && !(w <= b)
    ensures ReplaceAll(a + "&" + b, "&" + w, rep) == a + "&" + b
  {
    var y := "&" + b;
    assert a + "&" + b == a + y;
    assert y[1..] == b;
    AmpPrefix(w, b);
    EntityStep(a, y, "&" + w, rep);
  }

  /** The nbsp and amp replacements turn `&amp;` into '&'. */
  lemma AmpFirstSteps(a: string, b: string)
    requires '&' !in a && '&' !in b
    ensures ReplaceAll(ReplaceAll(a + "&amp;" + b, "&nbsp;", " "), "&amp;", "&") == a + "&" + b
  {
    var x := "&amp;" + b;
    assert a + "&amp;" + b == a + x;
    assert x[1..] == "amp;" + b;
    assert x[1] == 'a';
    EntityStep(a, x, "&nbsp;", " ");
    EntityStep(a, x, "&amp;", "&");
    assert x[5..] == b;
  }

  /** `"&" + w` opens `"&" + b` exactly when `w` opens `b`. */
  lemma AmpPrefix(w: string, b: string)
    ensures ("&" + w <= "&" + b) <==> (w <= b)
  {
    if "&" + w <= "&" + b {
      assert w == ("&" + w)[1..] == ("&" + b)[1..|w| + 1];
    }
  }

  /** `&lt;` between text without '&' becomes '<'. */
  lemma DecodesLt(a: string, b: string)
    requires '&' !in a && '&' !in b
    ensures DecodeEntities(a + "&lt;" + b) == a + "<" + b
  {
    var x := "&lt;" + b;
    assert a + "&lt;" + b == a + x;
    assert x[1..] == "lt;" + b;
    assert x[1] == 'l';
    EntityStep(a, x, "&nbsp;", " ");
    EntityStep(a, x, "&amp;", "&");
    EntityStep(a, x, "&lt;", "<");
    assert x[4..] == b;
    ReplaceAbsentPattern(a + "<" + b, "&gt;", ">");
    ReplaceAbsentPattern(a + "<" + b, "&yen;", "¥");
  }

  /** `&gt;` between text without '&' becomes '>'. */
  lemma DecodesGt(a: string, b: string)
    requires '&' !in a && '&' !in b
    ensures DecodeEntities(a + "&gt;" + b) == a + ">" + b
  {
    var x := "&gt;" + b;
    assert a + "&gt;" + b == a + x;
    assert x[1..] == "gt;" + b;
    assert x[1] == 'g';
    EntityStep(a, x, "&nbsp;", " ");
    EntityStep(a, x, "&amp;", "&");
    EntityStep(a, x, "&lt;", "<");
    EntityStep(a, x, "&gt;", ">");
    assert x[4..] == b;
    ReplaceAbsentPattern(a + ">" + b, "&yen;", "¥");
  }

  /** `&yen;` between text without '&' becomes '¥'. */
  lemma DecodesYen(a: string, b: string)
    requires '&' !in a && '&' !in b
    ensures DecodeEntities(a + "&yen;" + b) == a + "¥" + b
  {
    var x := "&yen;" + b;
    assert a + "&yen;" + b == a + x;
    assert x[1..] == "yen;" + b;
    assert x[1] == 'y';
    EntityStep(a, x, "&nbsp;", " ");
    EntityStep(a, x, "&amp;", "&");
    EntityStep(a, x, "&lt;", "<");
    EntityStep(a, x, "&gt;", ">");
    EntityStep(a, x, "&yen;", "¥");
    assert x[5..] == b;
  }

  /** A pattern whose first rune does not occur is never replaced. */
  lemma {:induction false} ReplaceAbsentPattern(s: string, pat: string, rep: string)
    requires pat != [] && pat[0] !in s
    ensures ReplaceAll(s, pat, rep) == s
    decreases |s|
  {
    if s != [] {
      ReplaceAbsentPattern(s[1..], pat, rep);
      assert s == [s[0]] + s[1..];
    }
  }

  /** "&amp;lt;" holds no "&nbsp;". */
  lemma NbspAbsent()
    ensures ReplaceAll("&amp;lt;", "&nbsp;", " ") == "&amp;lt;"
  {
    var s := "&amp;lt;";
    assert !("&nbsp;" <= s) by {
      assert s[1] != "&nbsp;"[1];
    }
    ReplaceAbsentPattern(s[1..], "&nbsp;", " ");
    assert s == [s[0]] + s[1..];
  }

  /** "&amp;" in "&amp;lt;" becomes "&". */
  lemma AmpDecoded()
    ensures ReplaceAll("&amp;lt;", "&amp;", "&") == "&lt;"
  {
    var s := "&amp;lt;";
    assert "&amp;" <= s;
    ReplaceAbsentPattern(s[5..], "&amp;", "&");
    assert s[5..] == "lt;";
  }

  /** "&lt;" becomes "<". */
  lemma LtDecoded()
    ensures ReplaceAll("&lt;", "&lt;", "<") == "<"
  {
    assert "&lt;"[4..] == [];
  }

  /** The entity pass on "&amp;lt;": amp is decoded before lt is looked
      at, so the result is "<". */
  lemma DecodeEntitiesAmpLt()
    ensures DecodeEntities("&amp;lt;") == "<"
  {
    NbspAbsent();
    AmpDecoded();
    LtDecoded();
    ReplaceAbsentPattern("<", "&gt;", ">");
    ReplaceAbsentPattern("<", "&yen;", "¥");
  }

  /** Text without RE2 whitespace is left alone by the collapsing pass. */
  lemma {:induction false} CollapseWithoutSpaces(s: string)
    requires forall i :: 0 <= i < |s| ==> !IsRe2Space(s[i])
    ensures CollapseSpaces(s) == s
    decreases |s|
  {
    if s != [] {
      CollapseWithoutSpaces(s[1..]);
      assert s == [s[0]] + s[1..];
    }
  }

  /** Text without RE2 whitespace and without surrounding Unicode space
      comes out of the whitespace pass unchanged. */
  lemma CollapseAndTrimClean(s: string)
    requires forall i :: 0 <= i < |s| ==> !IsRe2Space(s[i])
    requires Trimmed(s)
    ensures CollapseAndTrim(s) == s
  {
    CollapseWithoutSpaces(s);
  }

  /** Entities are decoded in a fixed order, so "&amp;lt;" decodes twice. */
  lemma AmpLtDecodesToLt()
    ensures StripHTML("&amp;lt;") == "<"
  {
    var t := StripTags("&amp;lt;");
    assert t == "&amp;lt;" by {
      StripTagsWithoutLt("&amp;lt;");
    }
    assert DecodeEntities(t) == "<" by {
      DecodeEntitiesAmpLt();
    }
    assert CollapseAndTrim("<") == "<" by {
      CollapseAndTrimClean("<");
    }
  }

  /** The first occurrence of a one-rune pattern is replaced. */
  lemma {:induction false} ReplaceFirstRune(a: string, c: char, b: string, rep: string)
    requires c !in a
    ensures ReplaceAll(a + [c] + b, [c], rep) == a + rep + ReplaceAll(b, [c], rep)
    decreases |a|
  {
    if a != [] {
      ReplaceFirstRune(a[1..], c, b, rep);
      assert (a + [c] + b)[1..] == a[1..] + [c] + b;
    } else {
      assert ([c] + b)[|[c]|..] == b;
    }
  }

  /** Replacing a rune that occurs once swaps just that occurrence. */
  lemma ReplaceOnlyRune(a: string, c: char, b: string, rep: string)
    requires c !in a && c !in b
    ensures ReplaceAll(a + [c] + b, [c], rep) == a + rep + b
  {
    ReplaceFirstRune(a, c, b, rep);
    ReplaceAbsentRune(b, c, rep);
  }

  /** A date written with 年 and 月 gets dashes in their place, its year,
      month and day parts untouched. */
  lemma DashedChineseDate(y: string, m: string, d: string)
    requires forall c :: c in y + m + d ==> c != '年' && c != '月' && c != '/'
    ensures Dashed(y + "年" + m + "月" + d) == y + "-" + m + "-" + d
  {
    assert forall c :: c in y ==> c in y + m + d;
    assert forall c :: c in m ==> c in y + m + d;
    assert forall c :: c in d ==> c in y + m + d;
    var s1 := y + "-" + m + "月" + d;
    var s2 := y + "-" + m + "-" + d;
    assert ReplaceAll(y + "年" + m + "月" + d, "年", "-") == s1 by {
      assert y + "年" + m + "月" + d == y + ['年'] + (m + "月" + d);
      ReplaceOnlyRune(y, '年', m + "月" + d, "-");
    }
    assert ReplaceAll(s1, "月", "-") == s2 by {
      assert s1 == (y + "-" + m) + ['月'] + d;
      ReplaceOnlyRune(y + "-" + m, '月', d, "-");
    }
    assert ReplaceAll(s2, "/", "-") == s2 by {
      ReplaceAbsentRune(s2, '/', "-");
    }
  }
}
