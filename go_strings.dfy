/** The parts of Go's `strings` and `unicode` packages, and of RE2's `\s`
    class, that the card server relies on. A Go string is modelled as the
    sequence of its runes (Unicode scalar values). */
module GoStrings {

  /** RE2's Perl class `\s`: tab, newline, form feed, carriage return, space. */
  predicate IsRe2Space(c: char) {
    c == '\t' || c == '\n' || c == '\U{0C}' || c == '\r' || c == ' '
  }

  /** `unicode.IsSpace`: the Latin-1 spaces and the Unicode White_Space set. */
  predicate IsUnicodeSpace(c: char) {
    || c == '\t' || c == '\n' || c == '\U{0B}' || c == '\U{0C}' || c == '\r' || c == ' '
    || c == '\U{85}' || c == '\U{A0}' || c == '\U{1680}'
    || ('\U{2000}' <= c <= '\U{200A}')
    || c == '\U{2028}' || c == '\U{2029}' || c == '\U{202F}' || c == '\U{205F}' || c == '\U{3000}'
  }

  /** `strings.Contains(s, sub)`. */
  predicate Contains(s: string, sub: string) {
    exists i :: 0 <= i <= |s| && sub <= s[i..]
  }

  /** `strings.ReplaceAll(s, pat, rep)`: non-overlapping occurrences of `pat`,
      found from left to right, each replaced by `rep`. */
  function ReplaceAll(s: string, pat: string, rep: string): string
    requires pat != []
    decreases |s|
  {
    if s == [] then []
    else if pat <= s then rep + ReplaceAll(s[|pat|..], pat, rep)
    else [s[0]] + ReplaceAll(s[1..], pat, rep)
  }

  /** Replacing a one-rune pattern leaves no occurrence of it, and brings in
      no rune that is in neither the input nor the replacement. */
  lemma {:induction false} ReplaceRuneRemovesIt(s: string, c: char, rep: string)
    requires c !in rep
    ensures c !in ReplaceAll(s, [c], rep)
    ensures forall x :: x in ReplaceAll(s, [c], rep) ==> x in s || x in rep
    decreases |s|
  {
    if s != [] {
      ReplaceRuneRemovesIt(s[1..], c, rep);
      if [c] <= s {
        assert s[1..] == s[|[c]|..];
      } else {
        assert s[0] != c;
      }
    }
  }

  /** `strings.ReplaceAll` brings in no rune that is in neither the input nor
      the replacement. */
  lemma {:induction false} ReplaceAllRunes(s: string, pat: string, rep: string)
    requires pat != []
    ensures forall x :: x in ReplaceAll(s, pat, rep) ==> x in s || x in rep
    decreases |s|
  {
    if s != [] {
      if pat <= s {
        ReplaceAllRunes(s[|pat|..], pat, rep);
        assert forall x :: x in s[|pat|..] ==> x in s;
      } else {
        ReplaceAllRunes(s[1..], pat, rep);
        assert forall x :: x in s[1..] ==> x in s;
      }
    }
  }

  /** Replacing one rune by one rune works rune by rune. */
  lemma {:induction false} ReplaceRunePointwise(s: string, c: char, x: char)
    ensures |ReplaceAll(s, [c], [x])| == |s|
    ensures forall i :: 0 <= i < |s| ==> ReplaceAll(s, [c], [x])[i] == if s[i] == c then x else s[i]
    decreases |s|
  {
    if s != [] {
      ReplaceRunePointwise(s[1..], c, x);
      var tail := ReplaceAll(s[1..], [c], [x]);
      if [c] <= s {
        assert s[1..] == s[|[c]|..];
      }
      assert ReplaceAll(s, [c], [x]) == [if s[0] == c then x else s[0]] + tail;
    }
  }

  /** `strings.Split(s, sep)` for a one-rune separator: always at least one
      part (`Split("", sep) == [""]`). */
  function Split(s: string, sep: char): (parts: seq<string>)
    ensures |parts| >= 1
    ensures forall i :: 0 <= i < |parts| ==> sep !in parts[i]
  {
    if s == [] then [[]]
    else
      var rest := Split(s[1..], sep);
      if s[0] == sep then [[]] + rest
      else [[s[0]] + rest[0]] + rest[1..]
  }

  /** `strings.Join(parts, sep)`. */
  function Join(parts: seq<string>, sep: string): string {
    if parts == [] then []
    else if |parts| == 1 then parts[0]
    else parts[0] + sep + Join(parts[1..], sep)
  }

  /** Joining the parts back with the separator gives the split string. */
  lemma {:induction false} JoinSplit(s: string, sep: char)
    ensures Join(Split(s, sep), [sep]) == s
  {
    if s != [] {
      JoinSplit(s[1..], sep);
      var rest := Split(s[1..], sep);
      if s[0] != sep {
        if |rest| > 1 {
          assert Join(rest, [sep]) == rest[0] + [sep] + Join(rest[1..], [sep]);
        }
      }
    }
  }

  /** Splitting a join of separator-free parts gives the parts back. */
  lemma {:induction false} SplitJoin(parts: seq<string>, sep: char)
    requires |parts| >= 1
    requires forall i :: 0 <= i < |parts| ==> sep !in parts[i]
    ensures Split(Join(parts, [sep]), sep) == parts
    decreases |parts|, |parts[0]|
  {
    if parts[0] == [] {
      if |parts| > 1 {
        SplitJoin(parts[1..], sep);
        assert Join(parts, [sep]) == [sep] + Join(parts[1..], [sep]);
      }
    } else {
      var p0 := parts[0];
      var tail := [p0[1..]] + parts[1..];
      assert tail[0] == p0[1..];
      forall i | 0 <= i < |tail| ensures sep !in tail[i] {
        if i > 0 { assert tail[i] == parts[i]; }
      }
      SplitJoin(tail, sep);
      assert tail[1..] == parts[1..];
      if |parts| == 1 {
        assert Join(parts, [sep]) == [p0[0]] + Join(tail, [sep]);
      } else {
        assert Join(parts, [sep]) == [p0[0]] + Join(tail, [sep]);
      }
      assert p0[0] != sep by { assert p0[0] in parts[0]; }
      assert [p0[0]] + p0[1..] == p0;
    }
  }

  /** Drops leading `unicode.IsSpace` runes. */
  function TrimLeft(s: string): (r: string)
    ensures |r| <= |s| && r == s[|s| - |r|..]
    ensures r == [] || !IsUnicodeSpace(r[0])
    ensures forall i :: 0 <= i < |s| - |r| ==> IsUnicodeSpace(s[i])
  {
    if s != [] && IsUnicodeSpace(s[0]) then TrimLeft(s[1..]) else s
  }

  /** Drops trailing `unicode.IsSpace` runes. */
  function TrimRight(s: string): (r: string)
    ensures |r| <= |s| && r == s[..|r|]
    ensures r == [] || !IsUnicodeSpace(r[|r| - 1])
    ensures forall i :: |r| <= i < |s| ==> IsUnicodeSpace(s[i])
  {
    if s != [] && IsUnicodeSpace(s[|s| - 1]) then TrimRight(s[..|s| - 1]) else s
  }

  /** A string that neither starts nor ends with a `unicode.IsSpace` rune. */
  predicate Trimmed(s: string) {
    s == [] || (!IsUnicodeSpace(s[0]) && !IsUnicodeSpace(s[|s| - 1]))
  }

  /** `r` is `s` with `a` runes cut from the front and the rest of the
      cut from the back, every cut rune a `unicode.IsSpace` rune. */
  predicate SpaceCut(s: string, r: string, a: int) {
    && 0 <= a && a + |r| <= |s|
    && r == s[a..a + |r|]
    && (forall i :: 0 <= i < a ==> IsUnicodeSpace(s[i]))
    && (forall i :: a + |r| <= i < |s| ==> IsUnicodeSpace(s[i]))
  }

  /** `strings.TrimSpace`: the slice of `s` left once the `unicode.IsSpace`
      runes at both ends are cut; it is trimmed, and a trimmed input comes
      back unchanged. */
  function TrimSpace(s: string): (r: string)
    ensures exists a :: SpaceCut(s, r, a)
    ensures Trimmed(r)
    ensures |r| <= |s|
    ensures Trimmed(s) ==> r == s
  {
    var left := TrimLeft(s);
    var r := TrimRight(left);
    assert SpaceCut(s, r, |s| - |left|);
    r
  }

  /** Trimming twice is trimming once. */
  lemma TrimSpaceIdempotent(s: string)
    ensures TrimSpace(TrimSpace(s)) == TrimSpace(s)
  {
  }

  /** `unicode.ToUpper` restricted to ASCII letters. */
  function UpperRune(c: char): char {
    if 'a' <= c <= 'z' then (c as int - 32) as char else c
  }

  /** `unicode.ToLower` on the runes whose lower case is ASCII: the ASCII
      capitals, U+0130 (capital I with dot above) and U+212A (Kelvin sign).
      Every other rune is kept; Go maps some of them to other non-ASCII
      runes, never to ASCII ones. */
  function LowerRune(c: char): char {
    if 'A' <= c <= 'Z' then (c as int + 32) as char
    else if c == '\U{130}' then 'i'
    else if c == '\U{212A}' then 'k'
    else c
  }

  /** A rune that `LowerRune` rewrites. */
  predicate LowersToAscii(c: char) {
    ('A' <= c <= 'Z') || c == '\U{130}' || c == '\U{212A}'
  }

  /** `strings.ToUpper` (ASCII letters only): no ASCII lower-case letter is
      left, each one becomes its capital, and every other rune is kept in
      place. */
  function ToUpper(s: string): (r: string)
    ensures |r| == |s|
    ensures forall i :: 0 <= i < |r| ==> !('a' <= r[i] <= 'z')
    ensures forall i :: 0 <= i < |s| && 'a' <= s[i] <= 'z' ==> 'A' <= r[i] <= 'Z' && r[i] as int == s[i] as int - 32
    ensures forall i :: 0 <= i < |s| && !('a' <= s[i] <= 'z') ==> r[i] == s[i]
    ensures forall i :: 0 <= i < |s| ==> r[i] == UpperRune(s[i])
  {
    seq(|s|, i requires 0 <= i < |s| => UpperRune(s[i]))
  }

  /** `strings.ToLower`, exact on every rune whose lower case is ASCII: no
      ASCII capital is left, each rewritten rune becomes an ASCII lower-case
      letter, and every other rune is kept in place. */
  function ToLower(s: string): (r: string)
    ensures |r| == |s|
    ensures forall i :: 0 <= i < |r| ==> !('A' <= r[i] <= 'Z')
    ensures forall i :: 0 <= i < |s| && LowersToAscii(s[i]) ==> 'a' <= r[i] <= 'z'
    ensures forall i :: 0 <= i < |s| && !LowersToAscii(s[i]) ==> r[i] == s[i]
    ensures forall i :: 0 <= i < |s| ==> r[i] == LowerRune(s[i])
  {
    seq(|s|, i requires 0 <= i < |s| => LowerRune(s[i]))
  }
}
