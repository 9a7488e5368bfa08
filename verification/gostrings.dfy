/** The part of Go's `strings` package the exporter relies on, over strings of runes. */
module GoStrings {

  /** `unicode.IsSpace`: the ASCII white space characters plus U+0085, U+00A0 and the Unicode
      White_Space characters of category Z. Both `strings.TrimSpace` and `strings.Fields` use it. */
  predicate IsSpace(c: char) {
    var n := c as int;
    || n == 0x20 || 0x09 <= n <= 0x0D || n == 0x85 || n == 0xA0 || n == 0x1680
    || 0x2000 <= n <= 0x200A || n == 0x2028 || n == 0x2029 || n == 0x202F || n == 0x205F || n == 0x3000
  }

  predicate AllSpace(s: string) {
    forall i :: 0 <= i < |s| ==> IsSpace(s[i])
  }

  predicate NoSpace(s: string) {
    forall i :: 0 <= i < |s| ==> !IsSpace(s[i])
  }

  /** No piece contains `c`. */
  predicate NoneContains(parts: seq<string>, c: char) {
    forall i :: 0 <= i < |parts| ==> c !in parts[i]
  }

  lemma NoneContainsConcat(a: seq<string>, b: seq<string>, c: char)
    requires NoneContains(a, c) && NoneContains(b, c)
    ensures NoneContains(a + b, c)
  {
    forall i | 0 <= i < |a + b| ensures c !in (a + b)[i] {
      if i < |a| { assert (a + b)[i] == a[i]; } else { assert (a + b)[i] == b[i - |a|]; }
    }
  }

  /** An infix holds no character its string does not hold. */
  lemma InfixExcludes(s: string, lo: nat, hi: nat, c: char)
    requires lo <= hi <= |s|
    requires c !in s
    ensures c !in s[lo..hi]
  {
  }

  /** A suffix holds no character its string does not hold. */
  lemma SuffixExcludes(s: string, lo: nat, c: char)
    requires lo <= |s|
    ensures c !in s ==> c !in s[lo..]
  {
    assert s[lo..] == s[lo..|s|];
  }

  /** `strings.HasPrefix` */
  predicate HasPrefix(s: string, p: string) {
    |p| <= |s| && s[..|p|] == p
  }

  /** `strings.TrimPrefix` */
  function TrimPrefix(s: string, p: string): (r: string)
    ensures HasPrefix(s, p) ==> p + r == s
    ensures !HasPrefix(s, p) ==> r == s
  {
    if HasPrefix(s, p) then s[|p|..] else s
  }

  /** `strings.TrimSuffix` */
  function TrimSuffix(s: string, suffix: string): (r: string)
    ensures |suffix| <= |s| && s[|s| - |suffix|..] == suffix ==> r + suffix == s
    ensures !(|suffix| <= |s| && s[|s| - |suffix|..] == suffix) ==> r == s
  {
    if |suffix| <= |s| && s[|s| - |suffix|..] == suffix then s[..|s| - |suffix|] else s
  }

  /** `strings.ReplaceAll` with one-character old and new strings. */
  function ReplaceChar(s: string, from: char, to: char): (r: string)
    ensures |r| == |s|
    ensures forall i :: 0 <= i < |s| ==> r[i] == (if s[i] == from then to else s[i])
  {
    seq(|s|, i requires 0 <= i < |s| => if s[i] == from then to else s[i])
  }

  /** After the replacement no replaced character is left. */
  lemma ReplaceRemoves(s: string, from: char, to: char)
    requires from != to
    ensures from !in ReplaceChar(s, from, to)
  {
    var r := ReplaceChar(s, from, to);
    forall i | 0 <= i < |r| ensures r[i] != from {
    }
  }

  // ---------------------------------------------------------------------------
  // strings.Split / strings.Join with a one-character separator

  /** `strings.Join` */
  function Join(parts: seq<string>, sep: char): string {
    if |parts| == 0 then ""
    else if |parts| == 1 then parts[0]
    else parts[0] + [sep] + Join(parts[1..], sep)
  }

  /** A join holds no character other than the separator that none of its pieces holds. */
  lemma {:induction false} JoinExcludes(parts: seq<string>, sep: char, c: char)
    requires NoneContains(parts, c) && c != sep
    ensures c !in Join(parts, sep)
  {
    if |parts| > 1 {
      JoinExcludes(parts[1..], sep, c);
    }
  }

  /** A join ends with the last character of its last piece. */
  lemma {:induction false} JoinLastChar(parts: seq<string>, sep: char)
    requires |parts| >= 1 && |parts[|parts| - 1]| > 0
    ensures var j := Join(parts, sep); var last := parts[|parts| - 1];
      |j| > 0 && j[|j| - 1] == last[|last| - 1]
  {
    if |parts| > 1 {
      JoinLastChar(parts[1..], sep);
    }
  }

  /** The pieces of `s` between separators, as `strings.Split` cuts them: each character either
      closes the current piece (a separator) or extends it. */
  function Pieces(s: string, sep: char): (parts: seq<string>)
    ensures |parts| >= 1
    decreases |s|
  {
    if |s| == 0 then [""]
    else
      var rest := Pieces(s[1..], sep);
      if s[0] == sep then [""] + rest else [[s[0]] + rest[0]] + rest[1..]
  }

  /** The pieces are separator-free and joining them restores the text. */
  lemma {:induction false} PiecesJoin(s: string, sep: char)
    ensures forall i :: 0 <= i < |Pieces(s, sep)| ==> sep !in Pieces(s, sep)[i]
    ensures Join(Pieces(s, sep), sep) == s
    decreases |s|
  {
    if |s| > 0 {
      PiecesJoin(s[1..], sep);
      var rest := Pieces(s[1..], sep);
      assert [s[0]] + s[1..] == s;
      if s[0] == sep {
        JoinEmptyHead(rest, sep);
      } else {
        JoinExtendHead(s[0], rest, sep);
        assert sep !in [s[0]] + rest[0];
      }
    }
  }

  /** An empty first piece puts a separator in front of the join of the others. */
  lemma JoinEmptyHead(rest: seq<string>, sep: char)
    requires |rest| >= 1
    ensures Join([""] + rest, sep) == [sep] + Join(rest, sep)
  {
    assert ([""] + rest)[1..] == rest;
  }

  /** Extending the first piece by a character puts that character in front of the join. */
  lemma JoinExtendHead(c: char, rest: seq<string>, sep: char)
    requires |rest| >= 1
    ensures Join([[c] + rest[0]] + rest[1..], sep) == [c] + Join(rest, sep)
  {
    var parts := [[c] + rest[0]] + rest[1..];
    assert parts[1..] == rest[1..];
  }

  /** `strings.Split` with a one-character separator: the pieces between separators, always at
      least one, so `Split("", sep) == [""]`. */
  function Split(s: string, sep: char): (parts: seq<string>)
    ensures |parts| >= 1
    ensures forall i :: 0 <= i < |parts| ==> sep !in parts[i]
    ensures Join(parts, sep) == s
  {
    PiecesJoin(s, sep);
    Pieces(s, sep)
  }

  lemma {:induction false} SplitNoSep(x: string, sep: char)
    requires sep !in x
    ensures Split(x, sep) == [x]
    decreases |x|
  {
    if |x| > 0 {
      SplitNoSep(x[1..], sep);
      assert [x[0]] + x[1..] == x;
    }
  }

  lemma {:induction false} SplitCons(x: string, sep: char, y: string)
    requires sep !in x
    ensures Split(x + [sep] + y, sep) == [x] + Split(y, sep)
    decreases |x|
  {
    var s := x + [sep] + y;
    if |x| == 0 {
      assert s[1..] == y;
    } else {
      assert s[1..] == x[1..] + [sep] + y;
      SplitCons(x[1..], sep, y);
      assert [x[0]] + x[1..] == x;
    }
  }

  /** Splitting a join of separator-free pieces gives the pieces back. */
  lemma {:induction false} SplitJoin(parts: seq<string>, sep: char)
    requires |parts| >= 1
    requires forall i :: 0 <= i < |parts| ==> sep !in parts[i]
    ensures Split(Join(parts, sep), sep) == parts
  {
    if |parts| == 1 {
      SplitNoSep(parts[0], sep);
    } else {
      SplitJoin(parts[1..], sep);
      SplitCons(parts[0], sep, Join(parts[1..], sep));
      assert [parts[0]] + parts[1..] == parts;
    }
  }

  /** Splitting at a separator between two strings concatenates their splits. */
  lemma SplitAppend(a: string, sep: char, b: string)
    ensures Split(a + [sep] + b, sep) == Split(a, sep) + Split(b, sep)
  {
    PiecesAppend(a, sep, b);
  }

  lemma {:induction false} PiecesAppend(a: string, sep: char, b: string)
    ensures Pieces(a + [sep] + b, sep) == Pieces(a, sep) + Pieces(b, sep)
    decreases |a|
  {
    var s := a + [sep] + b;
    if |a| == 0 {
      assert s[1..] == b;
    } else {
      assert s[0] == a[0] && s[1..] == a[1..] + [sep] + b;
      PiecesAppend(a[1..], sep, b);
      if a[0] != sep {
        ExtendFirstPiece(a[0], Pieces(a[1..], sep), Pieces(b, sep));
      }
    }
  }

  lemma ExtendFirstPiece(c: char, ra: seq<string>, sb: seq<string>)
    requires |ra| >= 1
    ensures [[c] + (ra + sb)[0]] + (ra + sb)[1..] == [[c] + ra[0]] + ra[1..] + sb
  {
    assert (ra + sb)[0] == ra[0];
    assert (ra + sb)[1..] == ra[1..] + sb;
  }

  // ---------------------------------------------------------------------------
  // strings.TrimSpace

  /** Number of leading white space characters. */
  function LeadingSpaces(s: string): (n: nat)
    ensures n <= |s|
    ensures AllSpace(s[..n])
    ensures n < |s| ==> !IsSpace(s[n])
  {
    if |s| > 0 && IsSpace(s[0]) then 1 + LeadingSpaces(s[1..]) else 0
  }

  /** Number of trailing white space characters. */
  function TrailingSpaces(s: string): (n: nat)
    ensures n <= |s|
    ensures AllSpace(s[|s| - n..])
    ensures n < |s| ==> !IsSpace(s[|s| - n - 1])
  {
    if |s| > 0 && IsSpace(s[|s| - 1]) then
      var m := TrailingSpaces(s[..|s| - 1]);
      TrailingStep(s, m);
      1 + m
    else 0
  }

  /** One more white space character at the end extends the trailing run. */
  lemma TrailingStep(s: string, m: nat)
    requires |s| > 0 && IsSpace(s[|s| - 1]) && m <= |s| - 1
    requires AllSpace(s[..|s| - 1][|s| - 1 - m..])
    ensures AllSpace(s[|s| - (1 + m)..])
  {
    var t := s[|s| - (1 + m)..];
    forall i | 0 <= i < |t| ensures IsSpace(t[i]) {
      if i < m {
        assert t[i] == s[..|s| - 1][|s| - 1 - m..][i];
      }
    }
  }

  /** `strings.TrimSpace`: the infix left after removing white space at both ends. */
  function TrimSpace(s: string): (r: string)
    ensures LeadingSpaces(s) + |r| <= |s|
    ensures r == s[LeadingSpaces(s)..LeadingSpaces(s) + |r|]
    ensures AllSpace(s[LeadingSpaces(s) + |r|..])
    ensures |r| > 0 ==> !IsSpace(r[0]) && !IsSpace(r[|r| - 1])
  {
    var t := s[LeadingSpaces(s)..];
    t[..|t| - TrailingSpaces(t)]
  }

  /** Trimming an already trimmed string changes nothing. */
  lemma TrimSpaceIdempotent(s: string)
    ensures TrimSpace(TrimSpace(s)) == TrimSpace(s)
  {
    var r := TrimSpace(s);
    assert LeadingSpaces(r) == 0;
    if |r| > 0 {
      assert TrailingSpaces(r) == 0;
    }
  }

  /** A string with no white space at its ends is its own trim. */
  lemma TrimSpaceOfTrimmed(s: string)
    requires |s| > 0 ==> !IsSpace(s[0]) && !IsSpace(s[|s| - 1])
    ensures TrimSpace(s) == s
  {
    assert LeadingSpaces(s) == 0;
    if |s| > 0 {
      assert TrailingSpaces(s) == 0;
    }
  }

  /** White space before a string with no white space at its ends is trimmed away. */
  lemma TrimSpaceOfPadded(lead: string, t: string)
    requires AllSpace(lead)
    requires |t| > 0 && !IsSpace(t[0]) && !IsSpace(t[|t| - 1])
    ensures TrimSpace(lead + t) == t
  {
    LeadingOfSpacePrefix(lead, t);
    var u := (lead + t)[|lead|..];
    assert u == t;
    assert TrailingSpaces(t) == 0;
  }

  // ---------------------------------------------------------------------------
  // strings.Fields

  /** Number of leading non-space characters. */
  function WordLength(s: string): (n: nat)
    ensures n <= |s|
    ensures NoSpace(s[..n])
    ensures n < |s| ==> IsSpace(s[n])
  {
    if |s| > 0 && !IsSpace(s[0]) then 1 + WordLength(s[1..]) else 0
  }

  /** `strings.Fields`: the maximal runs of non-space characters, in order. */
  function Fields(s: string): (fs: seq<string>)
    ensures forall i :: 0 <= i < |fs| ==> |fs[i]| > 0 && NoSpace(fs[i])
    decreases |s|
  {
    var t := s[LeadingSpaces(s)..];
    if |t| == 0 then []
    else
      var w := WordLength(t);
      [t[..w]] + Fields(t[w..])
  }

  /** The first field of a string that starts with a word and a space is that word. */
  lemma FieldsCons(lead: string, w: string, gap: char, rest: string)
    requires AllSpace(lead)
    requires |w| > 0 && NoSpace(w)
    requires IsSpace(gap)
    ensures Fields(lead + w + [gap] + rest) == [w] + Fields([gap] + rest)
  {
    assert lead + w + [gap] + rest == lead + (w + ([gap] + rest));
    FieldsAfterSpaces(lead, w + ([gap] + rest));
    FieldsOfWordThen(w, [gap] + rest);
  }

  /** A word directly followed by white space, or by nothing, is the first field. */
  lemma FieldsOfWordThen(w: string, r: string)
    requires |w| > 0 && NoSpace(w)
    requires |r| == 0 || IsSpace(r[0])
    ensures Fields(w + r) == [w] + Fields(r)
  {
    var t := w + r;
    assert t[0] == w[0];
    assert LeadingSpaces(t) == 0;
    WordLengthOfWord(w, r);
    assert t[..|w|] == w;
    assert t[|w|..] == r;
  }

  /** A single word is its own only field. */
  lemma FieldsOfWord(w: string)
    requires |w| > 0 && NoSpace(w)
    ensures Fields(w) == [w]
  {
    assert LeadingSpaces(w) == 0;
    WordLengthOfWord(w, "");
    assert w + "" == w;
    assert w[|w|..] == "";
  }

  lemma {:induction false} LeadingOfSpacePrefix(lead: string, t: string)
    requires AllSpace(lead)
    requires |t| > 0 && !IsSpace(t[0])
    ensures LeadingSpaces(lead + t) == |lead|
    decreases |lead|
  {
    if |lead| > 0 {
      assert (lead + t)[1..] == lead[1..] + t;
      LeadingOfSpacePrefix(lead[1..], t);
    } else {
      assert lead + t == t;
    }
  }

  lemma {:induction false} WordLengthOfWord(w: string, rest: string)
    requires NoSpace(w)
    requires |rest| == 0 || IsSpace(rest[0])
    ensures WordLength(w + rest) == |w|
    decreases |w|
  {
    if |w| > 0 {
      assert (w + rest)[1..] == w[1..] + rest;
      WordLengthOfWord(w[1..], rest);
    } else {
      assert w + rest == rest;
    }
  }

  /** Joining non-empty space-free words with single spaces and splitting into fields gives the
      words back. */
  lemma {:induction false} FieldsJoin(words: seq<string>)
    requires forall i :: 0 <= i < |words| ==> |words[i]| > 0 && NoSpace(words[i])
    ensures Fields(Join(words, ' ')) == words
  {
    if |words| == 0 {
    } else if |words| == 1 {
      FieldsOfWord(words[0]);
    } else {
      var rest := Join(words[1..], ' ');
      FieldsCons("", words[0], ' ', rest);
      assert "" + words[0] + [' '] + rest == Join(words, ' ');
      FieldsJoin(words[1..]);
      FieldsAfterSpace(' ', rest);
      assert [words[0]] + words[1..] == words;
    }
  }

  /** A leading space never starts a field. */
  lemma FieldsAfterSpace(gap: char, rest: string)
    requires IsSpace(gap)
    ensures Fields([gap] + rest) == Fields(rest)
  {
    var s := [gap] + rest;
    assert s[1..] == rest;
    assert LeadingSpaces(s) == 1 + LeadingSpaces(rest);
    assert s[LeadingSpaces(s)..] == rest[LeadingSpaces(rest)..];
  }

  /** A run of white space in front of a string never starts a field. */
  lemma {:induction false} FieldsAfterSpaces(lead: string, rest: string)
    requires AllSpace(lead)
    ensures Fields(lead + rest) == Fields(rest)
    decreases |lead|
  {
    if |lead| > 0 {
      var r := lead[1..] + rest;
      assert lead + rest == [lead[0]] + r;
      FieldsAfterSpace(lead[0], r);
      assert AllSpace(lead[1..]);
      FieldsAfterSpaces(lead[1..], rest);
    } else {
      assert lead + rest == rest;
    }
  }

  /** Words separated by runs of white space: `gaps[i]` follows `words[i]`, and the last word has
      nothing after it. This is the layout of the kernel's padded columns. */
  function Spaced(words: seq<string>, gaps: seq<string>): string
    requires |words| <= |gaps| + 1
    decreases |words|
  {
    if |words| == 0 then ""
    else if |words| == 1 then words[0]
    else words[0] + gaps[0] + Spaced(words[1..], gaps[1..])
  }

  /** The fields of words separated by non-empty runs of white space are the words. */
  lemma {:induction false} FieldsSpaced(words: seq<string>, gaps: seq<string>)
    requires |words| <= |gaps| + 1
    requires forall i :: 0 <= i < |words| ==> |words[i]| > 0 && NoSpace(words[i])
    requires forall i :: 0 <= i < |gaps| ==> |gaps[i]| > 0 && AllSpace(gaps[i])
    ensures Fields(Spaced(words, gaps)) == words
    decreases |words|
  {
    if |words| == 1 {
      FieldsOfWord(words[0]);
    } else if |words| > 1 {
      var rest := Spaced(words[1..], gaps[1..]);
      FieldsOfGap(words[0], gaps[0], rest);
      FieldsSpaced(words[1..], gaps[1..]);
      assert [words[0]] + words[1..] == words;
    }
  }

  /** A word followed by a run of white space is the first field. */
  lemma FieldsOfGap(w: string, g: string, rest: string)
    requires |w| > 0 && NoSpace(w)
    requires |g| > 0 && AllSpace(g)
    ensures Fields(w + g + rest) == [w] + Fields(rest)
  {
    assert w + g + rest == w + (g + rest);
    FieldsOfWordThen(w, g + rest);
    FieldsAfterSpaces(g, rest);
  }

  /** Spaced words end with the last character of the last word. */
  lemma {:induction false} SpacedLastChar(words: seq<string>, gaps: seq<string>)
    requires 0 < |words| <= |gaps| + 1
    requires |words[|words| - 1]| > 0
    ensures var s := Spaced(words, gaps); var w := words[|words| - 1];
      |s| > 0 && s[|s| - 1] == w[|w| - 1]
    decreases |words|
  {
    if |words| > 1 {
      SpacedLastChar(words[1..], gaps[1..]);
    }
  }

  /** Spaced words hold no character that neither the words nor the gaps hold. */
  lemma {:induction false} SpacedExcludes(words: seq<string>, gaps: seq<string>, c: char)
    requires |words| <= |gaps| + 1
    requires NoneContains(words, c) && NoneContains(gaps, c)
    ensures c !in Spaced(words, gaps)
    decreases |words|
  {
    if |words| > 1 {
      SpacedExcludes(words[1..], gaps[1..], c);
    }
  }

  /** A field holds no character the string does not hold. */
  lemma {:induction false} FieldsExclude(s: string, c: char)
    requires c !in s
    ensures NoneContains(Fields(s), c)
    decreases |s|
  {
    var t := s[LeadingSpaces(s)..];
    if |t| > 0 {
      var w := WordLength(t);
      InfixExcludes(s, LeadingSpaces(s), |s|, c);
      assert t == s[LeadingSpaces(s)..|s|];
      InfixExcludes(t, 0, w, c);
      assert t[..w] == t[0..w];
      InfixExcludes(t, w, |t|, c);
      assert t[w..] == t[w..|t|];
      FieldsExclude(t[w..], c);
      NoneContainsConcat([t[..w]], Fields(t[w..]), c);
    }
  }
}
