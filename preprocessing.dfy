/**
 * The text normaliser clean_text of jd-matching-project/src/preprocessing.py.
 *
 * clean_text lower-cases its argument, deletes every run of decimal digits,
 * deletes every ASCII punctuation character and finally splits the text on
 * whitespace and joins the pieces with single spaces. A non-string argument
 * yields the empty string. Characters are modelled as ASCII: the character
 * classes below are those Python uses for the 128 ASCII code points, and a
 * non-ASCII character is treated as a letter that is not cased.
 */
module Preprocessing {

  /** The argument of clean_text: a Python str, or any other object. */
  datatype Text = Str(s: string) | NotAString

  // ----------------------------------------------------------------------
  // Character classes
  // ----------------------------------------------------------------------

  /** The characters str.lower changes: the ASCII capital letters. */
  predicate IsUpper(c: char) {
    'A' <= c <= 'Z'
  }

  /** str.lower on one ASCII character. */
  function ToLower(c: char): char {
    if IsUpper(c) then (c as int + 32) as char else c
  }

  /** The characters the regular expression class \d matches among ASCII. */
  predicate IsDigit(c: char) {
    '0' <= c <= '9'
  }

  /** Python's string.punctuation: the 32 ASCII punctuation characters. */
  const Punctuation: string := "!\"#$%&'()*+,-./:;<=>?@[\\]^_`{|}~"

  predicate IsPunctuation(c: char) {
    c in Punctuation
  }

  /**
   * The characters str.split() with no argument splits on, among ASCII:
   * tab, line feed, vertical tab, form feed, carriage return, the four
   * information separators 0x1C-0x1F, and the space.
   */
  predicate IsSpace(c: char) {
    9 <= c as int <= 13 || 28 <= c as int <= 32
  }

  predicate NotDigit(c: char) { !IsDigit(c) }

  predicate NotPunctuation(c: char) { !IsPunctuation(c) }

  predicate NotSpace(c: char) { !IsSpace(c) }

  /** A character that survives clean_text as part of a word. */
  predicate IsWordChar(c: char) {
    !IsDigit(c) && !IsPunctuation(c) && !IsSpace(c)
  }

  /** A character allowed anywhere in clean_text's output. */
  predicate IsCleanChar(c: char) {
    !IsUpper(c) && !IsDigit(c) && !IsPunctuation(c)
  }

  /** The members of string.punctuation are exactly the printable ASCII
      characters that are neither letters, digits nor the space. */
  lemma PunctuationIsPrintableSymbols(c: char)
    ensures IsPunctuation(c) <==>
              (33 <= c as int <= 126 && !IsDigit(c) && !('a' <= c <= 'z') && !IsUpper(c))
    ensures |Punctuation| == 32
  {
  }

  // ----------------------------------------------------------------------
  // Deleting characters
  // ----------------------------------------------------------------------

  /** The characters of s that satisfy keep, in their order. */
  function Filter(s: string, keep: char -> bool): (r: string)
    ensures |r| <= |s|
    ensures forall c :: c in r <==> c in s && keep(c)
  {
    if s == [] then []
    else (if keep(s[0]) then [s[0]] else []) + Filter(s[1..], keep)
  }

  lemma {:induction false} FilterAppend(a: string, b: string, keep: char -> bool)
    ensures Filter(a + b, keep) == Filter(a, keep) + Filter(b, keep)
  {
    if a == [] {
      assert a + b == b;
    } else {
      assert (a + b)[1..] == a[1..] + b;
      FilterAppend(a[1..], b, keep);
    }
  }

  lemma {:induction false} FilterKeepsAll(s: string, keep: char -> bool)
    requires forall c :: c in s ==> keep(c)
    ensures Filter(s, keep) == s
  {
    if s != [] {
      FilterKeepsAll(s[1..], keep);
    }
  }

  lemma {:induction false} FilterFilter(s: string, p: char -> bool, q: char -> bool, both: char -> bool)
    requires forall c :: both(c) == (p(c) && q(c))
    ensures Filter(Filter(s, p), q) == Filter(s, both)
  {
    if s != [] {
      var c, rest := s[0], s[1..];
      var f := Filter(rest, p);
      FilterFilter(rest, p, q, both);
      assert Filter(f, q) == Filter(rest, both);
      if p(c) {
        var g := [c] + f;
        assert Filter(s, p) == g;
        assert g[0] == c && g[1..] == f;
        assert Filter(g, q) == (if q(c) then [c] else []) + Filter(f, q);
      } else {
        assert Filter(s, p) == f;
      }
      assert both(c) == (p(c) && q(c));
    }
  }

  // ----------------------------------------------------------------------
  // The steps of clean_text
  // ----------------------------------------------------------------------

  /** text.lower() */
  function Lower(s: string): (r: string)
    ensures |r| == |s|
    ensures forall i :: 0 <= i < |s| ==> r[i] == ToLower(s[i])
    ensures forall c :: c in r ==> !IsUpper(c)
  {
    if s == [] then [] else [ToLower(s[0])] + Lower(s[1..])
  }

  /** Lower-casing leaves a text without capital letters unchanged. */
  lemma {:induction false} LowerOfLower(s: string)
    requires forall c :: c in s ==> !IsUpper(c)
    ensures Lower(s) == s
  {
    assert forall i :: 0 <= i < |s| ==> Lower(s)[i] == s[i];
  }

  /** The longest suffix of s that does not start with a digit. */
  function DropDigitRun(s: string): (r: string)
    ensures |r| <= |s| && r == s[|s| - |r|..]
    ensures r == [] || !IsDigit(r[0])
    ensures forall i :: 0 <= i < |s| - |r| ==> IsDigit(s[i])
  {
    if s != [] && IsDigit(s[0]) then DropDigitRun(s[1..]) else s
  }

  /** re.sub(r"\d+", "", text): scan left to right, and delete every
      maximal run of digits as one match. */
  function StripDigits(s: string): (r: string)
    ensures |r| <= |s|
    decreases |s|
  {
    if s == [] then []
    else if IsDigit(s[0]) then StripDigits(DropDigitRun(s))
    else [s[0]] + StripDigits(s[1..])
  }

  lemma {:induction false} DropDigitRunDeletesDigits(s: string)
    ensures Filter(DropDigitRun(s), NotDigit) == Filter(s, NotDigit)
  {
    if s != [] && IsDigit(s[0]) {
      DropDigitRunDeletesDigits(s[1..]);
    }
  }

  /** Deleting runs of digits is the same as deleting each digit: removed
      digits leave nothing, not even a space, behind. */
  lemma {:induction false} StripDigitsDeletesEachDigit(s: string)
    ensures StripDigits(s) == Filter(s, NotDigit)
    decreases |s|
  {
    if s != [] {
      if IsDigit(s[0]) {
        DropDigitRunDeletesDigits(s);
        StripDigitsDeletesEachDigit(DropDigitRun(s));
      } else {
        StripDigitsDeletesEachDigit(s[1..]);
      }
    }
  }

  /** text.translate(str.maketrans("", "", string.punctuation)) */
  function StripPunctuation(s: string): (r: string)
    ensures |r| <= |s|
    ensures forall c :: c in r <==> c in s && !IsPunctuation(c)
  {
    Filter(s, NotPunctuation)
  }

  // ----------------------------------------------------------------------
  // " ".join(text.split())
  // ----------------------------------------------------------------------

  /** A piece that str.split() returns: non-empty and free of whitespace. */
  predicate IsWord(w: string) {
    w != [] && forall c :: c in w ==> NotSpace(c)
  }

  /** The longest prefix of s that holds no whitespace. */
  function Word(s: string): (w: string)
    ensures |w| <= |s| && w == s[..|w|]
    ensures forall c :: c in w ==> NotSpace(c)
    ensures |w| < |s| ==> IsSpace(s[|w|])
    ensures s != [] && NotSpace(s[0]) ==> w != []
  {
    if s == [] || IsSpace(s[0]) then [] else [s[0]] + Word(s[1..])
  }

  /** text.split(): the maximal runs of non-whitespace characters, in order. */
  function Split(s: string): (ws: seq<string>)
    ensures forall i :: 0 <= i < |ws| ==> IsWord(ws[i])
    decreases |s|
  {
    if s == [] then []
    else if IsSpace(s[0]) then Split(s[1..])
    else
      var w := Word(s);
      [w] + Split(s[|w|..])
  }

  /** " ".join(words): exactly one separator between consecutive words. */
  function Join(ws: seq<string>): (r: string)
    ensures |r| == |Concat(ws)| + (if ws == [] then 0 else |ws| - 1)
  {
    if |ws| == 0 then []
    else if |ws| == 1 then assert ws[1..] == []; ws[0]
    else ws[0] + [' '] + Join(ws[1..])
  }

  /** The concatenation of the words, with nothing between them. */
  function Concat(ws: seq<string>): string {
    if ws == [] then [] else ws[0] + Concat(ws[1..])
  }

  /** A whitespace-free, non-empty text is a single piece. */
  lemma {:induction false} SplitOfWord(w: string)
    requires IsWord(w)
    ensures Split(w) == [w]
  {
    WordOfWordThenSpace(w, []);
    assert w + [] == w;
    assert w[|w|..] == [];
  }

  /** A whitespace character cuts the text: the pieces of the whole are the
      pieces before it followed by the pieces after it. With SplitOfWord and
      Split([]) == [] this fixes the pieces of every text. */
  lemma {:induction false} SplitAroundSpace(a: string, c: char, b: string)
    requires IsSpace(c)
    ensures Split(a + [c] + b) == Split(a) + Split(b)
    decreases |a|
  {
    var s := a + [c] + b;
    if a == [] {
      assert s == [c] + b;
      assert s[1..] == b;
    } else if IsSpace(a[0]) {
      assert s[0] == a[0];
      assert s[1..] == a[1..] + [c] + b;
      SplitAroundSpace(a[1..], c, b);
    } else {
      var w := Word(a);
      var rest := a[|w|..];
      assert a == w + rest;
      assert s == w + (rest + [c] + b);
      WordOfWordThenSpace(w, rest + [c] + b);
      assert s[0] == a[0];
      assert s[|w|..] == rest + [c] + b;
      SplitAroundSpace(rest, c, b);
      assert Split(a) == [w] + Split(rest);
    }
  }

  /** Joining two non-empty lists of words puts one space between them. */
  lemma {:induction false} JoinAppend(xs: seq<string>, ys: seq<string>)
    requires xs != [] && ys != []
    ensures Join(xs + ys) == Join(xs) + [' '] + Join(ys)
  {
    var zs := xs + ys;
    assert zs[0] == xs[0];
    if |xs| == 1 {
      assert zs[1..] == ys;
    } else {
      assert zs[1..] == xs[1..] + ys;
      JoinAppend(xs[1..], ys);
    }
  }

  /** The whitespace shape of clean_text's output: the only whitespace is
      the space, it neither starts nor ends the text, and no two
      whitespace characters are adjacent. */
  predicate IsSingleSpaced(r: string) {
    && (forall i :: 0 <= i < |r| && IsSpace(r[i]) ==> r[i] == ' ')
    && (r != [] ==> NotSpace(r[0]) && NotSpace(r[|r| - 1]))
    && (forall i :: 0 < i < |r| && IsSpace(r[i]) ==> NotSpace(r[i - 1]))
  }

  /** The words of a text are its non-whitespace characters, in order. */
  lemma {:induction false} SplitKeepsNonSpace(s: string)
    ensures Concat(Split(s)) == Filter(s, NotSpace)
    decreases |s|
  {
    if s != [] {
      if IsSpace(s[0]) {
        SplitKeepsNonSpace(s[1..]);
      } else {
        var w := Word(s);
        var rest := s[|w|..];
        assert s == w + rest;
        SplitKeepsNonSpace(rest);
        FilterAppend(w, rest, NotSpace);
        FilterKeepsAll(w, NotSpace);
        var ws := Split(s);
        assert ws == [w] + Split(rest);
        assert ws[0] == w && ws[1..] == Split(rest);
      }
    }
  }

  /** Joining words with single spaces gives a single-spaced text, which is
      empty exactly when there are no words. */
  lemma {:induction false} JoinIsSingleSpaced(ws: seq<string>)
    requires forall i :: 0 <= i < |ws| ==> IsWord(ws[i])
    ensures IsSingleSpaced(Join(ws))
    ensures Join(ws) == [] <==> ws == []
    ensures ws != [] ==> Join(ws)[0] == ws[0][0]
  {
    if |ws| == 1 {
      var w := ws[0];
      assert forall i :: 0 <= i < |w| ==> w[i] in w;
    } else if |ws| > 1 {
      var w := ws[0];
      var tail := Join(ws[1..]);
      JoinIsSingleSpaced(ws[1..]);
      var r := Join(ws);
      assert r == w + [' '] + tail;
      assert forall i :: 0 <= i < |w| ==> w[i] in w;
      assert r[|w| + 1] == tail[0];
      forall i | 0 <= i < |r| && IsSpace(r[i])
        ensures r[i] == ' '
      {
        if i > |w| {
          assert r[i] == tail[i - |w| - 1];
        }
      }
      forall i | 0 < i < |r| && IsSpace(r[i])
        ensures NotSpace(r[i - 1])
      {
        if i > |w| + 1 {
          assert r[i] == tail[i - |w| - 1];
          assert r[i - 1] == tail[i - |w| - 2];
        }
      }
      assert r[|r| - 1] == tail[|tail| - 1];
    }
  }

  /** Deleting the spaces of a join gives back the words, run together. */
  lemma {:induction false} JoinKeepsWords(ws: seq<string>)
    requires forall i :: 0 <= i < |ws| ==> IsWord(ws[i])
    ensures Filter(Join(ws), NotSpace) == Concat(ws)
  {
    if |ws| == 1 {
      FilterKeepsAll(ws[0], NotSpace);
      assert Concat(ws[1..]) == [];
    } else if |ws| > 1 {
      JoinKeepsWords(ws[1..]);
      FilterKeepsAll(ws[0], NotSpace);
      FilterAppend(ws[0] + [' '], Join(ws[1..]), NotSpace);
      FilterAppend(ws[0], [' '], NotSpace);
    }
  }

  /** Word stops exactly at the end of a whitespace-free prefix. */
  lemma {:induction false} WordOfWordThenSpace(w: string, t: string)
    requires forall c :: c in w ==> NotSpace(c)
    requires t == [] || IsSpace(t[0])
    ensures Word(w + t) == w
  {
    if w == [] {
      assert w + t == t;
    } else {
      assert (w + t)[0] == w[0];
      assert (w + t)[1..] == w[1..] + t;
      WordOfWordThenSpace(w[1..], t);
    }
  }

  /** Splitting a single-spaced join of words gives the words back. */
  lemma {:induction false} SplitJoinRoundTrip(ws: seq<string>)
    requires forall i :: 0 <= i < |ws| ==> IsWord(ws[i])
    ensures Split(Join(ws)) == ws
  {
    if |ws| == 1 {
      var w := ws[0];
      WordOfWordThenSpace(w, []);
      assert w + [] == w;
      assert w[|w|..] == [];
    } else if |ws| > 1 {
      var w := ws[0];
      var tail := Join(ws[1..]);
      var s := Join(ws);
      assert s == w + ([' '] + tail);
      WordOfWordThenSpace(w, [' '] + tail);
      assert s[|w|..] == [' '] + tail;
      assert (s[|w|..])[1..] == tail;
      SplitJoinRoundTrip(ws[1..]);
      assert ws == [w] + ws[1..];
    }
  }

  /** Collapsing whitespace never lengthens a text. */
  lemma {:induction false} JoinSplitNoLonger(s: string)
    ensures |Join(Split(s))| <= |s|
    decreases |s|
  {
    if s != [] {
      if IsSpace(s[0]) {
        JoinSplitNoLonger(s[1..]);
      } else {
        var w := Word(s);
        var rest := s[|w|..];
        var ws := Split(rest);
        assert Split(s) == [w] + ws;
        if ws != [] {
          assert rest != [] && IsSpace(rest[0]);
          assert Split(rest) == Split(rest[1..]);
          JoinSplitNoLonger(rest[1..]);
          assert ([w] + ws)[1..] == ws;
        }
      }
    }
  }

  // ----------------------------------------------------------------------
  // clean_text
  // ----------------------------------------------------------------------

  /** The text clean_text works on once it is lower-cased and stripped of
      digits and punctuation, before the whitespace is collapsed. */
  function Stripped(s: string): string {
    StripPunctuation(StripDigits(Lower(s)))
  }

  /** clean_text(text) */
  function CleanText(t: Text): (r: string)
    ensures t.NotAString? ==> r == []
  {
    match t
    case NotAString => []
    case Str(s) => Join(Split(Stripped(s)))
  }

  /** The characters of the stripped text, in order, are the lower-cased
      input's characters that are neither digits nor punctuation. */
  lemma {:induction false} StrippedKeeps(s: string)
    ensures Stripped(s) == Filter(Lower(s), NotDigitNorPunctuation)
  {
    StripDigitsDeletesEachDigit(Lower(s));
    FilterFilter(Lower(s), NotDigit, NotPunctuation, NotDigitNorPunctuation);
  }

  predicate NotDigitNorPunctuation(c: char) { !IsDigit(c) && !IsPunctuation(c) }

  /** Lower-casing works character by character. */
  lemma LowerAppend(a: string, b: string)
    ensures Lower(a + b) == Lower(a) + Lower(b)
  {
    assert forall i :: 0 <= i < |a + b| ==> Lower(a + b)[i] == (Lower(a) + Lower(b))[i];
  }

  /** A whitespace character survives lower-casing and stripping in place. */
  lemma {:induction false} StrippedAroundSpace(a: string, c: char, b: string)
    requires IsSpace(c)
    ensures Stripped(a + [c] + b) == Stripped(a) + [c] + Stripped(b)
  {
    PunctuationIsPrintableSymbols(c);
    LowerAppend(a + [c], b);
    LowerAppend(a, [c]);
    assert Lower([c]) == [c];
    StrippedKeeps(a + [c] + b);
    StrippedKeeps(a);
    StrippedKeeps(b);
    FilterAppend(Lower(a) + [c], Lower(b), NotDigitNorPunctuation);
    FilterAppend(Lower(a), [c], NotDigitNorPunctuation);
    assert Filter([c], NotDigitNorPunctuation) == [c] by {
      assert [c][1..] == [];
    }
  }

  /** The output's non-whitespace characters are exactly, in order, the
      lower-cased input's characters that are not digits, punctuation or
      whitespace. */
  lemma {:induction false} CleanTextKeepsWordChars(s: string)
    ensures Filter(CleanText(Str(s)), NotSpace) == Filter(Lower(s), IsWordChar)
  {
    var p := Stripped(s);
    JoinKeepsWords(Split(p));
    SplitKeepsNonSpace(p);
    StrippedKeeps(s);
    FilterFilter(Lower(s), NotDigitNorPunctuation, NotSpace, IsWordChar);
  }

  /** Removed digits and punctuation leave no space behind: a text without
      whitespace cleans to its lower-cased word characters, run together.
      With CleanTextAtSpace this fixes the output for every string. */
  lemma {:induction false} CleanTextOfWord(s: string)
    requires forall c :: c in s ==> NotSpace(c)
    ensures CleanText(Str(s)) == Filter(Lower(s), IsWordChar)
  {
    var l := Lower(s);
    forall c | c in l
      ensures NotSpace(c)
    {
      var i :| 0 <= i < |l| && l[i] == c;
      assert s[i] in s;
    }
    var p := Stripped(s);
    StrippedKeeps(s);
    FilterFilter(l, NotDigitNorPunctuation, NotSpace, IsWordChar);
    FilterKeepsAll(p, NotSpace);
    if p != [] {
      SplitOfWord(p);
      assert Join([p]) == p;
    }
  }

  /** The output has single spaces between words and no other whitespace. */
  lemma {:induction false} CleanTextIsSingleSpaced(t: Text)
    ensures IsSingleSpaced(CleanText(t))
  {
    if t.Str? {
      JoinIsSingleSpaced(Split(Stripped(t.s)));
    }
  }

  /** The output holds no capital letter, no digit and no punctuation. */
  lemma {:induction false} CleanTextHasOnlyCleanChars(t: Text)
    ensures forall c :: c in CleanText(t) ==> IsCleanChar(c)
  {
    if t.Str? {
      var r := CleanText(t);
      var lowered := Lower(t.s);
      CleanTextIsSingleSpaced(t);
      CleanTextKeepsWordChars(t.s);
      forall i | 0 <= i < |r|
        ensures IsCleanChar(r[i])
      {
        var c := r[i];
        if IsSpace(c) {
          assert c == ' ';
          PunctuationIsPrintableSymbols(c);
        } else {
          assert c in Filter(r, NotSpace);
          assert c in Filter(lowered, IsWordChar);
          assert c in lowered && IsWordChar(c);
        }
      }
    }
  }

  /** A whitespace character between two texts becomes exactly one space
      between their cleaned forms, or disappears when either is empty. */
  lemma {:induction false} CleanTextAtSpace(a: string, c: char, b: string)
    requires IsSpace(c)
    ensures var left, right := CleanText(Str(a)), CleanText(Str(b));
            CleanText(Str(a + [c] + b)) ==
              if left == [] then right else if right == [] then left else left + [' '] + right
  {
    var xs, ys := Split(Stripped(a)), Split(Stripped(b));
    StrippedAroundSpace(a, c, b);
    SplitAroundSpace(Stripped(a), c, Stripped(b));
    JoinIsSingleSpaced(xs);
    JoinIsSingleSpaced(ys);
    if xs == [] {
      assert xs + ys == ys;
    } else if ys == [] {
      assert xs + ys == xs;
    } else {
      JoinAppend(xs, ys);
    }
  }

  /** The output is never longer than the input. */
  lemma {:induction false} CleanTextNoLonger(s: string)
    ensures |CleanText(Str(s))| <= |s|
  {
    JoinSplitNoLonger(Stripped(s));
  }

  /** Cleaning a cleaned text changes nothing. */
  lemma {:induction false} CleanTextIdempotent(t: Text)
    ensures CleanText(Str(CleanText(t))) == CleanText(t)
  {
    var r := CleanText(t);
    CleanTextHasOnlyCleanChars(t);
    LowerOfLower(r);
    StripDigitsDeletesEachDigit(r);
    FilterKeepsAll(r, NotDigit);
    FilterKeepsAll(r, NotPunctuation);
    assert Stripped(r) == r;
    if t.Str? {
      SplitJoinRoundTrip(Split(Stripped(t.s)));
    }
  }
}
