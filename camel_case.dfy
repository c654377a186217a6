/**
 * SplitCamelCase: two regular-expression substitutions run one after the
 * other, each a left-to-right scan with non-overlapping matches.
 *   pass 1  (\P{Ll})(\P{Ll}\p{Ll})  ->  "$1 $2"   acronym followed by a word
 *   pass 2  (\p{Ll})(\P{Ll})        ->  "$1 $2"   lowercase letter followed by
 *                                                 anything that is not one
 */
module CamelCase {
  import opened Strings

  /** The Unicode category `Ll` (lowercase letter), restricted to ASCII. */
  predicate IsLower(c: char)
  {
    'a' <= c <= 'z'
  }

  /** The two substitutions, in the order SplitCamelCase runs them. */
  datatype Pass = AcronymPass | WordPass

  /** Number of characters one match of the pass's pattern covers. */
  function Width(p: Pass): nat
  {
    match p
    case AcronymPass => 3
    case WordPass => 2
  }

  /** The pass's pattern matches s at position i. */
  predicate MatchAt(p: Pass, s: string, i: nat)
  {
    match p
    case AcronymPass => i + 2 < |s| && !IsLower(s[i]) && !IsLower(s[i + 1]) && IsLower(s[i + 2])
    case WordPass => i + 1 < |s| && IsLower(s[i]) && !IsLower(s[i + 1])
  }

  /**
   * `Regex.Replace(s, pattern, "$1 $2")` with the scan standing at position
   * k: a match there is copied with a space after its first character and
   * the scan resumes after the match; otherwise one character is copied.
   */
  function Replace(p: Pass, s: string, k: nat): string
    requires k <= |s|
    decreases |s| - k
  {
    if k == |s| then []
    else if MatchAt(p, s, k) then [s[k], ' '] + s[k + 1..k + Width(p)] + Replace(p, s, k + Width(p))
    else [s[k]] + Replace(p, s, k + 1)
  }

  /**
   * `str.SplitCamelCase()`: pass 1 over the input, then pass 2 over its
   * result. It only inserts spaces: deleting them gives back the input.
   */
  function SplitCamelCase(s: string): (r: string)
    ensures SpacesInserted(s, r)
  {
    var once := Replace(AcronymPass, s, 0);
    ReplaceInsertsSpaces(AcronymPass, s);
    ReplaceInsertsSpaces(WordPass, once);
    SpacesInsertedTransitive(s, once, Replace(WordPass, once, 0));
    Replace(WordPass, once, 0)
  }

  // ---------------------------------------------------------------------
  // Reference definition: where each pass puts its spaces
  // ---------------------------------------------------------------------

  /** The pass puts a space in front of s[j]: a match starts at j - 1. */
  predicate BreakBefore(p: Pass, s: string, j: nat)
  {
    0 < j && MatchAt(p, s, j - 1)
  }

  /** s[k..] with a space in front of every character the pass breaks before. */
  function InsertBreaks(p: Pass, s: string, k: nat): string
    requires k <= |s|
    decreases |s| - k
  {
    if k == |s| then []
    else (if BreakBefore(p, s, k) then " " else "") + [s[k]] + InsertBreaks(p, s, k + 1)
  }

  /** A match forbids another match to start inside it. */
  lemma MatchesDoNotOverlap(p: Pass, s: string, i: nat, j: nat)
    requires MatchAt(p, s, i) && i < j < i + Width(p)
    ensures !MatchAt(p, s, j)
  {
  }

  /** At a match, the reference definition spells out the replacement text. */
  lemma InsertBreaksAtMatch(p: Pass, s: string, k: nat)
    requires MatchAt(p, s, k) && !BreakBefore(p, s, k)
    ensures InsertBreaks(p, s, k) == [s[k], ' '] + s[k + 1..k + Width(p)] + InsertBreaks(p, s, k + Width(p))
  {
    var rest := InsertBreaks(p, s, k + Width(p));
    assert InsertBreaks(p, s, k) == [s[k]] + InsertBreaks(p, s, k + 1);
    if p == AcronymPass {
      MatchesDoNotOverlap(p, s, k, k + 1);
      var tail := [s[k + 2]] + rest;
      assert InsertBreaks(p, s, k + 2) == tail;
      assert InsertBreaks(p, s, k + 1) == " " + [s[k + 1]] + tail;
      assert s[k + 1..k + 3] == [s[k + 1], s[k + 2]];
      AcronymRegroup(s[k], s[k + 1], s[k + 2], rest);
    } else {
      assert InsertBreaks(p, s, k + 1) == " " + [s[k + 1]] + rest;
      assert s[k + 1..k + 2] == [s[k + 1]];
      WordRegroup(s[k], s[k + 1], rest);
    }
  }

  /** The pieces of a pass 1 replacement, grouped two ways. */
  lemma AcronymRegroup(a: char, b: char, c: char, r: string)
    ensures [a] + (" " + [b] + ([c] + r)) == [a, ' '] + [b, c] + r
  {
  }

  /** The pieces of a pass 2 replacement, grouped two ways. */
  lemma WordRegroup(a: char, b: char, r: string)
    ensures [a] + (" " + [b] + r) == [a, ' '] + [b] + r
  {
  }

  /**
   * The left-to-right scan puts a space exactly where the reference
   * definition does: the regex never skips a match because of an earlier,
   * overlapping one.
   */
  lemma {:induction false} ReplaceIsInsertBreaks(p: Pass, s: string, k: nat)
    requires k <= |s| && !BreakBefore(p, s, k)
    ensures Replace(p, s, k) == InsertBreaks(p, s, k)
    decreases |s| - k
  {
    if k == |s| {
    } else if MatchAt(p, s, k) {
      MatchesDoNotOverlap(p, s, k, k + Width(p) - 1);
      ReplaceAtMatch(p, s, k);
      ReplaceIsInsertBreaks(p, s, k + Width(p));
      InsertBreaksAtMatch(p, s, k);
    } else {
      ReplaceAtNoMatch(p, s, k);
      ReplaceIsInsertBreaks(p, s, k + 1);
      InsertBreaksWithoutBreak(p, s, k);
    }
  }

  /** Where the pass puts no space, the reference definition copies one character. */
  lemma InsertBreaksWithoutBreak(p: Pass, s: string, k: nat)
    requires k < |s| && !BreakBefore(p, s, k)
    ensures InsertBreaks(p, s, k) == [s[k]] + InsertBreaks(p, s, k + 1)
  {
  }

  /** The reference definition only adds spaces to s[k..]. */
  lemma {:induction false} InsertBreaksInsertsSpaces(p: Pass, s: string, k: nat)
    requires k <= |s|
    ensures SpacesInserted(s[k..], InsertBreaks(p, s, k))
    decreases |s| - k
  {
    if k < |s| {
      InsertBreaksInsertsSpaces(p, s, k + 1);
      var rest := InsertBreaks(p, s, k + 1);
      assert s[k..][1..] == s[k + 1..];
      assert SpacesInserted(s[k..], [s[k]] + rest) by {
        assert ([s[k]] + rest)[1..] == rest;
      }
      if BreakBefore(p, s, k) {
        assert (" " + [s[k]] + rest)[1..] == [s[k]] + rest;
      }
    }
  }

  /** Each pass only inserts spaces. */
  lemma ReplaceInsertsSpaces(p: Pass, s: string)
    ensures SpacesInserted(s, Replace(p, s, 0))
  {
    ReplaceIsInsertBreaks(p, s, 0);
    InsertBreaksInsertsSpaces(p, s, 0);
    assert s[0..] == s;
  }

  /**
   * SplitCamelCase puts a space in front of every character that pass 1
   * breaks before in the input, then in front of every character that
   * pass 2 breaks before in that result, and changes nothing else.
   */
  lemma SplitCamelCaseBreaks(s: string)
    ensures SplitCamelCase(s) == InsertBreaks(WordPass, InsertBreaks(AcronymPass, s, 0), 0)
  {
    ReplaceIsInsertBreaks(AcronymPass, s, 0);
    ReplaceIsInsertBreaks(WordPass, Replace(AcronymPass, s, 0), 0);
  }

  // ---------------------------------------------------------------------
  // Inputs SplitCamelCase leaves alone, and worked examples
  // ---------------------------------------------------------------------

  /** A pass where its pattern does not match copies one character. */
  lemma ReplaceAtNoMatch(p: Pass, s: string, k: nat)
    requires k < |s| && !MatchAt(p, s, k)
    ensures Replace(p, s, k) == [s[k]] + Replace(p, s, k + 1)
  {
  }

  /** A non-empty slice is its first character and the rest. */
  lemma SliceCons(s: string, k: nat, m: nat)
    requires k < m <= |s|
    ensures s[k..m] == [s[k]] + s[k + 1..m]
  {
  }

  /** One character in front of two strings, grouped two ways. */
  lemma ConsRegroup(c: char, a: string, r: string)
    ensures [c] + (a + r) == ([c] + a) + r
  {
  }

  /** A pass copies every character from k up to m at which it finds no match. */
  lemma {:induction false} ReplaceCopies(p: Pass, s: string, k: nat, m: nat)
    requires k <= m <= |s|
    requires forall i :: k <= i < m ==> !MatchAt(p, s, i)
    ensures Replace(p, s, k) == s[k..m] + Replace(p, s, m)
    decreases m - k
  {
    if k < m {
      ReplaceCopies(p, s, k + 1, m);
      ReplaceAtNoMatch(p, s, k);
      SliceCons(s, k, m);
      ConsRegroup(s[k], s[k + 1..m], Replace(p, s, m));
    }
  }

  /** A pass copies the rest of the string when its pattern matches nowhere in it. */
  lemma ReplaceCopiesRest(p: Pass, s: string, k: nat)
    requires k <= |s|
    requires forall i :: k <= i < |s| ==> !MatchAt(p, s, i)
    ensures Replace(p, s, k) == s[k..]
  {
    ReplaceCopies(p, s, k, |s|);
    assert s[k..|s|] + Replace(p, s, |s|) == s[k..];
  }

  /** What a pass does from position |a| + j of a + b depends on b alone. */
  lemma {:induction false} ReplaceSuffix(p: Pass, a: string, b: string, j: nat)
    requires j <= |b|
    ensures Replace(p, a + b, |a| + j) == Replace(p, b, j)
    decreases |b| - j
  {
    if j < |b| {
      if MatchAt(p, b, j) {
        MatchFits(p, b, j);
        ReplaceSuffix(p, a, b, j + Width(p));
        ReplaceSuffixAtMatch(p, a, b, j);
      } else {
        ReplaceSuffix(p, a, b, j + 1);
        ReplaceSuffixAtNoMatch(p, a, b, j);
      }
    }
  }

  /** The step of ReplaceSuffix at a match. */
  lemma ReplaceSuffixAtMatch(p: Pass, a: string, b: string, j: nat)
    requires j < |b| && MatchAt(p, b, j)
    requires j + Width(p) <= |b|
    requires Replace(p, a + b, |a| + j + Width(p)) == Replace(p, b, j + Width(p))
    ensures Replace(p, a + b, |a| + j) == Replace(p, b, j)
  {
    var s, k, w := a + b, |a| + j, Width(p);
    MatchAtSuffix(p, a, b, j);
    ReplaceAtMatch(p, s, k);
    ReplaceAtMatch(p, b, j);
    SliceOfAppend(a, b, k + 1, k + w);
    assert k + 1 - |a| == j + 1 && k + w - |a| == j + w;
    MatchedTextEqual(s[k], b[j], s[k + 1..k + w], b[j + 1..j + w], Replace(p, s, k + w), Replace(p, b, j + w));
  }

  /** Equal pieces make equal replacement texts. */
  lemma MatchedTextEqual(c: char, d: char, x: string, y: string, r: string, t: string)
    requires c == d && x == y && r == t
    ensures [c, ' '] + x + r == [d, ' '] + y + t
  {
  }

  /** A match lies inside the string. */
  lemma MatchFits(p: Pass, s: string, k: nat)
    requires MatchAt(p, s, k)
    ensures k + Width(p) <= |s|
  {
  }

  /** A slice of a + b beyond a is a slice of b. */
  lemma SliceOfAppend(a: string, b: string, i: nat, j: nat)
    requires |a| <= i <= j <= |a| + |b|
    ensures (a + b)[i..j] == b[i - |a|..j - |a|]
  {
  }

  /** The step of ReplaceSuffix where there is no match. */
  lemma ReplaceSuffixAtNoMatch(p: Pass, a: string, b: string, j: nat)
    requires j < |b| && !MatchAt(p, b, j)
    requires Replace(p, a + b, |a| + j + 1) == Replace(p, b, j + 1)
    ensures Replace(p, a + b, |a| + j) == Replace(p, b, j)
  {
    MatchAtSuffix(p, a, b, j);
    ReplaceAtNoMatch(p, a + b, |a| + j);
    ReplaceAtNoMatch(p, b, j);
    assert (a + b)[|a| + j] == b[j];
  }

  /** Whether a pattern matches inside b does not depend on what precedes b. */
  lemma MatchAtSuffix(p: Pass, a: string, b: string, j: nat)
    requires j < |b|
    ensures MatchAt(p, a + b, |a| + j) == MatchAt(p, b, j)
    ensures (a + b)[|a| + j] == b[j]
  {
    assert forall i :: j <= i < |b| ==> (a + b)[|a| + i] == b[i];
  }

  /** A pass where its pattern matches copies the match with a space inserted. */
  lemma ReplaceAtMatch(p: Pass, s: string, k: nat)
    requires MatchAt(p, s, k)
    ensures k + Width(p) <= |s|
    ensures Replace(p, s, k) == [s[k], ' '] + s[k + 1..k + Width(p)] + Replace(p, s, k + Width(p))
  {
  }

  /** A string in which neither pattern matches comes back unchanged. */
  lemma SplitCamelCaseWithoutMatch(s: string)
    requires forall i :: 0 <= i < |s| ==> !MatchAt(AcronymPass, s, i) && !MatchAt(WordPass, s, i)
    ensures SplitCamelCase(s) == s
  {
    ReplaceCopies(AcronymPass, s, 0, |s|);
    assert s[0..|s|] == s;
    assert Replace(AcronymPass, s, 0) == s;
    ReplaceCopies(WordPass, s, 0, |s|);
    assert Replace(WordPass, s, 0) == s;
  }

  /** A string with no lowercase letter comes back unchanged. */
  lemma NoLowercaseUnchanged(s: string)
    requires forall i :: 0 <= i < |s| ==> !IsLower(s[i])
    ensures SplitCamelCase(s) == s
  {
    SplitCamelCaseWithoutMatch(s);
  }

  /**
   * A single word (any first character, the rest lowercase; in particular
   * the empty string and an all-lowercase string) comes back unchanged.
   */
  lemma OneWordUnchanged(s: string)
    requires forall i :: 1 <= i < |s| ==> IsLower(s[i])
    ensures SplitCamelCase(s) == s
  {
    SplitCamelCaseWithoutMatch(s);
  }

  // ---------------------------------------------------------------------
  // Identifiers made of capitalised words
  // ---------------------------------------------------------------------

  /** A word of an identifier: one non-lowercase character, then at least one lowercase letter. */
  predicate IsCapitalisedWord(w: string)
  {
    |w| >= 2 && !IsLower(w[0]) && forall i :: 1 <= i < |w| ==> IsLower(w[i])
  }

  /** The words written one after the other, as in an identifier. */
  function Concat(ws: seq<string>): string
  {
    if ws == [] then [] else ws[0] + Concat(ws[1..])
  }

  /** The words separated by single spaces. */
  function JoinWords(ws: seq<string>): string
  {
    if ws == [] then [] else if |ws| == 1 then ws[0] else ws[0] + " " + JoinWords(ws[1..])
  }

  /** An identifier that starts with a word starts with that word's first character. */
  lemma ConcatHead(ws: seq<string>)
    requires ws != [] && ws[0] != []
    ensures Concat(ws) != [] && Concat(ws)[0] == ws[0][0]
  {
  }

  /** Pass 1 copies a leading capitalised word and carries on after it. */
  lemma AcronymPassSkipsWord(w: string, t: string)
    requires IsCapitalisedWord(w)
    ensures Replace(AcronymPass, w + t, 0) == w + Replace(AcronymPass, t, 0)
  {
    var s := w + t;
    assert forall i :: 0 <= i < |w| ==> s[i] == w[i];
    assert forall i :: 0 <= i < |w| ==> !MatchAt(AcronymPass, s, i);
    ReplaceCopies(AcronymPass, s, 0, |w|);
    ReplaceSuffix(AcronymPass, w, t, 0);
    assert s[0..|w|] == w;
  }

  /** Pass 2 copies everything up to the last letter of a leading capitalised word. */
  lemma WordPassCopiesWordStem(w: string, t: string)
    requires IsCapitalisedWord(w)
    ensures Replace(WordPass, w + t, 0) == w[..|w| - 1] + Replace(WordPass, w + t, |w| - 1)
  {
    var s := w + t;
    assert forall i :: 0 <= i < |w| ==> s[i] == w[i];
    assert forall i :: 0 <= i < |w| - 1 ==> !MatchAt(WordPass, s, i);
    ReplaceCopies(WordPass, s, 0, |w| - 1);
    assert s[0..|w| - 1] == w[..|w| - 1];
  }

  /** Three characters and a rest, grouped two ways. */
  lemma Regroup(a: char, b: char, c: char, r: string)
    ensures [a, b, c] + r == [a, b] + ([c] + r)
  {
  }

  /** Pass 2 at a match: the two characters with a space between them. */
  lemma WordPassAtMatch(s: string, k: nat)
    requires MatchAt(WordPass, s, k)
    ensures Replace(WordPass, s, k) == [s[k], ' ', s[k + 1]] + Replace(WordPass, s, k + 2)
  {
    assert s[k + 1..k + 2] == [s[k + 1]];
  }

  /** Pass 2 at a character that is not lowercase: no match. */
  lemma WordPassAtNonLower(s: string, k: nat)
    requires k < |s| && !IsLower(s[k])
    ensures Replace(WordPass, s, k) == [s[k]] + Replace(WordPass, s, k + 1)
  {
    assert !MatchAt(WordPass, s, k);
  }

  /** Pass 2 at a lowercase letter followed by a string that starts with a non-lowercase one: a match. */
  lemma WordPassAtWordEnd(w: string, t: string)
    requires w != [] && IsLower(w[|w| - 1]) && t != [] && !IsLower(t[0])
    ensures Replace(WordPass, w + t, |w| - 1) == [w[|w| - 1], ' '] + Replace(WordPass, t, 0)
  {
    var s, last := w + t, |w| - 1;
    assert s[last] == w[last] && s[|w|] == t[0];
    WordPassAtMatch(s, last);
    ReplaceSuffix(WordPass, w, t, 1);
    WordPassAtNonLower(t, 0);
    Regroup(w[last], ' ', t[0], Replace(WordPass, t, 1));
  }

  /** Pass 2 at the last letter of the last word: no match. */
  lemma WordPassAtLastWordEnd(w: string)
    requires IsCapitalisedWord(w)
    ensures Replace(WordPass, w, |w| - 1) == [w[|w| - 1]]
  {
    assert !MatchAt(WordPass, w, |w| - 1);
  }

  /**
   * Pass 2 copies a leading capitalised word and puts a space after it when
   * another word follows.
   */
  lemma WordPassSplitsAfterWord(w: string, t: string)
    requires IsCapitalisedWord(w)
    requires t != [] ==> !IsLower(t[0])
    ensures Replace(WordPass, w + t, 0) == if t == [] then w else w + " " + Replace(WordPass, t, 0)
  {
    var last := |w| - 1;
    WordPassCopiesWordStem(w, t);
    assert w[..last] + [w[last]] == w;
    if t == [] {
      assert w + t == w;
      WordPassAtLastWordEnd(w);
    } else {
      WordPassAtWordEnd(w, t);
      var rest := Replace(WordPass, t, 0);
      calc {
        Replace(WordPass, w + t, 0);
        w[..last] + ([w[last], ' '] + rest);
        (w[..last] + [w[last]]) + " " + rest;
      }
    }
  }

  /** Pass 1 finds nothing in an identifier made of capitalised words. */
  lemma {:induction false} AcronymPassKeepsWords(ws: seq<string>)
    requires forall i :: 0 <= i < |ws| ==> IsCapitalisedWord(ws[i])
    ensures Replace(AcronymPass, Concat(ws), 0) == Concat(ws)
  {
    if ws != [] {
      AcronymPassSkipsWord(ws[0], Concat(ws[1..]));
      AcronymPassKeepsWords(ws[1..]);
    }
  }

  /** Pass 2 puts one space between consecutive capitalised words. */
  lemma {:induction false} WordPassSeparatesWords(ws: seq<string>)
    requires forall i :: 0 <= i < |ws| ==> IsCapitalisedWord(ws[i])
    ensures Replace(WordPass, Concat(ws), 0) == JoinWords(ws)
  {
    if ws != [] {
      if |ws| > 1 {
        ConcatHead(ws[1..]);
      }
      WordPassSplitsAfterWord(ws[0], Concat(ws[1..]));
      WordPassSeparatesWords(ws[1..]);
    }
  }

  /**
   * An identifier made of capitalised words, such as a type tag, is split
   * into those words separated by single spaces.
   */
  lemma SplitCamelCaseWords(ws: seq<string>)
    requires forall i :: 0 <= i < |ws| ==> IsCapitalisedWord(ws[i])
    ensures SplitCamelCase(Concat(ws)) == JoinWords(ws)
  {
    AcronymPassKeepsWords(ws);
    WordPassSeparatesWords(ws);
  }

  /** An identifier of two capitalised words splits into them. */
  lemma TwoWords(a: string, b: string, identifier: string, words: string)
    requires IsCapitalisedWord(a) && IsCapitalisedWord(b)
    requires identifier == a + b && words == a + " " + b
    ensures SplitCamelCase(identifier) == words
  {
    var ws := [a, b];
    assert Concat(ws) == a + b by {
      assert ws[1..] == [b];
      assert Concat([b]) == b + Concat([]);
    }
    assert JoinWords(ws) == a + " " + b by {
      assert ws[1..] == [b];
    }
    SplitCamelCaseWords(ws);
  }

  /** An identifier of three capitalised words splits into them. */
  lemma ThreeWords(a: string, b: string, c: string, identifier: string, words: string)
    requires IsCapitalisedWord(a) && IsCapitalisedWord(b) && IsCapitalisedWord(c)
    requires identifier == a + b + c && words == a + " " + b + " " + c
    ensures SplitCamelCase(identifier) == words
  {
    var ws := [a, b, c];
    assert Concat(ws) == a + b + c by {
      assert ws[1..] == [b, c] && ws[1..][1..] == [c];
      assert Concat([c]) == c + Concat([]);
      assert Concat([b, c]) == b + c;
    }
    assert JoinWords(ws) == a + " " + b + " " + c by {
      assert ws[1..] == [b, c] && ws[1..][1..] == [c];
      assert JoinWords([b, c]) == b + " " + c;
    }
    SplitCamelCaseWords(ws);
  }

  /** Two capitalised words. */
  lemma SplitFooBar()
    ensures SplitCamelCase("FooBar") == "Foo Bar"
  {
    TwoWords("Foo", "Bar", "FooBar", "Foo Bar");
  }

  /** The class name of a calculated column becomes two words. */
  lemma SplitCalculatedColumn()
    ensures SplitCamelCase("CalculatedColumn") == "Calculated Column"
  {
    TwoWords("Calculated", "Column", "CalculatedColumn", "Calculated Column");
  }

  /** A tag for metadata, a mass noun, becomes two words. */
  lemma SplitLinguisticMetadata()
    ensures SplitCamelCase("LinguisticMetadata") == "Linguistic Metadata"
  {
    TwoWords("Linguistic", "Metadata", "LinguisticMetadata", "Linguistic Metadata");
  }

  /** The class name of a calculated table column becomes three words. */
  lemma SplitCalculatedTableColumn()
    ensures SplitCamelCase("CalculatedTableColumn") == "Calculated Table Column"
  {
    ThreeWords("Calculated", "Table", "Column", "CalculatedTableColumn", "Calculated Table Column");
  }

  /** Pass 1 over a space and a capitalised word: the space, the capital and the next letter match. */
  lemma AcronymPassAfterSpace(b: string)
    requires IsCapitalisedWord(b)
    ensures Replace(AcronymPass, " " + b, 0) == "  " + b
  {
    var t := " " + b;
    assert t[0] == ' ' && t[1] == b[0] && t[2] == b[1];
    ReplaceAtMatch(AcronymPass, t, 0);
    ReplaceSuffix(AcronymPass, " ", b, 2);
    assert Replace(AcronymPass, t, 3) == Replace(AcronymPass, b, 2);
    assert forall i :: 2 <= i < |b| ==> !MatchAt(AcronymPass, b, i);
    ReplaceCopiesRest(AcronymPass, b, 2);
    assert t[1..3] == b[..2];
    assert [' ', ' '] + b[..2] + b[2..] == "  " + b;
  }

  /** Pass 2 over two spaces and a capitalised word: nothing matches. */
  lemma WordPassAfterSpaces(b: string)
    requires IsCapitalisedWord(b)
    ensures Replace(WordPass, "  " + b, 0) == "  " + b
  {
    var t := "  " + b;
    assert forall i :: 2 <= i < |t| ==> t[i] == b[i - 2];
    assert forall i :: 0 <= i < |t| ==> !MatchAt(WordPass, t, i) by {
      forall i | 0 <= i < |t|
        ensures !MatchAt(WordPass, t, i)
      {
        if 2 <= i && i + 1 < |t| {
          assert t[i + 1] == b[i - 1];
        }
      }
    }
    ReplaceCopies(WordPass, t, 0, |t|);
    assert t[0..|t|] == t;
  }

  /**
   * Over two capitalised words with a space between them, as SplitCamelCase
   * writes them, SplitCamelCase puts two more spaces: `\P{Ll}` matches a
   * space, so pass 1 breaks after it and pass 2 breaks before it.
   */
  lemma SplitSpacedWords(a: string, b: string)
    requires IsCapitalisedWord(a) && IsCapitalisedWord(b)
    ensures SplitCamelCase(a + " " + b) == a + "   " + b
  {
    assert a + " " + b == a + (" " + b);
    AcronymPassSkipsWord(a, " " + b);
    AcronymPassAfterSpace(b);
    WordPassSplitsAfterWord(a, "  " + b);
    WordPassAfterSpaces(b);
    assert a + " " + ("  " + b) == a + "   " + b;
  }

  /**
   * SplitCamelCase is not idempotent: run again over the words it wrote, it
   * widens each single space to three.
   */
  lemma SplitCamelCaseTwice(a: string, b: string, identifier: string, once: string, twice: string)
    requires IsCapitalisedWord(a) && IsCapitalisedWord(b)
    requires identifier == a + b && once == a + " " + b && twice == a + "   " + b
    ensures SplitCamelCase(identifier) == once
    ensures SplitCamelCase(SplitCamelCase(identifier)) == twice != once
  {
    TwoWords(a, b, identifier, once);
    SplitSpacedWords(a, b);
  }

  /** "FooBar" becomes "Foo Bar" once and "Foo   Bar" twice. */
  lemma SplitCamelCaseNotIdempotent()
    ensures SplitCamelCase(SplitCamelCase("FooBar")) == "Foo   Bar" != SplitCamelCase("FooBar")
  {
    SplitCamelCaseTwice("Foo", "Bar", "FooBar", "Foo Bar", "Foo   Bar");
  }
}
