/**
 * The string operations of PHP and PCRE that the plugin relies on: `trim`,
 * the `\s` character class, `preg_replace('/\s+/', ' ', ...)`, `empty()` on
 * strings, `strpos(...) === 0` and ASCII case folding for the `/i` modifier.
 * PHP strings are byte strings; here they are sequences of characters.
 */
module Strings {

  /** The characters PCRE's `\s` matches without the `u` modifier. */
  const RegexSpace: set<char> := {' ', '\t', '\n', '\U{B}', '\U{C}', '\r'}

  /** The characters PHP's `trim` removes when no character list is given. */
  const TrimChars: set<char> := {' ', '\t', '\n', '\r', '\0', '\U{B}'}

  /** The two strings that PHP's `empty()` treats as empty. */
  predicate IsEmptyString(s: string) {
    s == "" || s == "0"
  }

  predicate AllIn(s: string, cs: set<char>) {
    forall i :: 0 <= i < |s| ==> s[i] in cs
  }

  predicate NoneIn(s: string, cs: set<char>) {
    forall i :: 0 <= i < |s| ==> s[i] !in cs
  }

  /** Drops the longest prefix made of characters in `cs`. */
  function TrimLeft(s: string, cs: set<char>): (r: string)
    ensures |r| <= |s| && r == s[|s| - |r|..]
    ensures AllIn(s[..|s| - |r|], cs)
    ensures r != [] ==> r[0] !in cs
  {
    if s != [] && s[0] in cs then
      var r := TrimLeft(s[1..], cs);
      assert s[..|s| - |r|] == [s[0]] + s[1..][..|s| - 1 - |r|];
      assert s[|s| - |r|..] == s[1..][|s| - 1 - |r|..];
      r
    else
      assert s[..0] == [];
      s
  }

  /** Drops the longest suffix made of characters in `cs`. */
  function TrimRight(s: string, cs: set<char>): (r: string)
    ensures |r| <= |s| && r == s[..|r|]
    ensures AllIn(s[|r|..], cs)
    ensures r != [] ==> r[|r| - 1] !in cs
  {
    if s != [] && s[|s| - 1] in cs then
      var r := TrimRight(s[..|s| - 1], cs);
      assert s[|r|..] == s[..|s| - 1][|r|..] + [s[|s| - 1]];
      assert s[..|r|] == s[..|s| - 1][..|r|];
      r
    else
      assert s[|s|..] == [];
      s
  }

  /** PHP's `trim($s, $cs)`: both ends stripped of characters in `cs` (what is kept: `TrimIsInfix`). */
  function Trim(s: string, cs: set<char>): (r: string)
    ensures |r| <= |s|
    ensures r != [] ==> r[0] !in cs && r[|r| - 1] !in cs
  {
    TrimRight(TrimLeft(s, cs), cs)
  }

  /** `r` occurs in `s` at `i`, with only characters in `cs` before and after it. */
  predicate SurroundedAt(s: string, r: string, i: int, cs: set<char>) {
    0 <= i <= |s| - |r| && r == s[i..i + |r|] && AllIn(s[..i], cs) && AllIn(s[i + |r|..], cs)
  }

  /** What `trim` keeps is a piece of the input that only characters in `cs` surround. */
  lemma TrimIsInfix(s: string, cs: set<char>)
    ensures exists i :: SurroundedAt(s, Trim(s, cs), i, cs)
  {
    var l := TrimLeft(s, cs);
    var r := TrimRight(l, cs);
    PrefixOfSuffix(s, l, r, cs);
    assert Trim(s, cs) == r;
    assert SurroundedAt(s, Trim(s, cs), |s| - |l|, cs);
  }

  /** A prefix `r` of a suffix `l` of `s`, each cut off only characters in `cs`, sits between them in `s`. */
  lemma PrefixOfSuffix(s: string, l: string, r: string, cs: set<char>)
    requires |l| <= |s| && l == s[|s| - |l|..] && AllIn(s[..|s| - |l|], cs)
    requires |r| <= |l| && r == l[..|r|] && AllIn(l[|r|..], cs)
    ensures SurroundedAt(s, r, |s| - |l|, cs)
  {
    SuffixSlices(s, |s| - |l|, |r|);
  }

  /** Slicing a suffix is slicing the whole string further on. */
  lemma SuffixSlices(s: string, i: nat, k: nat)
    requires i + k <= |s|
    ensures s[i..][..k] == s[i..i + k] && s[i..][k..] == s[i + k..]
  {
  }

  /** PHP's `trim($s)` with its default character list. */
  function TrimDefault(s: string): string {
    Trim(s, TrimChars)
  }

  /** `preg_replace('#[...]+#', '', $s)`: every character in `cs` removed (what is kept: `RemoveAllKeepsOthers`). */
  function RemoveAll(s: string, cs: set<char>): (r: string)
    ensures |r| <= |s|
    ensures NoneIn(r, cs)
    ensures NoneIn(s, cs) ==> r == s
  {
    if s == [] then []
    else if s[0] in cs then RemoveAll(s[1..], cs)
    else [s[0]] + RemoveAll(s[1..], cs)
  }

  /** Removing the characters in `cs` keeps every other character as often as it occurs. */
  lemma {:induction false} RemoveAllKeepsOthers(s: string, cs: set<char>)
    ensures forall c :: c !in cs ==> multiset(RemoveAll(s, cs))[c] == multiset(s)[c]
  {
    if s != [] {
      RemoveAllKeepsOthers(s[1..], cs);
      assert s == [s[0]] + s[1..];
    }
  }

  /** No run of two PCRE white-space characters. */
  predicate NoSpaceRuns(s: string) {
    forall i :: 0 <= i < |s| - 1 ==> !(s[i] in RegexSpace && s[i + 1] in RegexSpace)
  }

  /** The only white space in `s` is the plain space. */
  predicate OnlyPlainSpaces(s: string) {
    forall i :: 0 <= i < |s| && s[i] in RegexSpace ==> s[i] == ' '
  }

  /** `preg_replace('/\s+/', ' ', $s)`: every maximal run of white space becomes one space. */
  function CollapseSpaces(s: string): (r: string)
    ensures |r| <= |s|
    ensures OnlyPlainSpaces(r) && NoSpaceRuns(r)
    ensures s != [] ==> r != [] && (s[0] in RegexSpace <==> r[0] in RegexSpace)
    ensures s != [] && s[0] !in RegexSpace ==> r[0] == s[0]
  {
    if s == [] then []
    else if s[0] in RegexSpace then
      [' '] + CollapseSpaces(TrimLeft(s[1..], RegexSpace))
    else
      [s[0]] + CollapseSpaces(s[1..])
  }

  /** Collapsing white space leaves the non-space characters as they were. */
  lemma {:induction false} CollapseKeepsWords(s: string)
    ensures RemoveAll(CollapseSpaces(s), RegexSpace) == RemoveAll(s, RegexSpace)
    decreases |s|
  {
    if s == [] {
    } else if s[0] in RegexSpace {
      var rest := TrimLeft(s[1..], RegexSpace);
      TrimLeftKeeps(s[1..], RegexSpace, RegexSpace);
      CollapseKeepsWords(rest);
      RemoveAllConcat([' '], CollapseSpaces(rest), RegexSpace);
    } else {
      CollapseKeepsWords(s[1..]);
      RemoveAllConcat([s[0]], CollapseSpaces(s[1..]), RegexSpace);
    }
  }

  /** The longest prefix of `s` without white space. */
  function LeadingWord(s: string): (w: string)
    ensures |w| <= |s| && w == s[..|w|]
    ensures NoneIn(w, RegexSpace)
    ensures |w| < |s| ==> s[|w|] in RegexSpace
    ensures s != [] && s[0] !in RegexSpace ==> w != []
  {
    if s == [] || s[0] in RegexSpace then []
    else [s[0]] + LeadingWord(s[1..])
  }

  /** The words of `s`: its maximal runs of characters outside `\s`, in order. */
  function Words(s: string): seq<string>
    decreases |s|
  {
    var t := TrimLeft(s, RegexSpace);
    if t == [] then []
    else
      var w := LeadingWord(t);
      [w] + Words(t[|w|..])
  }

  /** Every word is non-empty and holds no white space. */
  lemma {:induction false} WordsShape(s: string)
    ensures forall i :: 0 <= i < |Words(s)| ==> Words(s)[i] != [] && NoneIn(Words(s)[i], RegexSpace)
    decreases |s|
  {
    var t := TrimLeft(s, RegexSpace);
    if t != [] {
      var w := LeadingWord(t);
      var rest := t[|w|..];
      var ws := Words(rest);
      WordsShape(rest);
      assert Words(s) == [w] + ws;
      ConsWords(w, ws);
    }
  }

  lemma ConsWords(w: string, ws: seq<string>)
    requires w != [] && NoneIn(w, RegexSpace)
    requires forall i :: 0 <= i < |ws| ==> ws[i] != [] && NoneIn(ws[i], RegexSpace)
    ensures forall i :: 0 <= i < |[w] + ws| ==> ([w] + ws)[i] != [] && NoneIn(([w] + ws)[i], RegexSpace)
  {
    forall i | 1 <= i < |[w] + ws| ensures ([w] + ws)[i] == ws[i - 1] {
    }
  }

  /** Leading characters of a word are copied over one by one. */
  lemma {:induction false} CollapseWord(w: string, rest: string)
    requires NoneIn(w, RegexSpace)
    ensures CollapseSpaces(w + rest) == w + CollapseSpaces(rest)
  {
    if w == [] {
      assert w + rest == rest;
    } else {
      assert (w + rest)[0] == w[0] && (w + rest)[1..] == w[1..] + rest;
      CollapseWord(w[1..], rest);
    }
  }

  /** A string that starts with white space has the words of what follows that white space. */
  lemma WordsAfterSpace(s: string)
    ensures Words(s) == Words(TrimLeft(s, RegexSpace))
  {
    var u := TrimLeft(s, RegexSpace);
    assert TrimLeft(u, RegexSpace) == u;
  }

  /** A string that starts with a word: that word, then the words after the white space behind it. */
  lemma WordsStep(t: string)
    requires t != [] && t[0] !in RegexSpace
    ensures Words(t) == [LeadingWord(t)] + Words(TrimLeft(t[|LeadingWord(t)|..], RegexSpace))
  {
    assert TrimLeft(t, RegexSpace) == t;
    WordsAfterSpace(t[|LeadingWord(t)|..]);
  }

  /** Collapsing a string that starts with a word: the word, then one space if white space follows. */
  lemma CollapseStep(t: string)
    requires t != [] && t[0] !in RegexSpace
    ensures var w := LeadingWord(t);
      CollapseSpaces(t)
      == w + if |w| == |t| then "" else " " + CollapseSpaces(TrimLeft(t[|w|..], RegexSpace))
  {
    var w := LeadingWord(t);
    var rest := t[|w|..];
    assert t == w + rest;
    CollapseWord(w, rest);
    if rest != [] {
      assert rest[0] in RegexSpace;
      assert TrimLeft(rest, RegexSpace) == TrimLeft(rest[1..], RegexSpace);
    }
  }

  /** One space when `s` starts with white space. */
  function SpaceBefore(s: string): string {
    if s != [] && s[0] in RegexSpace then " " else ""
  }

  /** One space when `s` ends with white space. */
  function SpaceAfter(s: string): string {
    if s != [] && s[|s| - 1] in RegexSpace then " " else ""
  }

  lemma SpaceAfterSuffix(t: string, k: nat)
    requires k < |t|
    ensures SpaceAfter(t[k..]) == SpaceAfter(t)
  {
    assert t[k..][|t| - k - 1] == t[|t| - 1];
  }

  lemma Concat3(a: string, b: string, c: string)
    ensures a + (b + c) == a + b + c
  {
  }

  lemma ConcatAssoc(a: string, b: string, c: string, d: string)
    ensures a + (b + (c + d)) == (a + b + c) + d
  {
  }

  /**
   * `preg_replace('/\s+/', ' ', $t)` on a string that does not start with white
   * space: its words joined by single spaces, and one more space when it ends
   * in white space.
   */
  lemma {:induction false} CollapseFromWord(t: string)
    requires t == [] || t[0] !in RegexSpace
    ensures CollapseSpaces(t) == Join(Words(t), " ") + SpaceAfter(t)
    decreases |t|
  {
    if t != [] {
      var w := LeadingWord(t);
      var u := TrimLeft(t[|w|..], RegexSpace);
      if |w| == |t| {
        CollapseOneWord(t);
      } else if u == [] {
        CollapseWordThenSpace(t);
      } else {
        assert u[0] !in RegexSpace;
        CollapseFromWord(u);
        CollapseWordThenMore(t);
      }
    }
  }

  lemma CollapseOneWord(t: string)
    requires t != [] && t[0] !in RegexSpace && |LeadingWord(t)| == |t|
    ensures CollapseSpaces(t) == Join(Words(t), " ") + SpaceAfter(t)
  {
    var w := LeadingWord(t);
    assert w == t;
    calc {
      CollapseSpaces(t);
      { CollapseStep(t); }
      w;
      Join([w], " ") + "";
      { WordsStep(t); assert t[|w|..] == []; }
      Join(Words(t), " ") + SpaceAfter(t);
    }
  }

  lemma CollapseWordThenSpace(t: string)
    requires t != [] && t[0] !in RegexSpace && |LeadingWord(t)| < |t|
    requires TrimLeft(t[|LeadingWord(t)|..], RegexSpace) == []
    ensures CollapseSpaces(t) == Join(Words(t), " ") + SpaceAfter(t)
  {
    var w := LeadingWord(t);
    var rest := t[|w|..];
    SplitAt(t, |w|); CollapseWord(w, rest); CollapseAllSpace(rest); TrimmedAway(rest, RegexSpace); SpaceAfterSuffix(t, |w|); WordsStep(t); NothingLeft(); JoinOne(w, " ");
  }

  /** The empty string collapses to itself and has no words. */
  lemma NothingLeft()
    ensures CollapseSpaces([]) == [] && Words([]) == []
  {
  }

  /** A string is its prefix followed by its suffix. */
  lemma SplitAt(t: string, k: nat)
    requires k <= |t|
    ensures t == t[..k] + t[k..]
  {
  }

  lemma JoinOne(w: string, sep: string)
    ensures Join([w] + [], sep) == w
  {
    assert [w] + [] == [w];
  }

  lemma CollapseWordThenMore(t: string)
    requires t != [] && t[0] !in RegexSpace && |LeadingWord(t)| < |t|
    requires var u := TrimLeft(t[|LeadingWord(t)|..], RegexSpace);
      u != [] && CollapseSpaces(u) == Join(Words(u), " ") + SpaceAfter(u)
    ensures CollapseSpaces(t) == Join(Words(t), " ") + SpaceAfter(t)
  {
    var w := LeadingWord(t);
    var rest := t[|w|..];
    var u := TrimLeft(rest, RegexSpace);
    SpaceAfterSuffix(rest, |rest| - |u|);
    SpaceAfterSuffix(t, |w|);
    CollapseStepSpace(t);
    WordsStep(u);
    GlueWords(w, " ", Words(u), SpaceAfter(u));
    WordsStep(t);
  }

  /** A word followed by white space: the word, one space, then what follows the white space collapsed. */
  lemma CollapseStepSpace(t: string)
    requires t != [] && t[0] !in RegexSpace && |LeadingWord(t)| < |t|
    ensures CollapseSpaces(t)
            == LeadingWord(t) + (" " + CollapseSpaces(TrimLeft(t[|LeadingWord(t)|..], RegexSpace)))
  {
    CollapseStep(t);
  }

  /** A word in front of joined words, with the separator between them. */
  lemma GlueWords(w: string, sep: string, ws: seq<string>, tail: string)
    requires ws != []
    ensures w + (sep + (Join(ws, sep) + tail)) == Join([w] + ws, sep) + tail
  {
    JoinCons(w, ws, sep);
  }

  /** A phrase that starts and ends with a word collapses to its words joined by single spaces. */
  lemma CollapseBetweenWords(g: string)
    requires g != [] && g[0] !in RegexSpace && g[|g| - 1] !in RegexSpace
    ensures CollapseSpaces(g) == Join(Words(g), " ")
  {
    CollapseFromWord(g);
    assert SpaceAfter(g) == "";
  }

  /**
   * `preg_replace('/\s+/', ' ', $s)`: the words of `s` joined by single
   * spaces, with one space in front when `s` starts with white space and one
   * behind when it ends with white space (a single space if `s` is all white space).
   */
  lemma CollapseSpacesWords(s: string)
    ensures CollapseSpaces(s)
            == if s == [] then ""
               else if Words(s) == [] then " "
               else SpaceBefore(s) + Join(Words(s), " ") + SpaceAfter(s)
  {
    if s != [] && s[0] in RegexSpace {
      var u := TrimLeft(s, RegexSpace);
      if u == [] {
        CollapseAllSpace(s);
      } else {
        CollapseFromWord(u);
        CollapseSpaceThenWord(s);
      }
    } else if s != [] {
      CollapseStartingWord(s);
    }
  }

  /** A string made of white space only collapses to one space and has no words. */
  lemma CollapseAllSpace(s: string)
    requires s != [] && s[0] in RegexSpace && TrimLeft(s, RegexSpace) == []
    ensures CollapseSpaces(s) == " " && Words(s) == []
  {
    CollapseFromSpace(s);
    NothingLeft();
  }

  /** A string that starts with a word: no space in front. */
  lemma CollapseStartingWord(s: string)
    requires s != [] && s[0] !in RegexSpace
    ensures Words(s) != []
    ensures CollapseSpaces(s) == SpaceBefore(s) + Join(Words(s), " ") + SpaceAfter(s)
  {
    CollapseFromWord(s);
    WordsStep(s);
    EmptyPrefix(SpaceBefore(s), Join(Words(s), " "));
  }

  lemma EmptyPrefix(a: string, b: string)
    requires a == []
    ensures a + b == b
  {
  }

  lemma CollapseSpaceThenWord(s: string)
    requires s != [] && s[0] in RegexSpace
    requires var u := TrimLeft(s, RegexSpace);
      u != [] && CollapseSpaces(u) == Join(Words(u), " ") + SpaceAfter(u)
    ensures Words(s) != []
    ensures CollapseSpaces(s) == SpaceBefore(s) + Join(Words(s), " ") + SpaceAfter(s)
  {
    var u := TrimLeft(s, RegexSpace);
    CollapseFromSpace(s);
    WordsStep(u);
    SpaceAfterSuffix(s, |s| - |u|);
    calc {
      CollapseSpaces(s);
      " " + CollapseSpaces(u);
      " " + (Join(Words(u), " ") + SpaceAfter(u));
      { Concat3(" ", Join(Words(u), " "), SpaceAfter(u)); }
      " " + Join(Words(u), " ") + SpaceAfter(u);
      { assert SpaceBefore(s) == " "; }
      SpaceBefore(s) + Join(Words(s), " ") + SpaceAfter(s);
    }
  }

  /** Leading white space collapses to one space and holds no word. */
  lemma CollapseFromSpace(s: string)
    requires s != [] && s[0] in RegexSpace
    ensures CollapseSpaces(s) == " " + CollapseSpaces(TrimLeft(s, RegexSpace))
    ensures Words(s) == Words(TrimLeft(s, RegexSpace))
  {
    assert TrimLeft(s, RegexSpace) == TrimLeft(s[1..], RegexSpace);
    WordsAfterSpace(s);
  }

  /** A non-empty string that trimming empties ends with a trimmed character. */
  lemma TrimmedAway(s: string, cs: set<char>)
    requires s != [] && TrimLeft(s, cs) == []
    ensures s[|s| - 1] in cs
  {
    assert s[..|s|] == s;
  }

  /**
   * The normalisation applied to help terms: white space collapsed, then
   * `trim(..., ' ')`. The result is the words of `s` separated by single spaces.
   */
  function NormalizeTerms(s: string): string {
    Trim(CollapseSpaces(s), {' '})
  }

  lemma NormalizeTermsShape(s: string)
    ensures var r := NormalizeTerms(s);
      OnlyPlainSpaces(r) && NoSpaceRuns(r) && (r != [] ==> r[0] != ' ' && r[|r| - 1] != ' ')
  {
    var c := CollapseSpaces(s);
    TrimLeftShape(c, {' '});
    TrimRightShape(TrimLeft(c, {' '}), {' '});
  }

  /** Normalised help terms are the words of the input separated by single spaces. */
  lemma NormalizeTermsIsWords(s: string)
    ensures NormalizeTerms(s) == Join(Words(s), " ")
  {
    CollapseSpacesWords(s);
    var ws := Words(s);
    if s != [] && ws == [] {
      assert TrimLeft(" ", {' '}) == "";
    } else if s != [] {
      var j := Join(ws, " ");
      WordsShape(s);
      JoinEnds(ws, " ");
      TrimAround(SpaceBefore(s), j, SpaceAfter(s));
    }
  }

  /** Trimming spaces off a word-bounded string with at most one space on each side. */
  lemma TrimAround(a: string, j: string, b: string)
    requires a == "" || a == " "
    requires b == "" || b == " "
    requires j != [] && j[0] != ' ' && j[|j| - 1] != ' '
    ensures Trim(a + j + b, {' '}) == j
  {
    assert a + j + b == a + (j + b);
    TrimLeftPrefix(a, j + b, {' '});
    TrimRightSuffix(j, b, {' '});
  }

  /** A string made only of white space has no words. */
  lemma NoWordsInSpace(s: string)
    requires AllIn(s, RegexSpace)
    ensures Words(s) == []
  {
    assert s + [] == s;
    TrimLeftPrefix(s, [], RegexSpace);
  }

  /** The word in front of white space (or of nothing) is the leading word. */
  lemma {:induction false} LeadingWordOf(w: string, x: string)
    requires NoneIn(w, RegexSpace) && (x == [] || x[0] in RegexSpace)
    ensures LeadingWord(w + x) == w
  {
    if w == [] {
      assert w + x == x;
    } else {
      assert (w + x)[0] == w[0] && (w + x)[1..] == w[1..] + x;
      LeadingWordOf(w[1..], x);
    }
  }

  /** A word followed by white space (or by nothing): that word, then the words of the rest. */
  lemma WordThen(w: string, x: string)
    requires w != [] && NoneIn(w, RegexSpace) && (x == [] || x[0] in RegexSpace)
    ensures Words(w + x) == [w] + Words(x)
  {
    var t := w + x;
    assert t[0] == w[0];
    LeadingWordOf(w, x);
    WordsStep(t);
    assert t[|w|..] == x;
    WordsAfterSpace(x);
  }

  /** One white-space character in front changes no word. */
  lemma WordsAfterSep(sep: string, y: string)
    requires |sep| == 1 && sep[0] in RegexSpace
    ensures Words(sep + y) == Words(y)
  {
    var x := sep + y;
    assert x[0] in RegexSpace && x[1..] == y;
    WordsAfterSpace(x);
    WordsAfterSpace(y);
  }

  lemma Assoc4(w: string, sep: string, j: string, tail: string)
    ensures w + sep + j + tail == w + (sep + (j + tail))
  {
  }

  /**
   * Words joined by a white-space separator, with white space behind them,
   * have exactly those words: `Words` undoes `Join`.
   */
  lemma {:induction false} WordsOfJoin(ws: seq<string>, sep: string, tail: string)
    requires forall i :: 0 <= i < |ws| ==> ws[i] != [] && NoneIn(ws[i], RegexSpace)
    requires |sep| == 1 && sep[0] in RegexSpace
    requires AllIn(tail, RegexSpace)
    ensures Words(Join(ws, sep) + tail) == ws
    decreases |ws|
  {
    if ws == [] {
      assert Join(ws, sep) + tail == tail;
      NoWordsInSpace(tail);
    } else {
      var w := ws[0];
      var rest := ws[1..];
      assert ws == [w] + rest;
      JoinCons(w, rest, sep);
      if rest == [] {
        WordThen(w, tail);
        NoWordsInSpace(tail);
      } else {
        var y := Join(rest, sep) + tail;
        Assoc4(w, sep, Join(rest, sep), tail);
        WordThen(w, sep + y);
        WordsAfterSep(sep, y);
        assert forall i :: 0 <= i < |rest| ==> rest[i] == ws[i + 1];
        WordsOfJoin(rest, sep, tail);
      }
    }
  }

  /** Collapsing white space keeps the words. */
  lemma WordsOfCollapsed(g: string)
    ensures Words(CollapseSpaces(g)) == Words(g)
  {
    if g == [] {
      NothingLeft();
    } else {
      CollapseSpacesWords(g);
      if Words(g) == [] {
        SpaceHasNoWords(CollapseSpaces(g));
      } else {
        WordsOfCollapsedWords(g, SpaceBefore(g), SpaceAfter(g));
      }
    }
  }

  lemma SpaceHasNoWords(sp: string)
    requires sp == " "
    ensures Words(sp) == []
  {
    NoWordsInSpace(sp);
  }

  lemma WordsOfCollapsedWords(g: string, before: string, after: string)
    requires Words(g) != []
    requires before == SpaceBefore(g) && after == SpaceAfter(g)
    requires CollapseSpaces(g) == before + Join(Words(g), " ") + after
    ensures Words(CollapseSpaces(g)) == Words(g)
  {
    WordsShape(g);
    SpaceEdges(g);
    OneSpace(" ");
    WordsOfSpacedJoin(Words(g), before, " ", after);
  }

  lemma SpaceEdges(g: string)
    ensures |SpaceBefore(g)| <= 1 && AllIn(SpaceBefore(g), RegexSpace)
    ensures AllIn(SpaceAfter(g), RegexSpace)
  {
  }

  lemma OneSpace(sep: string)
    requires sep == " "
    ensures |sep| == 1 && sep[0] in RegexSpace
  {
  }

  /** Words joined by white space, with at most one white-space character before and any behind. */
  lemma WordsOfSpacedJoin(ws: seq<string>, before: string, sep: string, after: string)
    requires forall i :: 0 <= i < |ws| ==> ws[i] != [] && NoneIn(ws[i], RegexSpace)
    requires |before| <= 1 && AllIn(before, RegexSpace)
    requires |sep| == 1 && sep[0] in RegexSpace
    requires AllIn(after, RegexSpace)
    ensures Words(before + Join(ws, sep) + after) == ws
  {
    WordsOfJoin(ws, sep, after);
    var y := Join(ws, sep) + after;
    Concat3(before, Join(ws, sep), after);
    if before != [] {
      WordsAfterSep(before, y);
    } else {
      EmptyPrefix(before, y);
    }
  }

  /** Normalising already collapsed text gives the words of the original joined by single spaces. */
  lemma NormalizeCollapsed(g: string)
    ensures NormalizeTerms(CollapseSpaces(g)) == Join(Words(g), " ")
  {
    NormalizeTermsIsWords(CollapseSpaces(g));
    WordsOfCollapsed(g);
  }

  /** Normalising help terms keeps their words. */
  lemma NormalizeTermsKeepsWords(s: string)
    ensures RemoveAll(NormalizeTerms(s), RegexSpace) == RemoveAll(s, RegexSpace)
  {
    var c := CollapseSpaces(s);
    CollapseKeepsWords(s);
    TrimLeftKeeps(c, {' '}, RegexSpace);
    TrimRightKeeps(TrimLeft(c, {' '}), {' '}, RegexSpace);
  }

  lemma {:induction false} TrimLeftShape(c: string, cs: set<char>)
    requires OnlyPlainSpaces(c) && NoSpaceRuns(c)
    ensures OnlyPlainSpaces(TrimLeft(c, cs)) && NoSpaceRuns(TrimLeft(c, cs))
  {
    if c != [] && c[0] in cs {
      SliceShape(c, 1, |c|);
      assert c[1..|c|] == c[1..];
      TrimLeftShape(c[1..], cs);
    }
  }

  lemma {:induction false} TrimRightShape(c: string, cs: set<char>)
    requires OnlyPlainSpaces(c) && NoSpaceRuns(c)
    ensures OnlyPlainSpaces(TrimRight(c, cs)) && NoSpaceRuns(TrimRight(c, cs))
  {
    if c != [] && c[|c| - 1] in cs {
      SliceShape(c, 0, |c| - 1);
      assert c[0..|c| - 1] == c[..|c| - 1];
      TrimRightShape(c[..|c| - 1], cs);
    }
  }

  /** Trimming characters that are all removed anyway keeps what `RemoveAll` leaves. */
  lemma {:induction false} TrimLeftKeeps(s: string, cs: set<char>, ds: set<char>)
    requires cs <= ds
    ensures RemoveAll(TrimLeft(s, cs), ds) == RemoveAll(s, ds)
  {
    if s != [] && s[0] in cs {
      TrimLeftKeeps(s[1..], cs, ds);
    }
  }

  lemma {:induction false} TrimRightKeeps(s: string, cs: set<char>, ds: set<char>)
    requires cs <= ds
    ensures RemoveAll(TrimRight(s, cs), ds) == RemoveAll(s, ds)
  {
    if s != [] && s[|s| - 1] in cs {
      var p := s[..|s| - 1];
      TrimRightKeeps(p, cs, ds);
      assert s == p + [s[|s| - 1]];
      RemoveAllConcat(p, [s[|s| - 1]], ds);
      assert RemoveAll([s[|s| - 1]], ds) == [];
    }
  }

  lemma SliceShape(c: string, i: nat, j: nat)
    requires i <= j <= |c|
    requires OnlyPlainSpaces(c) && NoSpaceRuns(c)
    ensures OnlyPlainSpaces(c[i..j]) && NoSpaceRuns(c[i..j])
  {
    var t := c[i..j];
    forall k | 0 <= k < |t| ensures t[k] == c[i + k] {}
  }

  lemma {:induction false} RemoveAllConcat(a: string, b: string, cs: set<char>)
    ensures RemoveAll(a + b, cs) == RemoveAll(a, cs) + RemoveAll(b, cs)
  {
    if a == [] {
      assert a + b == b;
    } else {
      var ab := a + b;
      assert ab[0] == a[0] && ab[1..] == a[1..] + b;
      RemoveAllConcat(a[1..], b, cs);
      if a[0] in cs {
        assert RemoveAll(ab, cs) == RemoveAll(a[1..] + b, cs);
      } else {
        assert RemoveAll(ab, cs) == [a[0]] + RemoveAll(a[1..] + b, cs);
      }
    }
  }

  predicate StartsWith(s: string, prefix: string) {
    |prefix| <= |s| && s[..|prefix|] == prefix
  }

  /** `preg_match('#p#', $s)` for a literal pattern `p`: `p` occurs somewhere in `s`. */
  predicate Contains(s: string, p: string) {
    exists i :: 0 <= i <= |s| && OccursAt(s, p, i)
  }

  predicate OccursAt(s: string, p: string, i: nat) {
    i + |p| <= |s| && s[i..i + |p|] == p
  }

  /** ASCII lower-casing, which is what PCRE's `/i` applies without UTF mode. */
  function Lower(c: char): char {
    if 'A' <= c <= 'Z' then (c as int + 32) as char else c
  }

  predicate EqualsIgnoreCase(a: string, b: string) {
    |a| == |b| && forall i :: 0 <= i < |a| ==> Lower(a[i]) == Lower(b[i])
  }

  /** White space in front of a word is exactly what `TrimLeft` drops. */
  lemma {:induction false} TrimLeftPrefix(w: string, x: string, cs: set<char>)
    requires AllIn(w, cs) && (x != [] ==> x[0] !in cs)
    ensures TrimLeft(w + x, cs) == x
  {
    if w == [] {
      assert w + x == x;
    } else {
      assert (w + x)[1..] == w[1..] + x;
      TrimLeftPrefix(w[1..], x, cs);
    }
  }

  /** White space after a word is exactly what `TrimRight` drops. */
  lemma {:induction false} TrimRightSuffix(x: string, w: string, cs: set<char>)
    requires AllIn(w, cs) && (x != [] ==> x[|x| - 1] !in cs)
    ensures TrimRight(x + w, cs) == x
  {
    if w == [] {
      assert x + w == x;
    } else {
      var n := |w| - 1;
      assert (x + w)[..|x + w| - 1] == x + w[..n];
      TrimRightSuffix(x, w[..n], cs);
    }
  }

  /** PHP's `implode($sep, $parts)`. */
  function Join(parts: seq<string>, sep: string): string {
    if |parts| == 0 then ""
    else if |parts| == 1 then parts[0]
    else Join(parts[..|parts| - 1], sep) + sep + parts[|parts| - 1]
  }

  lemma {:induction false} JoinCons(x: string, parts: seq<string>, sep: string)
    ensures Join([x] + parts, sep) == if parts == [] then x else x + sep + Join(parts, sep)
    decreases |parts|
  {
    if parts != [] {
      var init := parts[..|parts| - 1];
      var last := parts[|parts| - 1];
      assert parts == init + [last];
      assert [x] + parts == ([x] + init) + [last];
      JoinSnoc([x] + init, last, sep);
      JoinCons(x, init, sep);
      JoinSnoc(init, last, sep);
    }
  }

  /** Joined non-empty parts start with the first part's first character and end with the last part's last. */
  lemma JoinEnds(parts: seq<string>, sep: string)
    requires parts != [] && forall i :: 0 <= i < |parts| ==> parts[i] != []
    ensures var j := Join(parts, sep);
      j != [] && j[0] == parts[0][0] && j[|j| - 1] == parts[|parts| - 1][|parts[|parts| - 1]| - 1]
  {
    assert parts == [parts[0]] + parts[1..];
    JoinCons(parts[0], parts[1..], sep);
  }

  lemma JoinSnoc(parts: seq<string>, x: string, sep: string)
    ensures Join(parts + [x], sep) == if parts == [] then x else Join(parts, sep) + sep + x
  {
    assert (parts + [x])[..|parts|] == parts;
  }
}
