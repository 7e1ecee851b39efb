/**
 * Help requests and help responses (`slashpress.php`): recognising the help
 * word at the start of the command text, choosing the help topics to show,
 * and joining them into the Markdown response.
 */
module Help {
  import opened Wrappers
  import opened Strings
  import opened Assoc

  const HelpWordDefault := "help"
  const NoHelpAvailable := "No help is available."
  /** A Markdown line break. */
  const Separator := "  \n"

  /**
   * The outcome of matching `/\A\s*<help word>(?:\s+(\S.*?))?\s*\z/i`:
   * no match, or a match with or without the captured help terms.
   */
  datatype HelpMatch = NoMatch | Matched(group: Option<string>)

  /** The length of the leading white space of `s`. */
  function LeadingSpace(s: string): (n: nat)
    ensures n <= |s| && AllIn(s[..n], RegexSpace)
    ensures n < |s| ==> s[n] !in RegexSpace
  {
    |s| - |TrimLeft(s, RegexSpace)|
  }

  /**
   * The pattern after the help word, on the rest `r` of the text. The
   * optional group is tried first: `\s+` takes all the white space, `\S`
   * the next character, and the lazy `.*?` (which cannot cross a line
   * feed) stops where only white space is left. Failing that, the rest
   * must be white space alone.
   */
  function TailMatch(r: string): HelpMatch {
    var n := LeadingSpace(r);
    if n == |r| then Matched(None)
    else if n == 0 then NoMatch
    else
      var g := TrimRight(r[n..], RegexSpace);
      if '\n' in g then NoMatch else Matched(Some(g))
  }

  /** The help word occurs, ignoring ASCII case, at position `k` of `t`. */
  predicate HeadAt(t: string, hw: string, k: nat) {
    k + |hw| <= |t| && EqualsIgnoreCase(t[k..k + |hw|], hw)
  }

  /** The match with `\s*` giving back characters from `k` leading spaces down to none. */
  function MatchFrom(t: string, hw: string, k: nat): HelpMatch
    requires k <= LeadingSpace(t)
  {
    var m := if HeadAt(t, hw, k) then TailMatch(t[k + |hw|..]) else NoMatch;
    if m.Matched? || k == 0 then m else MatchFrom(t, hw, k - 1)
  }

  /** `preg_match` of the help pattern for help word `hw` on the command text `t`. */
  function MatchHelp(t: string, hw: string): HelpMatch {
    MatchFrom(t, hw, LeadingSpace(t))
  }

  /** `$help_terms` after a match: the captured group with white space collapsed, or `''`. */
  function HelpTerms(m: HelpMatch): string
    requires m.Matched?
  {
    match m.group
    case None => ""
    case Some(g) => CollapseSpaces(g)
  }

  /**
   * The terms the help hooks see once normalised: the captured words joined
   * by single spaces, or nothing when no terms were captured.
   */
  lemma HelpTermsNormal(m: HelpMatch)
    requires m.Matched?
    ensures NormalizeTerms(HelpTerms(m))
            == if m.group.Some? then Join(Words(m.group.value), " ") else ""
  {
    match m.group
    case None =>
      NormalizeTermsIsWords([]);
      NothingLeft();
    case Some(g) =>
      NormalizeCollapsed(g);
  }

  /**
   * The topics shown: all of them, or just the one named by the help terms
   * when there is such a topic; a fixed notice when no help was added.
   */
  function SelectHelp(help: Assoc<string, seq<string>>, terms: string): Assoc<string, seq<string>> {
    if help == [] then [("", [NoHelpAvailable])]
    else if HasKey(help, terms) then Restrict(help, terms)
    else help
  }

  /** The lines of the help response: a non-empty preamble, then every text of every topic in order. */
  function Lines(preamble: string, topics: Assoc<string, seq<string>>): seq<string> {
    (if preamble == "" then [] else [preamble]) + Flatten(topics)
  }

  /** The help response: its lines joined by Markdown line breaks. */
  function Rendered(preamble: string, topics: Assoc<string, seq<string>>): string {
    Join(Lines(preamble, topics), Separator)
  }

  /** The nested `foreach` that appends each help text to the response. */
  method RenderHelp(preamble: string, topics: Assoc<string, seq<string>>) returns (out: string)
    ensures out == Rendered(preamble, topics)
  {
    ghost var lines: seq<string> := if preamble == "" then [] else [preamble];
    ghost var head := lines;
    out := preamble;
    var first := preamble == "";
    var i := 0;
    while i < |topics|
      invariant 0 <= i <= |topics|
      invariant lines == head + Flatten(topics[..i])
      invariant out == Join(lines, Separator)
      invariant first <==> lines == []
    {
      var helps := topics[i].1;
      ghost var done := lines;
      var j := 0;
      while j < |helps|
        invariant 0 <= j <= |helps|
        invariant lines == done + helps[..j]
        invariant out == Join(lines, Separator)
        invariant first <==> lines == []
      {
        JoinSnoc(lines, helps[j], Separator);
        SnocSlice(done, helps, j);
        lines := lines + [helps[j]];
        if first {
          first := false;
        } else {
          out := out + Separator;
        }
        out := out + helps[j];
        j := j + 1;
      }
      FlattenPrefixStep(head, topics, i);
      assert helps[..|helps|] == helps;
      i := i + 1;
    }
    assert topics[..|topics|] == topics;
  }

  /** The lines so far, extended by one more help text. */
  lemma SnocSlice(done: seq<string>, helps: seq<string>, j: nat)
    requires j < |helps|
    ensures done + helps[..j + 1] == done + helps[..j] + [helps[j]]
  {
    assert helps[..j + 1] == helps[..j] + [helps[j]];
  }

  /** The lines so far, extended by the texts of one more topic. */
  lemma FlattenPrefixStep(head: seq<string>, topics: Assoc<string, seq<string>>, i: nat)
    requires i < |topics|
    ensures head + Flatten(topics[..i + 1]) == head + Flatten(topics[..i]) + topics[i].1
  {
    assert topics[..i + 1] == topics[..i] + [topics[i]];
    FlattenSnoc(topics[..i], topics[i]);
  }

  // ---------------------------------------------------------------- lemmas

  /** Case folding never makes a white-space character equal to anything else. */
  lemma LowerSeparatesSpace(c: char, d: char)
    ensures c in RegexSpace && d !in RegexSpace ==> Lower(c) != Lower(d)
  {
  }

  /** Backtracking `\s*` never helps once the help word starts with a non-space. */
  lemma {:induction false} NoMatchBelow(t: string, hw: string, k: nat)
    requires hw != [] && hw[0] !in RegexSpace
    requires k < LeadingSpace(t)
    ensures MatchFrom(t, hw, k) == NoMatch
  {
    NoHeadAtSpace(t, hw, k);
    MatchFromWithoutHead(t, hw, k);
    if k > 0 {
      NoMatchBelow(t, hw, k - 1);
    }
  }

  /** Where the help word does not start, matching moves on to one leading space fewer. */
  lemma MatchFromWithoutHead(t: string, hw: string, k: nat)
    requires k <= LeadingSpace(t) && !HeadAt(t, hw, k)
    ensures MatchFrom(t, hw, k) == if k == 0 then NoMatch else MatchFrom(t, hw, k - 1)
  {
  }

  /** The help word cannot start at a white-space character of the leading run. */
  lemma NoHeadAtSpace(t: string, hw: string, k: nat)
    requires hw != [] && hw[0] !in RegexSpace
    requires k < LeadingSpace(t)
    ensures !HeadAt(t, hw, k)
  {
    assert t[k] in RegexSpace by {
      assert t[..LeadingSpace(t)][k] == t[k];
    }
    LowerSeparatesSpace(t[k], hw[0]);
    assert k + |hw| <= |t| ==> t[k..k + |hw|][0] == t[k];
  }

  /**
   * For a help word starting with a non-space, the text is a help request
   * exactly when, after its leading white space, it starts with the help
   * word in any ASCII case and the rest is accepted by `TailMatch`.
   */
  lemma MatchHelpAtWordStart(t: string, hw: string)
    requires hw != [] && hw[0] !in RegexSpace
    ensures var n := LeadingSpace(t);
      MatchHelp(t, hw) == if HeadAt(t, hw, n) then TailMatch(t[n + |hw|..]) else NoMatch
  {
    var n := LeadingSpace(t);
    if n > 0 {
      NoMatchBelow(t, hw, n - 1);
    }
  }

  /** The rest is accepted without terms exactly when it is white space alone. */
  lemma TailMatchWithoutTerms(r: string)
    ensures TailMatch(r) == Matched(None) <==> AllIn(r, RegexSpace)
  {
    var n := LeadingSpace(r);
    if n < |r| {
      assert r[n] !in RegexSpace;
    } else {
      assert r[..n] == r;
    }
  }

  /**
   * White space, a non-empty phrase that starts and ends with a non-space
   * and holds no line feed, then optional white space: the phrase is captured.
   */
  lemma TailMatchCaptures(w: string, g: string, w': string)
    requires w != [] && AllIn(w, RegexSpace) && AllIn(w', RegexSpace)
    requires g != [] && g[0] !in RegexSpace && g[|g| - 1] !in RegexSpace && '\n' !in g
    ensures TailMatch(w + g + w') == Matched(Some(g))
  {
    var r := w + g + w';
    assert r == w + (g + w');
    TrimLeftPrefix(w, g + w', RegexSpace);
    assert TrimLeft(r, RegexSpace) == g + w';
    assert r[|w|..] == g + w';
    TrimRightSuffix(g, w', RegexSpace);
  }

  /**
   * Conversely, a capture is always such a phrase and the rest around it
   * white space, with at least one white-space character before it.
   */
  lemma TailMatchCaptureShape(r: string)
    requires TailMatch(r).Matched? && TailMatch(r).group.Some?
    ensures var g := TailMatch(r).group.value; var n := LeadingSpace(r);
      && 0 < n && n + |g| <= |r| && r[n..n + |g|] == g
      && AllIn(r[..n], RegexSpace) && AllIn(r[n + |g|..], RegexSpace)
      && g != [] && g[0] !in RegexSpace && g[|g| - 1] !in RegexSpace && '\n' !in g
  {
    var n := LeadingSpace(r);
    var g := TrimRight(r[n..], RegexSpace);
    assert r[n..][0] == r[n];
    assert r[n + |g|..] == r[n..][|g|..];
  }

  /** After a match with terms, `$help_terms` is the words of the phrase separated by single spaces. */
  lemma HelpTermsShape(m: HelpMatch)
    requires m.Matched? && m.group.Some? && m.group.value != []
    requires m.group.value[0] !in RegexSpace && m.group.value[|m.group.value| - 1] !in RegexSpace
    ensures HelpTerms(m) == Join(Words(m.group.value), " ")
    ensures var h := HelpTerms(m);
      && OnlyPlainSpaces(h) && NoSpaceRuns(h) && h != [] && h[0] == m.group.value[0]
      && RemoveAll(h, RegexSpace) == RemoveAll(m.group.value, RegexSpace)
  {
    CollapseKeepsWords(m.group.value);
    CollapseBetweenWords(m.group.value);
  }

  /** Text that starts with a non-space right after the help word is no help request. */
  lemma TailMatchNeedsSpace(r: string)
    requires r != [] && r[0] !in RegexSpace
    ensures TailMatch(r) == NoMatch
  {
  }

  /**
   * Leading white space, the help word in any ASCII case, then the rest:
   * the rest alone decides the match.
   */
  lemma MatchHelpRecognises(w: string, h: string, rest: string, hw: string)
    requires hw != [] && hw[0] !in RegexSpace
    requires AllIn(w, RegexSpace) && EqualsIgnoreCase(h, hw)
    ensures MatchHelp(w + h + rest, hw) == TailMatch(rest)
  {
    var t := w + h + rest;
    LowerSeparatesSpace(h[0], hw[0]);
    assert t == w + (h + rest);
    TrimLeftPrefix(w, h + rest, RegexSpace);
    assert LeadingSpace(t) == |w|;
    MatchHelpAtWordStart(t, hw);
    assert t[|w|..|w| + |hw|] == h;
    assert t[|w| + |hw|..] == rest;
  }

  /** The help word alone, in any ASCII case and with white space around it, asks for general help. */
  lemma HelpWordAlone(w: string, h: string, w': string, hw: string)
    requires hw != [] && hw[0] !in RegexSpace
    requires AllIn(w, RegexSpace) && EqualsIgnoreCase(h, hw) && AllIn(w', RegexSpace)
    ensures MatchHelp(w + h + w', hw) == Matched(None)
  {
    MatchHelpRecognises(w, h, w', hw);
    TailMatchWithoutTerms(w');
  }

  /** Terms after the help word are captured without the white space around them. */
  lemma HelpWordWithTerms(w: string, h: string, sp: string, g: string, sp': string, hw: string)
    requires hw != [] && hw[0] !in RegexSpace
    requires AllIn(w, RegexSpace) && EqualsIgnoreCase(h, hw)
    requires sp != [] && AllIn(sp, RegexSpace) && AllIn(sp', RegexSpace)
    requires g != [] && g[0] !in RegexSpace && g[|g| - 1] !in RegexSpace && '\n' !in g
    ensures MatchHelp(w + h + (sp + g + sp'), hw) == Matched(Some(g))
  {
    MatchHelpRecognises(w, h, sp + g + sp', hw);
    TailMatchCaptures(sp, g, sp');
  }

  /** The help word glued to a following non-space is no help request. */
  lemma HelpWordGlued(w: string, h: string, x: string, hw: string)
    requires hw != [] && hw[0] !in RegexSpace
    requires AllIn(w, RegexSpace) && EqualsIgnoreCase(h, hw)
    requires x != [] && x[0] !in RegexSpace
    ensures MatchHelp(w + h + x, hw) == NoMatch
  {
    MatchHelpRecognises(w, h, x, hw);
    TailMatchNeedsSpace(x);
  }

  /** With help available, a help request naming a topic gets that topic alone. */
  lemma SelectNamedTopic(help: Assoc<string, seq<string>>, terms: string)
    requires UniqueKeys(help) && HasKey(help, terms)
    ensures SelectHelp(help, terms) == [(terms, Get(help, terms).value)]
  {
    RestrictPresent(help, terms);
  }

  /** Terms that name no topic get every topic; no help at all gets the notice. */
  lemma SelectOtherwise(help: Assoc<string, seq<string>>, terms: string)
    ensures help == [] ==> SelectHelp(help, terms) == [("", [NoHelpAvailable])]
    ensures help != [] && !HasKey(help, terms) ==> SelectHelp(help, terms) == help
  {
  }

  lemma {:induction false} JoinContainsParts(parts: seq<string>, sep: string, i: nat)
    requires i < |parts|
    ensures Contains(Join(parts, sep), parts[i])
  {
    var n := |parts|;
    if n == 1 {
      assert OccursAt(Join(parts, sep), parts[i], 0);
    } else {
      var init := parts[..n - 1];
      var j := Join(init, sep) + sep;
      var out := Join(parts, sep);
      assert out == j + parts[n - 1];
      if i == n - 1 {
        assert out[|j|..|j| + |parts[i]|] == parts[i];
        assert OccursAt(out, parts[i], |j|);
      } else {
        assert init[i] == parts[i];
        JoinContainsParts(init, sep, i);
        var k :| 0 <= k <= |Join(init, sep)| && OccursAt(Join(init, sep), parts[i], k);
        assert out[k..k + |parts[i]|] == Join(init, sep)[k..k + |parts[i]|];
        assert OccursAt(out, parts[i], k);
      }
    }
  }

  lemma {:induction false} JoinStartsWithFirst(parts: seq<string>, sep: string)
    requires parts != []
    ensures StartsWith(Join(parts, sep), parts[0])
  {
    if |parts| > 1 {
      var init := parts[..|parts| - 1];
      JoinStartsWithFirst(init, sep);
      assert Join(parts, sep)[..|parts[0]|] == Join(init, sep)[..|parts[0]|];
    }
  }

  /** The response starts with the preamble and holds every text of every selected topic. */
  lemma RenderedHoldsEveryLine(preamble: string, topics: Assoc<string, seq<string>>)
    ensures StartsWith(Rendered(preamble, topics), preamble)
    ensures forall i :: 0 <= i < |Flatten(topics)| ==> Contains(Rendered(preamble, topics), Flatten(topics)[i])
  {
    var lines := Lines(preamble, topics);
    if preamble != "" {
      JoinStartsWithFirst(lines, Separator);
    }
    var d := |lines| - |Flatten(topics)|;
    forall i | 0 <= i < |Flatten(topics)| ensures Contains(Rendered(preamble, topics), Flatten(topics)[i]) {
      assert lines[d + i] == Flatten(topics)[i];
      JoinContainsParts(lines, Separator, d + i);
    }
  }

  /** Two topics, and the help terms name one: only its text is shown. */
  lemma RenderExampleNamed()
    ensures Rendered("", SelectHelp([("a", ["x"]), ("b", ["y"])], "a")) == "x"
  {
    var help := [("a", ["x"]), ("b", ["y"])];
    assert help[0].0 == "a";
    assert HasKey(help, "a");
    assert Restrict(help, "a") == [("a", ["x"])];
    assert Flatten([("a", ["x"])]) == ["x"];
  }

  /** Two topics and no help terms: both texts, on separate lines. */
  lemma RenderExampleAll()
    ensures Rendered("", SelectHelp([("a", ["x"]), ("b", ["y"])], "")) == "x  \ny"
  {
    var help := [("a", ["x"]), ("b", ["y"])];
    assert help[0].0 == "a" && help[1].0 == "b";
    assert !HasKey(help, "");
    assert Flatten(help) == ["x", "y"];
    assert ["x", "y"][..1] == ["x"];
  }

  /** No help added: the notice follows the preamble. */
  lemma RenderExampleNoHelp()
    ensures Rendered("P", SelectHelp([], "")) == "P  \n" + NoHelpAvailable
  {
    assert Flatten([("", [NoHelpAvailable])]) == [NoHelpAvailable];
    assert Lines("P", [("", [NoHelpAvailable])]) == ["P", NoHelpAvailable];
    assert ["P", NoHelpAvailable][..1] == ["P"];
  }
}
