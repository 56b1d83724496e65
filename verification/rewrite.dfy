/** The case-insensitive `re.sub` passes of the message normaliser, written as
    the left-to-right scan the regular-expression engine performs, and the
    word-by-word reading of the same passes: split the text into maximal runs
    of word and non-word characters, and rewrite the word runs that are one of
    the listed words. */
module Rewrite {
  import opened Text
  import opened Schema

  /** `\w` at index `i`; positions outside `s` are not word characters. */
  predicate WordAt(s: string, i: int) {
    0 <= i < |s| && IsWordChar(s[i])
  }

  /** `\b` at position `i`: a word character on exactly one side. */
  predicate Boundary(s: string, i: int) {
    WordAt(s, i - 1) != WordAt(s, i)
  }

  /** The alternatives of `\b(cant|wont|dont|isnt|arent|wasnt|werent)\b`, in order. */
  const CONTRACTIONS: seq<string> := ["cant", "wont", "dont", "isnt", "arent", "wasnt", "werent"]

  /** One substitution pass. */
  datatype Rule =
    | Contractions(words: seq<string>)          // `\b(w1|w2|...)\b`, apostrophe after the first letter
    | Word(word: string, replacement: string)   // `\bword\b` -> replacement
    | YouAreRight                               // `\byou\s+are\s+right\b` -> 'you are correct'

  /** The contraction repair pass. */
  const CONTRACTION_RULE: Rule := Contractions(CONTRACTIONS)

  /** The word fixes, in the order the dictionary lists them. */
  const FIXES: seq<Rule> := [Word("teh", "the"), Word("adn", "and"), Word("yoru", "your"), YouAreRight]

  /** A non-empty word of lower-case ASCII letters. */
  predicate LowerWord(w: string) {
    w != [] && forall k :: 0 <= k < |w| ==> IsLower(w[k])
  }

  /** The listed words are lower-case words and a replacement is visible. */
  predicate WellFormed(r: Rule) {
    match r
    case Contractions(words) => forall w :: w in words ==> LowerWord(w)
    case Word(word, replacement) => LowerWord(word) && !Blank(replacement)
    case YouAreRight => true
  }

  lemma ContractionRuleIsWellFormed()
    ensures WellFormed(CONTRACTION_RULE)
  {
    forall k | 0 <= k < |CONTRACTIONS|
      ensures LowerWord(CONTRACTIONS[k])
    {
    }
  }

  lemma FixesAreWellFormed()
    ensures forall r :: r in FIXES ==> WellFormed(r)
  {
    assert !IsSpace('t') && !IsSpace('a') && !IsSpace('y');
    assert "the"[0] == 't' && "and"[0] == 'a' && "your"[0] == 'y';
  }

  /** The lower-case text `w` occurs at `i`, ignoring the case of `s`. */
  predicate CaselessAt(s: string, i: nat, w: string) {
    i + |w| <= |s| && forall k :: 0 <= k < |w| ==> LowerChar(s[i + k]) == w[k]
  }

  lemma CaselessAtIff(s: string, i: nat, w: string)
    requires i + |w| <= |s|
    ensures CaselessAt(s, i, w) <==> Lower(s[i..i + |w|]) == w
  {
    if CaselessAt(s, i, w) {
      forall k | 0 <= k < |w|
        ensures Lower(s[i..i + |w|])[k] == w[k]
      {
        assert s[i..i + |w|][k] == s[i + k];
      }
    }
    if Lower(s[i..i + |w|]) == w {
      forall k | 0 <= k < |w|
        ensures LowerChar(s[i + k]) == w[k]
      {
        assert s[i..i + |w|][k] == s[i + k];
      }
    }
  }

  /** `\b` w `\b` matches at `i`, ignoring case. */
  predicate WholeWordAt(s: string, i: nat, w: string) {
    Boundary(s, i) && CaselessAt(s, i, w) && Boundary(s, i + |w|)
  }

  /** The alternation: the first alternative that matches at `i` as a whole word. */
  function FirstAlternative(s: string, i: nat, alts: seq<string>): (m: Option<nat>)
    requires forall w :: w in alts ==> LowerWord(w)
    ensures m.Some? ==> exists w :: w in alts && WholeWordAt(s, i, w) && m.value == |w|
    ensures m.None? ==> forall w :: w in alts ==> !WholeWordAt(s, i, w)
    decreases |alts|
  {
    if alts == [] then None
    else if WholeWordAt(s, i, alts[0]) then assert alts[0] in alts; Some(|alts[0]|)
    else
      var m := FirstAlternative(s, i, alts[1..]);
      assert forall w :: w in alts && w != alts[0] ==> w in alts[1..];
      m
  }

  /** Length of the match of the rule's pattern at `i`, if any. */
  function MatchAt(r: Rule, s: string, i: nat): (m: Option<nat>)
    requires i <= |s|
    requires WellFormed(r)
    ensures m.Some? ==> 1 <= m.value && i + m.value <= |s|
  {
    match r
    case Contractions(words) => FirstAlternative(s, i, words)
    case Word(w, _) =>
      if WholeWordAt(s, i, w) then Some(|w|) else None
    case YouAreRight => YouAreRightAt(s, i)
  }

  /** `\byou\s+are\s+right\b` at `i`, ignoring case. Each `\s+` takes the
      whole whitespace run: the next pattern character is a letter, so giving
      whitespace back never helps. */
  function YouAreRightAt(s: string, i: nat): (m: Option<nat>)
    requires i <= |s|
    ensures m.Some? ==> 1 <= m.value && i + m.value <= |s|
  {
    if Boundary(s, i) && CaselessAt(s, i, "you") then
      var j := i + 3 + LeadingSpace(s[i + 3..]);
      if j > i + 3 && CaselessAt(s, j, "are") then
        var k := j + 3 + LeadingSpace(s[j + 3..]);
        if k > j + 3 && CaselessAt(s, k, "right") && Boundary(s, k + 5)
        then Some(k + 5 - i)
        else None
      else None
    else None
  }

  /** The text that replaces the matched text `m`. */
  function Replacement(r: Rule, m: string): string
    requires m != []
  {
    match r
    case Contractions(_) => [m[0]] + "'" + m[1..]
    case Word(_, fix) => fix
    case YouAreRight => "you are correct"
  }

  /** The scan of `re.sub` from position `i`: replace the match at `i` and jump
      past it, or copy one character and move on. */
  function SubFrom(r: Rule, s: string, i: nat): string
    requires i <= |s|
    requires WellFormed(r)
    decreases |s| - i
  {
    if i == |s| then []
    else match MatchAt(r, s, i)
      case Some(n) => Replacement(r, s[i..i + n]) + SubFrom(r, s, i + n)
      case None => [s[i]] + SubFrom(r, s, i + 1)
  }

  /** `re.sub(pattern, replacement, s, flags=re.IGNORECASE)` */
  function Sub(r: Rule, s: string): string
    requires WellFormed(r)
  {
    SubFrom(r, s, 0)
  }

  /** The passes in order: the contraction repair, then each word fix. */
  function SubAll(rules: seq<Rule>, s: string): string
    requires forall r :: r in rules ==> WellFormed(r)
    decreases |rules|
  {
    if rules == [] then s else SubAll(rules[1..], Sub(rules[0], s))
  }

  // ---------------------------------------------------------------------------
  // The word-by-word reading

  /** Length of the maximal prefix of `s` whose characters are all word
      characters or all non-word characters. */
  function RunLength(s: string): (n: nat)
    requires s != []
    ensures 1 <= n <= |s|
    ensures forall k :: 0 <= k < n ==> IsWordChar(s[k]) == IsWordChar(s[0])
    ensures n < |s| ==> IsWordChar(s[n]) != IsWordChar(s[0])
    decreases |s|
  {
    if |s| > 1 && IsWordChar(s[1]) == IsWordChar(s[0]) then
      var m := RunLength(s[1..]);
      assert forall k :: 1 <= k < 1 + m ==> s[k] == s[1..][k - 1];
      1 + m
    else 1
  }

  /** The words a single-word rule rewrites. */
  function Alternatives(r: Rule): seq<string>
    requires !r.YouAreRight?
  {
    match r
    case Contractions(words) => words
    case Word(w, _) => [w]
  }

  /** What a single-word rule makes of one whole word `w`. */
  function WordImage(r: Rule, w: string): string
    requires !r.YouAreRight? && w != []
  {
    if Lower(w) in Alternatives(r) then Replacement(r, w) else w
  }

  /** What a single-word rule makes of one run: word runs go through
      `WordImage`, non-word runs are kept. */
  function RunImage(r: Rule, run: string): string
    requires !r.YouAreRight? && run != []
  {
    if IsWordChar(run[0]) then WordImage(r, run) else run
  }

  /** Rewrite every maximal word run, keep every non-word run. */
  function MapWords(r: Rule, s: string): string
    requires !r.YouAreRight?
    decreases |s|
  {
    if s == [] then []
    else
      var n := RunLength(s);
      RunImage(r, s[..n]) + MapWords(r, s[n..])
  }

  // ---------------------------------------------------------------------------
  // The scan and the word-by-word reading agree

  /** One step of the scan where nothing matches. */
  lemma SubFromCopies(r: Rule, s: string, i: nat)
    requires WellFormed(r) && i < |s| && MatchAt(r, s, i).None?
    ensures SubFrom(r, s, i) == [s[i]] + SubFrom(r, s, i + 1)
  {
  }

  /** One step of the scan where the rule matches. */
  lemma SubFromReplaces(r: Rule, s: string, i: nat)
    requires WellFormed(r) && i < |s| && MatchAt(r, s, i).Some?
    ensures var n := MatchAt(r, s, i).value;
      SubFrom(r, s, i) == Replacement(r, s[i..i + n]) + SubFrom(r, s, i + n)
  {
  }

  /** One more unmatched character in front of a copied stretch. */
  lemma StretchStep(r: Rule, s: string, i: nat, e: nat)
    requires WellFormed(r) && i < e <= |s| && MatchAt(r, s, i).None?
    requires SubFrom(r, s, i + 1) == s[i + 1..e] + SubFrom(r, s, e)
    ensures SubFrom(r, s, i) == s[i..e] + SubFrom(r, s, e)
  {
    SubFromCopies(r, s, i);
    assert s[i..e] == [s[i]] + s[i + 1..e];
  }

  /** Where nothing matches, the scan copies the text. */
  lemma {:induction false} UnmatchedStretch(r: Rule, s: string, i: nat, e: nat)
    requires WellFormed(r)
    requires i <= e <= |s|
    requires forall k :: i <= k < e ==> MatchAt(r, s, k).None?
    ensures SubFrom(r, s, i) == s[i..e] + SubFrom(r, s, e)
    decreases e - i
  {
    if i < e {
      UnmatchedStretch(r, s, i + 1, e);
      StretchStep(r, s, i, e);
    } else {
      assert s[i..e] == [];
    }
  }

  /** A rule that matches nowhere leaves the text unchanged. */
  lemma SubWithoutMatchIsIdentity(r: Rule, s: string)
    requires WellFormed(r)
    requires forall k :: 0 <= k <= |s| ==> MatchAt(r, s, k).None?
    ensures Sub(r, s) == s
  {
    UnmatchedStretch(r, s, 0, |s|);
    assert s[0..|s|] == s;
  }

  /** The run starting at `i`, restated over `s` itself. */
  lemma RunAt(s: string, i: nat)
    requires i < |s|
    ensures var n := RunLength(s[i..]);
      && i + n <= |s|
      && s[i..][..n] == s[i..i + n]
      && (forall k :: i <= k < i + n ==> IsWordChar(s[k]) == IsWordChar(s[i]))
      && (i + n < |s| ==> IsWordChar(s[i + n]) != IsWordChar(s[i]))
  {
    var n := RunLength(s[i..]);
    assert forall k :: i <= k < i + n ==> s[k] == s[i..][k - i];
    assert i + n < |s| ==> s[i + n] == s[i..][n];
  }

  /** A lower-case word matched at `i` spans exactly the word run that starts at `i`. */
  lemma WholeWordSpansRun(s: string, i: nat, w: string)
    requires i < |s| && LowerWord(w) && WholeWordAt(s, i, w)
    ensures IsWordChar(s[i]) && |w| == RunLength(s[i..])
  {
    RunAt(s, i);
    forall k | i <= k < i + |w|
      ensures IsWordChar(s[k])
    {
      assert LowerChar(s[i + (k - i)]) == w[k - i];
    }
  }

  /** A word rule matches only at a `\b` before a word character, and only
      one of its words. */
  lemma WordRuleMatch(r: Rule, s: string, k: nat) returns (w: string)
    requires WellFormed(r) && !r.YouAreRight? && k <= |s|
    requires MatchAt(r, s, k).Some?
    ensures k < |s| && Boundary(s, k) && IsWordChar(s[k])
    ensures w in Alternatives(r) && WholeWordAt(s, k, w) && LowerWord(w)
    ensures MatchAt(r, s, k).value == |w|
  {
    if r.Contractions? {
      w := ContractionMatch(r, s, k);
    } else {
      w := SingleWordMatch(r, s, k);
    }
  }

  lemma ContractionMatch(r: Rule, s: string, k: nat) returns (w: string)
    requires WellFormed(r) && r.Contractions? && k <= |s|
    requires MatchAt(r, s, k).Some?
    ensures k < |s| && Boundary(s, k) && IsWordChar(s[k])
    ensures w in Alternatives(r) && WholeWordAt(s, k, w) && LowerWord(w)
    ensures MatchAt(r, s, k).value == |w|
  {
    var m := FirstAlternative(s, k, r.words);
    assert MatchAt(r, s, k) == m;
    w :| w in r.words && WholeWordAt(s, k, w) && m.value == |w|;
    assert LowerChar(s[k + 0]) == w[0];
  }

  lemma SingleWordMatch(r: Rule, s: string, k: nat) returns (w: string)
    requires WellFormed(r) && r.Word? && k <= |s|
    requires MatchAt(r, s, k).Some?
    ensures k < |s| && Boundary(s, k) && IsWordChar(s[k])
    ensures w in Alternatives(r) && WholeWordAt(s, k, w) && LowerWord(w)
    ensures MatchAt(r, s, k).value == |w|
  {
    w := r.word;
    assert LowerChar(s[k + 0]) == w[0];
  }

  /** At the start of a word run that is one of the rule's words, the rule
      matches the whole run. */
  lemma MatchAtListedWord(r: Rule, s: string, i: nat)
    requires WellFormed(r) && !r.YouAreRight?
    requires i < |s| && (i == 0 || Boundary(s, i)) && IsWordChar(s[i])
    requires Lower(s[i..i + RunLength(s[i..])]) in Alternatives(r)
    ensures MatchAt(r, s, i) == Some(RunLength(s[i..]))
  {
    RunAt(s, i);
    var n := RunLength(s[i..]);
    CaselessAtIff(s, i, Lower(s[i..i + n]));
    assert WholeWordAt(s, i, Lower(s[i..i + n]));
    var w := WordRuleMatch(r, s, i);
    WholeWordSpansRun(s, i, w);
  }

  /** A word rule that matches at the start of a run matches one of its
      words, spanning the whole run. */
  lemma MatchImpliesListed(r: Rule, s: string, i: nat)
    requires WellFormed(r) && !r.YouAreRight?
    requires i < |s|
    ensures MatchAt(r, s, i).Some? ==>
      IsWordChar(s[i]) && Lower(s[i..i + RunLength(s[i..])]) in Alternatives(r)
  {
    if MatchAt(r, s, i).Some? {
      var w := WordRuleMatch(r, s, i);
      WholeWordSpansRun(s, i, w);
      ListedRun(s, i, w, Alternatives(r));
    }
  }

  lemma ListedRun(s: string, i: nat, w: string, alts: seq<string>)
    requires i < |s| && w in alts && LowerWord(w) && WholeWordAt(s, i, w)
    ensures Lower(s[i..i + RunLength(s[i..])]) in alts
  {
    WholeWordSpansRun(s, i, w);
    CaselessAtIff(s, i, w);
  }

  /** Inside a run, past its first character, a word rule never matches. */
  lemma NoMatchInsideRun(r: Rule, s: string, i: nat)
    requires WellFormed(r) && !r.YouAreRight?
    requires i < |s|
    ensures forall k :: i < k < i + RunLength(s[i..]) ==> MatchAt(r, s, k).None?
  {
    RunAt(s, i);
    forall k | i < k < i + RunLength(s[i..])
      ensures !Boundary(s, k)
    {
    }
    forall k | i < k < i + RunLength(s[i..])
      ensures MatchAt(r, s, k).Some? ==> Boundary(s, k)
    {
      if MatchAt(r, s, k).Some? {
        var w := WordRuleMatch(r, s, k);
      }
    }
  }

  /** The scan consumes one run at a time. */
  lemma SubFromOneRun(r: Rule, s: string, i: nat)
    requires WellFormed(r) && !r.YouAreRight?
    requires i < |s| && (i == 0 || Boundary(s, i))
    ensures var e := i + RunLength(s[i..]);
      e <= |s| && SubFrom(r, s, i) == RunImage(r, s[i..e]) + SubFrom(r, s, e)
  {
    RunAt(s, i);
    var e := i + RunLength(s[i..]);
    var run := s[i..e];
    if IsWordChar(s[i]) && Lower(run) in Alternatives(r) {
      ListedRunReplaced(r, s, i);
      assert RunImage(r, run) == Replacement(r, run);
    } else {
      UnlistedRunCopied(r, s, i);
      assert RunImage(r, run) == run;
    }
  }

  /** A run that is one of the rule's words is replaced. */
  lemma ListedRunReplaced(r: Rule, s: string, i: nat)
    requires WellFormed(r) && !r.YouAreRight?
    requires i < |s| && (i == 0 || Boundary(s, i)) && IsWordChar(s[i])
    requires Lower(s[i..i + RunLength(s[i..])]) in Alternatives(r)
    ensures i + RunLength(s[i..]) <= |s|
    ensures SubFrom(r, s, i)
      == Replacement(r, s[i..i + RunLength(s[i..])]) + SubFrom(r, s, i + RunLength(s[i..]))
  {
    MatchAtListedWord(r, s, i);
    SubFromReplaces(r, s, i);
  }

  /** A run that is not one of the rule's words is copied as it is. */
  lemma UnlistedRunCopied(r: Rule, s: string, i: nat)
    requires WellFormed(r) && !r.YouAreRight?
    requires i < |s|
    requires !IsWordChar(s[i]) || Lower(s[i..i + RunLength(s[i..])]) !in Alternatives(r)
    ensures i + RunLength(s[i..]) <= |s|
    ensures SubFrom(r, s, i) == s[i..i + RunLength(s[i..])] + SubFrom(r, s, i + RunLength(s[i..]))
  {
    var e := i + RunLength(s[i..]);
    NoMatchInsideRun(r, s, i);
    UnmatchedStretch(r, s, i + 1, e);
    MatchImpliesListed(r, s, i);
    StretchStep(r, s, i, e);
  }

  /** One run of the word-by-word reading. */
  lemma MapWordsStep(r: Rule, t: string)
    requires !r.YouAreRight? && t != []
    ensures MapWords(r, t) == RunImage(r, t[..RunLength(t)]) + MapWords(r, t[RunLength(t)..])
  {
  }

  lemma {:induction false} SubFromRunStart(r: Rule, s: string, i: nat)
    requires WellFormed(r) && !r.YouAreRight?
    requires i <= |s| && (i == 0 || i == |s| || Boundary(s, i))
    ensures SubFrom(r, s, i) == MapWords(r, s[i..])
    decreases |s| - i
  {
    if i < |s| {
      RunAt(s, i);
      var n := RunLength(s[i..]);
      var e := i + n;
      assert e < |s| ==> Boundary(s, e);
      SubFromOneRun(r, s, i);
      SubFromRunStart(r, s, e);
      assert s[i..][n..] == s[e..];
      calc {
        SubFrom(r, s, i);
        RunImage(r, s[i..e]) + SubFrom(r, s, e);
        RunImage(r, s[i..e]) + MapWords(r, s[e..]);
        RunImage(r, s[i..][..n]) + MapWords(r, s[i..][n..]);
        { MapWordsStep(r, s[i..]); }
        MapWords(r, s[i..]);
      }
    } else {
      assert s[i..] == [];
    }
  }

  /** The contraction repair and the single-word fixes rewrite exactly the
      whole words (maximal runs of `\w` characters) that, lower-cased, are one
      of the rule's words, and copy every other character. */
  lemma WordRuleRewritesWholeWords(r: Rule, s: string)
    requires WellFormed(r) && !r.YouAreRight?
    ensures Sub(r, s) == MapWords(r, s)
  {
    SubFromRunStart(r, s, 0);
    assert s[0..] == s;
  }

  // ---------------------------------------------------------------------------
  // Visible text survives every pass

  /** What replaces a match is never blank. */
  lemma ReplacementVisible(r: Rule, s: string, i: nat)
    requires WellFormed(r) && i <= |s| && MatchAt(r, s, i).Some?
    ensures !Blank(Replacement(r, s[i..i + MatchAt(r, s, i).value]))
  {
    var m := s[i..i + MatchAt(r, s, i).value];
    match r
    case Contractions(_) =>
      var w := WordRuleMatch(r, s, i);
      assert Replacement(r, m)[0] == s[i];
    case Word(_, _) =>
    case YouAreRight =>
      assert Replacement(r, m)[0] == 'y';
  }

  lemma ReplacedVisible(r: Rule, s: string, i: nat)
    requires WellFormed(r) && i < |s| && MatchAt(r, s, i).Some?
    ensures !Blank(SubFrom(r, s, i))
  {
    var n := MatchAt(r, s, i).value;
    SubFromReplaces(r, s, i);
    ReplacementVisible(r, s, i);
    BlankAppend(Replacement(r, s[i..i + n]), SubFrom(r, s, i + n));
  }

  lemma CopiedVisible(r: Rule, s: string, i: nat)
    requires WellFormed(r) && i < |s| && MatchAt(r, s, i).None?
    ensures !IsSpace(s[i]) || !Blank(SubFrom(r, s, i + 1)) ==> !Blank(SubFrom(r, s, i))
  {
    SubFromCopies(r, s, i);
    BlankAppend([s[i]], SubFrom(r, s, i + 1));
    assert [s[i]][0] == s[i];
  }

  lemma {:induction false} SubFromKeepsVisible(r: Rule, s: string, i: nat)
    requires WellFormed(r) && i <= |s|
    requires !Blank(s[i..])
    ensures !Blank(SubFrom(r, s, i))
    decreases |s| - i
  {
    assert s[i..] != [];
    if MatchAt(r, s, i).Some? {
      ReplacedVisible(r, s, i);
    } else {
      if IsSpace(s[i]) {
        assert !Blank(s[i + 1..]) by {
          assert s[i..] == [s[i]] + s[i + 1..];
          BlankAppend([s[i]], s[i + 1..]);
        }
        SubFromKeepsVisible(r, s, i + 1);
      }
      CopiedVisible(r, s, i);
    }
  }

  /** A substitution pass never turns text with a visible character into
      blank text. */
  lemma SubKeepsVisible(r: Rule, s: string)
    requires WellFormed(r) && !Blank(s)
    ensures !Blank(Sub(r, s))
  {
    assert s[0..] == s;
    SubFromKeepsVisible(r, s, 0);
  }

  lemma {:induction false} SubAllKeepsVisible(rules: seq<Rule>, s: string)
    requires forall r :: r in rules ==> WellFormed(r)
    requires !Blank(s)
    ensures !Blank(SubAll(rules, s))
    decreases |rules|
  {
    if rules != [] {
      SubKeepsVisible(rules[0], s);
      SubAllKeepsVisible(rules[1..], Sub(rules[0], s));
    }
  }

  // ---------------------------------------------------------------------------
  // Examples

  /** A text that is one listed word, in any case, is replaced as a whole. */
  lemma ListedWordAlone(r: Rule, s: string)
    requires WellFormed(r) && !r.YouAreRight?
    requires s != [] && forall k :: 0 <= k < |s| ==> IsWordChar(s[k])
    requires Lower(s) in Alternatives(r)
    ensures Sub(r, s) == Replacement(r, s)
  {
    WordRuleRewritesWholeWords(r, s);
    assert RunLength(s) == |s|;
    assert s[..|s|] == s && s[|s|..] == [];
  }

  /** A text that is one of the contractions, in any case, gets its
      apostrophe after the first letter and keeps the case of every letter:
      with the source's list, "cant" becomes "c'ant" and "Dont" becomes
      "D'ont". */
  lemma ContractionAlone(words: seq<string>, s: string)
    requires WellFormed(Contractions(words))
    requires forall k :: 0 <= k < |s| ==> IsWordChar(s[k])
    requires Lower(s) in words
    ensures s != [] && Sub(Contractions(words), s) == [s[0]] + "'" + s[1..]
  {
    ListedWordAlone(Contractions(words), s);
  }
}
