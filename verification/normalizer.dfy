/** The message normaliser applied to every user message before it is sent
    to the model: trim, repair contractions and common typos, make very
    short statements explicit, mark questions, collapse whitespace, capitalise
    and end statements with a period. Each stage is a function of its own and
    `FineTune` is their composition. */
module Normalizer {
  import opened Text
  import opened Schema
  import opened Rewrite

  /** Words whose presence marks a short message as a greeting or a command. */
  const GREETINGS: seq<string> := ["hi", "hello", "help", "thanks", "thank"]

  /** Words that mark a question when the message starts with one of them,
      and that stop the final period when they occur anywhere in it. */
  const QUESTION_WORDS: seq<string> :=
    ["what", "how", "why", "when", "where", "who", "which", "can", "could",
     "should", "would", "is", "are", "do", "does", "did"]

  const CLARIFY_PREFIX: string := "Please explain: "

  /** Every whitespace character is a plain space. */
  predicate SpacesArePlain(s: string) {
    forall k :: 0 <= k < |s| ==> IsSpace(s[k]) ==> s[k] == ' '
  }

  /** The shape every non-blank result has: no whitespace at either end, no two
      whitespace characters in a row, and only plain spaces. */
  predicate Tidy(s: string) {
    s != [] && !IsSpace(s[0]) && !IsSpace(s[|s| - 1]) && NoDoubleSpace(s) && SpacesArePlain(s)
  }

  // ---------------------------------------------------------------------------
  // Stage 2: clarity

  /** The condition under which a message gets the clarifying prefix: fewer
      than three tokens, no question mark anywhere (the source tests the last
      character first and then the whole text), and no greeting word occurring
      anywhere in the lower-cased text, not even inside another word. */
  predicate NeedsClarifying(s: string) {
    TokenCount(s) < 3 && !EndsWith(s, "?") && !AnyContained(GREETINGS, Lower(s)) && !Contains(s, "?")
  }

  function Clarify(s: string): (r: string)
    ensures NeedsClarifying(s) ==> r == CLARIFY_PREFIX + s
    ensures !NeedsClarifying(s) ==> r == s
  {
    if NeedsClarifying(s) then CLARIFY_PREFIX + s else s
  }

  /** Clarifying only adds visible text in front. */
  lemma ClarifyKeepsVisible(s: string)
    requires !Blank(s)
    ensures !Blank(Clarify(s))
  {
    if NeedsClarifying(s) {
      BlankAppend(CLARIFY_PREFIX, s);
    }
  }

  // ---------------------------------------------------------------------------
  // Stage 3: question marks

  /** The message starts with one of `words` (a plain prefix test on the
      lower-cased text: "issue" starts with "is") and ends with neither a
      question mark nor a period. The normaliser passes `QUESTION_WORDS`. */
  predicate LooksLikeQuestion(words: seq<string>, s: string) {
    AnyPrefix(words, Lower(s)) && !EndsWith(s, "?") && !EndsWith(s, ".")
  }

  function MarkQuestion(words: seq<string>, s: string): (r: string)
    ensures LooksLikeQuestion(words, s) ==>
      1 <= |r| <= |s| + 1 && r[|r| - 1] == '?' && r[..|r| - 1] == s[..|r| - 1]
      && (forall k :: |r| - 1 <= k < |s| ==> s[k] == '!' || s[k] == '.')
      && (|r| > 1 ==> r[|r| - 2] != '!' && r[|r| - 2] != '.')
    ensures !LooksLikeQuestion(words, s) ==> r == s
  {
    if LooksLikeQuestion(words, s) then
      var kept := RStripChars(s, {'.', '!'});
      var r := kept + "?";
      assert r[..|r| - 1] == kept;
      r
    else s
  }

  /** A marked question ends in a question mark, so it is never blank. */
  lemma MarkQuestionKeepsVisible(words: seq<string>, s: string)
    requires !Blank(s)
    ensures !Blank(MarkQuestion(words, s))
  {
    var r := MarkQuestion(words, s);
    if LooksLikeQuestion(words, s) {
      assert !IsSpace(r[|r| - 1]);
    }
  }

  // ---------------------------------------------------------------------------
  // Stage 5: whitespace

  /** `re.sub(r'\s+', ' ', s)`: every maximal whitespace run becomes one space. */
  function Collapse(s: string): (r: string)
    ensures NoDoubleSpace(r) && SpacesArePlain(r)
    ensures r == [] <==> s == []
    ensures r != [] ==> (IsSpace(r[0]) <==> IsSpace(s[0]))
    decreases |s|
  {
    if s == [] then []
    else if IsSpace(s[0]) then
      var rest := Collapse(s[LeadingSpace(s)..]);
      var r := [' '] + rest;
      assert forall k :: 1 <= k < |r| ==> r[k] == rest[k - 1];
      r
    else
      var rest := Collapse(s[1..]);
      var r := [s[0]] + rest;
      assert forall k :: 1 <= k < |r| ==> r[k] == rest[k - 1];
      r
  }

  /** Collapsing keeps every visible character, in order. */
  lemma {:induction false} CollapseKeepsNonSpace(s: string)
    ensures NonSpace(Collapse(s)) == NonSpace(s)
    decreases |s|
  {
    if s != [] {
      var r := Collapse(s);
      if IsSpace(s[0]) {
        var n := LeadingSpace(s);
        CollapseKeepsNonSpace(s[n..]);
        assert s == s[..n] + s[n..];
        NonSpaceAppend(s[..n], s[n..]);
        NonSpaceOfBlank(s[..n]);
        assert r[1..] == Collapse(s[n..]);
      } else {
        CollapseKeepsNonSpace(s[1..]);
        assert r[1..] == Collapse(s[1..]);
      }
    }
  }

  /** Collapsing keeps whether the text ends in whitespace. */
  lemma {:induction false} CollapseKeepsLast(s: string)
    requires s != []
    ensures var r := Collapse(s); IsSpace(r[|r| - 1]) <==> IsSpace(s[|s| - 1])
    decreases |s|
  {
    var r := Collapse(s);
    var n := if IsSpace(s[0]) then LeadingSpace(s) else 1;
    var rest := s[n..];
    assert r[1..] == Collapse(rest);
    if rest != [] {
      CollapseKeepsLast(rest);
      assert r[|r| - 1] == Collapse(rest)[|Collapse(rest)| - 1];
      assert s[|s| - 1] == rest[|rest| - 1];
    } else {
      assert s[|s| - 1] == s[..n][n - 1];
    }
  }

  /** Collapsing whitespace twice is collapsing it once. */
  lemma {:induction false} CollapseIdempotent(s: string)
    ensures Collapse(Collapse(s)) == Collapse(s)
    decreases |s|
  {
    if s != [] {
      if IsSpace(s[0]) {
        var n := LeadingSpace(s);
        var rest := Collapse(s[n..]);
        CollapseIdempotent(s[n..]);
        var r := [' '] + rest;
        assert LeadingSpace(r) == 1 by {
          assert r[1..] == rest;
        }
        assert r[1..] == rest;
      } else {
        var rest := Collapse(s[1..]);
        CollapseIdempotent(s[1..]);
        var r := [s[0]] + rest;
        assert r[1..] == rest;
      }
    }
  }

  /** A leading run of visible characters is copied as it is. */
  lemma {:induction false} CollapseCopiesWord(s: string, m: nat)
    requires m <= |s| && forall k :: 0 <= k < m ==> !IsSpace(s[k])
    ensures Collapse(s) == s[..m] + Collapse(s[m..])
    decreases m
  {
    if m > 0 {
      var t := s[1..];
      CollapseCopiesWord(t, m - 1);
      calc {
        Collapse(s);
        [s[0]] + Collapse(t);
        [s[0]] + (t[..m - 1] + Collapse(t[m - 1..]));
        { assert t[m - 1..] == s[m..]; }
        [s[0]] + (t[..m - 1] + Collapse(s[m..]));
        ([s[0]] + t[..m - 1]) + Collapse(s[m..]);
        { assert [s[0]] + t[..m - 1] == s[..m]; }
        s[..m] + Collapse(s[m..]);
      }
    }
  }

  /** A leading whitespace run collapses to one space. */
  lemma CollapseSpaceRun(s: string)
    requires s != [] && IsSpace(s[0])
    ensures var c := Collapse(s); c != [] && IsSpace(c[0]) && c[1..] == Collapse(s[LeadingSpace(s)..])
  {
  }

  /** One step of `CollapseKeepsTokens`: a leading whitespace run. */
  lemma CollapseSpaceRunStep(s: string, n: nat)
    requires s != [] && IsSpace(s[0]) && n == LeadingSpace(s)
    requires Tokens(Collapse(s[n..])) == Tokens(s[n..])
    ensures Tokens(Collapse(s)) == Tokens(s)
  {
    var c := Collapse(s);
    CollapseSpaceRun(s);
    assert c[..1] == [c[0]];
    TokensSkipPrefix(c, 1);
    TokensSkipPrefix(s, n);
  }

  /** One step of `CollapseKeepsTokens`: a leading word. */
  lemma CollapseWordStep(s: string, m: nat)
    requires s != [] && !IsSpace(s[0]) && m == WordLength(s)
    requires Tokens(Collapse(s[m..])) == Tokens(s[m..])
    ensures Tokens(Collapse(s)) == Tokens(s)
  {
    var rest := Collapse(s[m..]);
    CollapseCopiesWord(s, m);
    assert rest == [] || IsSpace(rest[0]) by {
      if m < |s| {
        assert s[m..][0] == s[m];
      }
    }
    TokensOfWord(s[..m], rest);
  }

  /** Collapsing whitespace keeps the tokens: every whitespace run becomes a
      single space, never nothing, so no two words are joined and none is
      split. */
  lemma {:induction false} CollapseKeepsTokens(s: string)
    ensures Tokens(Collapse(s)) == Tokens(s)
    decreases |s|
  {
    if s != [] {
      if IsSpace(s[0]) {
        var n := LeadingSpace(s);
        CollapseKeepsTokens(s[n..]);
        CollapseSpaceRunStep(s, n);
      } else {
        var m := WordLength(s);
        CollapseKeepsTokens(s[m..]);
        CollapseWordStep(s, m);
      }
    }
  }

  /** Stripping text without double spaces leaves it tidy. */
  lemma StripIsTidy(c: string)
    requires NoDoubleSpace(c) && SpacesArePlain(c)
    ensures Strip(c) != [] ==> Tidy(Strip(c))
  {
    var r := Strip(c);
    var i := LeadingSpace(c);
    assert forall k :: 0 <= k < |r| ==> r[k] == c[i + k];
  }

  /** The whitespace step: collapse, then strip. */
  function NormalizeSpace(s: string): (r: string)
    ensures NonSpace(r) == NonSpace(s)
    ensures r == [] <==> Blank(s)
    ensures r != [] ==> Tidy(r)
  {
    var r := Strip(Collapse(s));
    CollapseKeepsNonSpace(s);
    StripKeepsNonSpace(Collapse(s));
    StripIsTidy(Collapse(s));
    NonSpaceOfBlank(r);
    NonSpaceOfBlank(s);
    r
  }

  /** What follows the first space of tidy text is tidy again. */
  lemma TidyAfterSpace(t: string, m: nat)
    requires Tidy(t) && m < |t| && IsSpace(t[m])
    ensures t[m] == ' ' && m + 1 < |t| && Tidy(t[m + 1..])
  {
    var u := t[m + 1..];
    assert !IsSpace(t[m + 1]);
    assert forall k :: 0 <= k < |u| ==> u[k] == t[m + 1 + k];
  }

  /** Tidy text is its tokens joined by single spaces. */
  lemma {:induction false} TidyIsJoined(t: string)
    requires Tidy(t)
    ensures JoinSpaced(Tokens(t)) == t
    decreases |t|
  {
    var m := WordLength(t);
    if m == |t| {
      assert t[..m] == t && t[m..] == [];
    } else {
      var u := t[m + 1..];
      TidyAfterSpace(t, m);
      TidyIsJoined(u);
      TokensAcrossSpace(t, m);
      var ts := Tokens(t);
      assert ts[0] == t[..m] && ts[1..] == Tokens(u) && |ts| > 1;
      SplitAtSpace(t, m);
    }
  }

  /** The whitespace step is `" ".join(s.split())`: it keeps the tokens of `s`
      and puts exactly one plain space between two of them. */
  lemma NormalizeSpaceJoinsTokens(s: string)
    ensures Tokens(NormalizeSpace(s)) == Tokens(s)
    ensures NormalizeSpace(s) == JoinSpaced(Tokens(s))
  {
    CollapseKeepsTokens(s);
    StripKeepsTokens(Collapse(s));
    if !Blank(s) {
      TidyIsJoined(NormalizeSpace(s));
    }
  }

  // ---------------------------------------------------------------------------
  // Stages 6 and 7: first letter and final period

  /** Upper-cases the first character when it is a lower-case letter. */
  function Capitalize(s: string): (r: string)
    ensures |r| == |s| && Lower(r) == Lower(s)
    ensures r != [] ==> !IsLower(r[0]) && (IsSpace(r[0]) <==> IsSpace(s[0]))
    ensures forall k :: 0 < k < |s| ==> r[k] == s[k]
  {
    if s != [] && !IsUpper(s[0]) && IsAlpha(s[0]) then
      var r := [UpperChar(s[0])] + s[1..];
      assert LowerChar(r[0]) == LowerChar(s[0]);
      assert forall k :: 0 < k < |s| ==> r[k] == s[k];
      r
    else s
  }

  /** Appends a period to text ending in a letter or digit, unless one of
      `words` occurs anywhere in the lower-cased text. The normaliser passes
      `QUESTION_WORDS`. */
  function Terminate(words: seq<string>, s: string): (r: string)
    ensures r == s || r == s + "."
    ensures r != s <==> s != [] && IsAlnum(s[|s| - 1]) && !AnyContained(words, Lower(s))
    ensures r != [] && IsAlnum(r[|r| - 1]) ==> exists w :: w in words && Contains(Lower(r), w)
  {
    if s != [] && IsAlnum(s[|s| - 1]) then
      if !AnyContained(words, Lower(s)) then s + "." else s
    else s
  }

  lemma CapitalizeKeepsTidy(s: string)
    requires Tidy(s)
    ensures Tidy(Capitalize(s))
  {
    var c := Capitalize(s);
    assert |s| > 1 ==> c[|c| - 1] == s[|s| - 1];
  }

  /** A period after tidy text keeps it tidy. */
  lemma PeriodKeepsTidy(s: string)
    requires Tidy(s)
    ensures Tidy(s + ".")
  {
    var t := s + ".";
    assert forall k :: 0 <= k < |s| ==> t[k] == s[k];
    assert t[|t| - 1] == '.';
  }

  lemma TerminateKeepsTidy(words: seq<string>, s: string)
    requires Tidy(s)
    ensures Tidy(Terminate(words, s))
  {
    PeriodKeepsTidy(s);
  }

  // ---------------------------------------------------------------------------
  // The whole normaliser

  /** `fine_tune_user_message(content, context)`. A blank message comes back
      unchanged; any other comes back tidy, with an upper-case first letter if
      it starts with a letter, and ending in a letter or digit only when a
      question word occurs in it. The conversation context is accepted and
      has no effect. */
  function FineTune(content: string, context: Option<seq<Message>>): (r: string)
    ensures Blank(content) ==> r == content
    ensures !Blank(content) ==> Tidy(r) && !IsLower(r[0])
    ensures !Blank(content) && IsAlnum(r[|r| - 1]) ==>
      exists w :: w in QUESTION_WORDS && Contains(Lower(r), w)
  {
    var t0 := Strip(content);
    if t0 == [] then content
    else
      ContractionRuleIsWellFormed();
      FixesAreWellFormed();
      var t4 := MarkQuestion(QUESTION_WORDS, Clarify(SubAll(FIXES, Sub(CONTRACTION_RULE, t0))));
      StagesKeepVisible(t0);
      var t5 := NormalizeSpace(t4);
      CapitalizeKeepsTidy(t5);
      TerminateKeepsTidy(QUESTION_WORDS, Capitalize(t5));
      Terminate(QUESTION_WORDS, Capitalize(t5))
  }

  /** No stage before the whitespace step can make a message blank. */
  lemma StagesKeepVisible(t0: string)
    requires !Blank(t0)
    ensures WellFormed(CONTRACTION_RULE) && forall r :: r in FIXES ==> WellFormed(r)
    ensures !Blank(MarkQuestion(QUESTION_WORDS, Clarify(SubAll(FIXES, Sub(CONTRACTION_RULE, t0)))))
  {
    ContractionRuleIsWellFormed();
    FixesAreWellFormed();
    SubKeepsVisible(CONTRACTION_RULE, t0);
    SubAllKeepsVisible(FIXES, Sub(CONTRACTION_RULE, t0));
    ClarifyKeepsVisible(SubAll(FIXES, Sub(CONTRACTION_RULE, t0)));
    MarkQuestionKeepsVisible(QUESTION_WORDS, Clarify(SubAll(FIXES, Sub(CONTRACTION_RULE, t0))));
  }

  /** The conversation context never changes the result. */
  lemma ContextIgnored(content: string, a: Option<seq<Message>>, b: Option<seq<Message>>)
    ensures FineTune(content, a) == FineTune(content, b)
  {
  }
}
