/** ASCII character classes and the few Python `str` operations the server
    relies on: `strip`, `lower`, `split`, `startswith`, `endswith`, `in`,
    `rstrip(chars)` and `str(int)`. Characters outside ASCII are treated as
    neither letters, digits nor whitespace. */
module Text {

  /** Python's `str.isspace` restricted to ASCII: tab, line feed, vertical tab,
      form feed, carriage return, the separators 0x1C-0x1F and space. The same
      set is `\s` in a `re` pattern and the separator set of `strip()` and
      `split()`. */
  predicate IsSpace(c: char) {
    (9 <= c as int <= 13) || (28 <= c as int <= 32)
  }

  predicate IsUpper(c: char) { 'A' <= c <= 'Z' }

  predicate IsLower(c: char) { 'a' <= c <= 'z' }

  predicate IsDigit(c: char) { '0' <= c <= '9' }

  predicate IsAlpha(c: char) { IsUpper(c) || IsLower(c) }

  predicate IsAlnum(c: char) { IsAlpha(c) || IsDigit(c) }

  /** A character matched by `\w`: letters, digits and the underscore. */
  predicate IsWordChar(c: char) { IsAlnum(c) || c == '_' }

  function LowerChar(c: char): (r: char)
    ensures IsAlpha(c) ==> IsLower(r) && UpperChar(r) == UpperChar(c)
    ensures !IsAlpha(c) ==> r == c
  {
    if IsUpper(c) then (c as int + 32) as char else c
  }

  function UpperChar(c: char): (r: char)
    ensures IsAlpha(c) ==> IsUpper(r)
    ensures !IsAlpha(c) ==> r == c
  {
    if IsLower(c) then (c as int - 32) as char else c
  }

  /** `s.lower()` */
  function Lower(s: string): (r: string)
    ensures |r| == |s|
    ensures forall k :: 0 <= k < |s| ==> r[k] == LowerChar(s[k])
  {
    seq(|s|, k requires 0 <= k < |s| => LowerChar(s[k]))
  }

  /** Every character is whitespace (the empty string included). */
  predicate Blank(s: string) {
    forall k :: 0 <= k < |s| ==> IsSpace(s[k])
  }

  lemma BlankAppend(a: string, b: string)
    ensures Blank(a + b) <==> Blank(a) && Blank(b)
  {
    if Blank(a + b) {
      assert forall k :: 0 <= k < |a| ==> a[k] == (a + b)[k];
      assert forall k :: 0 <= k < |b| ==> b[k] == (a + b)[|a| + k];
    }
  }

  /** No two adjacent whitespace characters. */
  predicate NoDoubleSpace(s: string) {
    forall k :: 0 < k < |s| ==> !IsSpace(s[k - 1]) || !IsSpace(s[k])
  }

  /** The visible characters of `s`, in order: `s` with all whitespace removed. */
  function NonSpace(s: string): string
    decreases |s|
  {
    if s == [] then []
    else (if IsSpace(s[0]) then [] else [s[0]]) + NonSpace(s[1..])
  }

  lemma NonSpaceAppend(a: string, b: string)
    ensures NonSpace(a + b) == NonSpace(a) + NonSpace(b)
    decreases |a|
  {
    if a != [] {
      assert (a + b)[1..] == a[1..] + b;
      NonSpaceAppend(a[1..], b);
    } else {
      assert a + b == b;
    }
  }

  lemma NonSpaceOfBlank(s: string)
    ensures NonSpace(s) == [] <==> Blank(s)
    decreases |s|
  {
    if s != [] {
      NonSpaceOfBlank(s[1..]);
      if Blank(s) {
        assert Blank(s[1..]);
      } else if IsSpace(s[0]) {
        assert !Blank(s[1..]) by {
          var k :| 0 <= k < |s| && !IsSpace(s[k]);
          assert s[1..][k - 1] == s[k];
        }
      }
    }
  }

  /** Number of whitespace characters at the start of `s`. */
  function LeadingSpace(s: string): (n: nat)
    ensures n <= |s|
    ensures Blank(s[..n])
    ensures n < |s| ==> !IsSpace(s[n])
    decreases |s|
  {
    if s != [] && IsSpace(s[0]) then
      var m := LeadingSpace(s[1..]);
      assert forall k :: 0 < k < 1 + m ==> s[k] == s[1..][..m][k - 1];
      1 + m
    else 0
  }

  /** Number of whitespace characters at the end of `s`. */
  function TrailingSpace(s: string): (n: nat)
    ensures n <= |s|
    ensures Blank(s[|s| - n..])
    ensures n < |s| ==> !IsSpace(s[|s| - n - 1])
    decreases |s|
  {
    if s != [] && IsSpace(s[|s| - 1]) then
      var m := TrailingSpace(s[..|s| - 1]);
      assert forall k :: |s| - 1 - m <= k < |s| - 1 ==> s[k] == s[..|s| - 1][k];
      1 + m
    else 0
  }

  /** `s.strip()`: the slice of `s` left after removing leading and trailing
      whitespace. */
  function Strip(s: string): (r: string)
    ensures LeadingSpace(s) + |r| <= |s|
    ensures r == s[LeadingSpace(s)..LeadingSpace(s) + |r|]
    ensures Blank(s[..LeadingSpace(s)]) && Blank(s[LeadingSpace(s) + |r|..])
    ensures r == [] <==> Blank(s)
    ensures r != [] ==> !IsSpace(r[0]) && !IsSpace(r[|r| - 1])
  {
    var a := LeadingSpace(s);
    var rest := s[a..];
    var r := rest[..|rest| - TrailingSpace(rest)];
    assert s[a + |r|..] == rest[|rest| - TrailingSpace(rest)..];
    assert Blank(s) ==> a == |s|;
    assert r == [] ==> a == |s|;
    assert s[..|s|] == s;
    r
  }

  /** A text is its prefix, middle and suffix put together. */
  lemma SplitThree(s: string, i: nat, j: nat)
    requires i <= j <= |s|
    ensures s == s[..i] + s[i..j] + s[j..]
  {
  }

  /** Stripping never adds, drops or reorders a visible character. */
  lemma StripKeepsNonSpace(s: string)
    ensures NonSpace(Strip(s)) == NonSpace(s)
  {
    var a := LeadingSpace(s);
    var r := Strip(s);
    var tail := s[a + |r|..];
    calc {
      NonSpace(s);
      { SplitThree(s, a, a + |r|); }
      NonSpace(s[..a] + r + tail);
      { NonSpaceAppend(s[..a] + r, tail); }
      NonSpace(s[..a] + r) + NonSpace(tail);
      { NonSpaceAppend(s[..a], r); NonSpaceOfBlank(s[..a]); NonSpaceOfBlank(tail); }
      NonSpace(r);
    }
  }

  /** `t` occurs in `s` starting at index `i`. */
  predicate OccursAt(s: string, t: string, i: int) {
    0 <= i && i + |t| <= |s| && s[i..i + |t|] == t
  }

  /** `t in s`: `t` occurs as a contiguous substring of `s`. */
  predicate Contains(s: string, t: string)
    decreases |s|
  {
    StartsWith(s, t) || (s != [] && Contains(s[1..], t))
  }

  lemma {:induction false} ContainsIff(s: string, t: string)
    ensures Contains(s, t) <==> exists i :: OccursAt(s, t, i)
    decreases |s|
  {
    if s != [] {
      ContainsIff(s[1..], t);
      if StartsWith(s, t) {
        assert OccursAt(s, t, 0);
      }
      if exists i :: OccursAt(s[1..], t, i) {
        var i :| OccursAt(s[1..], t, i);
        assert s[i + 1..i + 1 + |t|] == s[1..][i..i + |t|];
        assert OccursAt(s, t, i + 1);
      }
      if exists i :: OccursAt(s, t, i) {
        var i :| OccursAt(s, t, i);
        if i > 0 {
          assert s[1..][i - 1..i - 1 + |t|] == s[i..i + |t|];
          assert OccursAt(s[1..], t, i - 1);
        }
      }
    } else if t == [] {
      assert OccursAt(s, t, 0);
    }
  }

  /** `t` occurs in `pre + t + post`. */
  lemma ContainsMiddle(pre: string, t: string, post: string)
    ensures Contains(pre + t + post, t)
  {
    var s := pre + t + post;
    assert s[|pre|..|pre| + |t|] == t;
    assert OccursAt(s, t, |pre|);
    ContainsIff(s, t);
  }

  /** `s.startswith(p)` */
  predicate StartsWith(s: string, p: string) {
    |p| <= |s| && s[..|p|] == p
  }

  /** `s.endswith(p)` */
  predicate EndsWith(s: string, p: string) {
    |p| <= |s| && s[|s| - |p|..] == p
  }

  /** `any(w in s for w in words)`, evaluated left to right. */
  function AnyContained(words: seq<string>, s: string): (b: bool)
    ensures b <==> exists w :: w in words && Contains(s, w)
    decreases |words|
  {
    if words == [] then false
    else if Contains(s, words[0]) then assert words[0] in words; true
    else
      var b := AnyContained(words[1..], s);
      assert b <==> exists w :: w in words && Contains(s, w) by {
        forall w | w in words && Contains(s, w) ensures w in words[1..] {
          assert w != words[0];
        }
      }
      b
  }

  /** `any(s.startswith(w) for w in words)`, evaluated left to right. */
  function AnyPrefix(words: seq<string>, s: string): (b: bool)
    ensures b <==> exists w :: w in words && StartsWith(s, w)
    decreases |words|
  {
    if words == [] then false
    else if StartsWith(s, words[0]) then true
    else
      assert words == [words[0]] + words[1..];
      AnyPrefix(words[1..], s)
  }

  /** Number of visible characters at the start of `s`. */
  function WordLength(s: string): (n: nat)
    ensures n <= |s|
    ensures forall k :: 0 <= k < n ==> !IsSpace(s[k])
    ensures n < |s| ==> IsSpace(s[n])
    decreases |s|
  {
    if s != [] && !IsSpace(s[0]) then
      var m := WordLength(s[1..]);
      assert forall k :: 0 < k < 1 + m ==> s[k] == s[1..][k - 1];
      1 + m
    else 0
  }

  /** `s.split()`: the maximal runs of visible characters, in order. */
  function Tokens(s: string): (ts: seq<string>)
    ensures ts == [] <==> Blank(s)
    decreases |s|
  {
    if s == [] then []
    else if IsSpace(s[0]) then
      var ts := Tokens(s[1..]);
      assert Blank(s) <==> Blank(s[1..]) by {
        assert forall k :: 0 < k < |s| ==> s[k] == s[1..][k - 1];
      }
      ts
    else
      var n := WordLength(s);
      [s[..n]] + Tokens(s[n..])
  }

  /** Every token is a non-empty run of visible characters. */
  lemma {:induction false} TokensAreVisibleRuns(s: string)
    ensures forall k :: 0 <= k < |Tokens(s)| ==> Tokens(s)[k] != []
    ensures forall k, j :: 0 <= k < |Tokens(s)| && 0 <= j < |Tokens(s)[k]| ==> !IsSpace(Tokens(s)[k][j])
    decreases |s|
  {
    if s != [] {
      if IsSpace(s[0]) {
        TokensAreVisibleRuns(s[1..]);
      } else {
        var n := WordLength(s);
        TokensAreVisibleRuns(s[n..]);
        var ts := Tokens(s);
        assert ts[0] == s[..n];
        assert forall k :: 1 <= k < |ts| ==> ts[k] == Tokens(s[n..])[k - 1];
      }
    }
  }

  /** `len(s.split())` */
  function TokenCount(s: string): nat {
    |Tokens(s)|
  }

  /** `" ".join(ts)` */
  function JoinSpaced(ts: seq<string>): string
    decreases |ts|
  {
    if ts == [] then []
    else if |ts| == 1 then ts[0]
    else ts[0] + " " + JoinSpaced(ts[1..])
  }

  /** A run of visible characters followed by nothing or by whitespace is
      the first token. */
  lemma TokensOfWord(x: string, y: string)
    requires x != [] && forall k :: 0 <= k < |x| ==> !IsSpace(x[k])
    requires y == [] || IsSpace(y[0])
    ensures Tokens(x + y) == [x] + Tokens(y)
  {
    var s := x + y;
    var n := WordLength(s);
    assert n >= |x| by {
      assert forall k :: 0 <= k < |x| ==> s[k] == x[k];
    }
    assert n <= |x| by {
      if y != [] {
        assert s[|x|] == y[0];
      }
    }
    assert s[..n] == x;
    assert s[n..] == y;
  }

  /** Skipping leading whitespace keeps the tokens. */
  lemma {:induction false} TokensSkipPrefix(s: string, n: nat)
    requires n <= |s| && Blank(s[..n])
    ensures Tokens(s) == Tokens(s[n..])
    decreases n
  {
    if n > 0 {
      var t := s[1..];
      assert s[..n][0] == s[0];
      assert t[..n - 1] == s[..n][1..];
      TokensSkipPrefix(t, n - 1);
      assert t[n - 1..] == s[n..];
    }
  }

  /** Trailing whitespace contributes no token. */
  lemma {:induction false} TokensDropBlank(a: string, b: string)
    requires Blank(b)
    ensures Tokens(a + b) == Tokens(a)
    decreases |a|
  {
    if a == [] {
      assert a + b == b;
    } else if IsSpace(a[0]) {
      assert (a + b)[0] == a[0];
      assert (a + b)[1..] == a[1..] + b;
      TokensDropBlank(a[1..], b);
    } else {
      var n := WordLength(a);
      var rest := a[n..];
      assert a == a[..n] + rest;
      assert a + b == a[..n] + (rest + b);
      assert rest + b == [] || IsSpace((rest + b)[0]) by {
        if rest != [] {
          assert (rest + b)[0] == a[n];
        } else if b != [] {
          assert (rest + b)[0] == b[0];
        }
      }
      TokensOfWord(a[..n], rest + b);
      TokensDropBlank(rest, b);
    }
  }

  /** Text with a space at `m` is what comes before it, the space, and what
      comes after it. */
  lemma SplitAtSpace(t: string, m: nat)
    requires m < |t| && t[m] == ' '
    ensures t == t[..m] + " " + t[m + 1..]
  {
    assert t[m..m + 1] == " ";
    assert t == t[..m] + t[m..m + 1] + t[m + 1..];
  }

  /** The tokens of a word, a space and more text. */
  lemma TokensAcrossSpace(t: string, m: nat)
    requires 0 < m < |t| && m == WordLength(t) && !IsSpace(t[0])
    ensures Tokens(t) == [t[..m]] + Tokens(t[m + 1..])
  {
    var v := t[m..];
    assert v[1..] == t[m + 1..];
    TokensSkipPrefix(v, 1);
  }

  /** Stripping keeps the tokens. */
  lemma StripKeepsTokens(s: string)
    ensures Tokens(Strip(s)) == Tokens(s)
  {
    var a := LeadingSpace(s);
    var r := Strip(s);
    assert s[a..] == r + s[a + |r|..];
    TokensSkipPrefix(s, a);
    TokensDropBlank(r, s[a + |r|..]);
  }

  /** `s.rstrip(chars)`: `s` without its longest suffix of characters in `chars`. */
  function RStripChars(s: string, chars: set<char>): (r: string)
    ensures |r| <= |s| && r == s[..|r|]
    ensures forall k :: |r| <= k < |s| ==> s[k] in chars
    ensures r != [] ==> r[|r| - 1] !in chars
    decreases |s|
  {
    if s != [] && s[|s| - 1] in chars then
      var r := RStripChars(s[..|s| - 1], chars);
      assert forall k :: |r| <= k < |s| - 1 ==> s[k] == s[..|s| - 1][k];
      r
    else s
  }

  function DigitChar(d: nat): (c: char)
    requires d < 10
    ensures IsDigit(c)
  {
    ('0' as int + d) as char
  }

  /** `str(n)` for a natural number: decimal digits, no leading zeros. */
  function NatToString(n: nat): (r: string)
    ensures r != [] && forall k :: 0 <= k < |r| ==> IsDigit(r[k])
    decreases n
  {
    if n < 10 then [DigitChar(n)] else NatToString(n / 10) + [DigitChar(n % 10)]
  }

  /** `str(i)` for a Python `int`. */
  function IntToString(i: int): string {
    if i < 0 then "-" + NatToString(-i) else NatToString(i)
  }
}
