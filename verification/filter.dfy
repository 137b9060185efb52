/**
 The emoji content filter that the listener attached by a successful `join`
 applies to the text of every later `post` on that connection: a fixed,
 ordered table of literal patterns, each replaced globally (every
 non-overlapping occurrence, scanning left to right) before the next one is
 applied.
 */
module ContentFilter {

  /** `w` is a prefix of `s`. */
  predicate StartsWith(s: string, w: string) {
    |w| <= |s| && s[..|w|] == w
  }

  /** `w` occurs somewhere in `s` as a contiguous substring. */
  predicate Contains(s: string, w: string)
    decreases |s|
  {
    StartsWith(s, w) || (|s| > 0 && Contains(s[1..], w))
  }

  /** No character of `a` occurs in `b`. */
  predicate NoCommonChars(a: string, b: string) {
    forall i, j :: 0 <= i < |a| && 0 <= j < |b| ==> a[i] != b[j]
  }

  /**
   `s.replace(/pat/g, rep)` for a literal, non-empty pattern and a replacement
   without `$` substitutions: scan left to right; at a match emit `rep` and
   resume after the match, otherwise keep one character and move on.
   */
  function ReplaceAll(s: string, pat: string, rep: string): string
    requires |pat| > 0
    decreases |s|
  {
    if |s| == 0 then ""
    else if StartsWith(s, pat) then rep + ReplaceAll(s[|pat|..], pat, rep)
    else [s[0]] + ReplaceAll(s[1..], pat, rep)
  }

  /** A string without an occurrence of the pattern comes out unchanged. */
  lemma {:induction false} ReplaceAllUnchanged(s: string, pat: string, rep: string)
    requires |pat| > 0
    ensures !Contains(s, pat) ==> ReplaceAll(s, pat, rep) == s
    decreases |s|
  {
    if |s| > 0 && !Contains(s, pat) {
      ReplaceAllUnchanged(s[1..], pat, rep);
    }
  }

  /** The first occurrence of the pattern is replaced and the text before it
      is kept: when `x + pat` holds no occurrence that ends before the end of
      `pat`, replacing in `x + pat + y` keeps `x`, writes `rep` and goes on
      with `y`. With `ReplaceAllUnchanged` this fixes the result on every
      input. */
  lemma {:induction false} ReplaceAllLeftmost(x: string, y: string, pat: string, rep: string)
    requires |pat| > 0
    requires !Contains(x + pat[..|pat| - 1], pat)
    ensures ReplaceAll(x + pat + y, pat, rep) == x + rep + ReplaceAll(y, pat, rep)
    decreases |x|
  {
    var s := x + pat + y;
    if |x| == 0 {
      assert s == pat + y;
      assert s[|pat|..] == y;
    } else {
      var t := x + pat[..|pat| - 1];
      assert s[..|pat|] == t[..|pat|];
      assert s[1..] == x[1..] + pat + y;
      assert t[1..] == x[1..] + pat[..|pat| - 1];
      ReplaceAllLeftmost(x[1..], y, pat, rep);
      assert [x[0]] + (x[1..] + rep + ReplaceAll(y, pat, rep)) == x + rep + ReplaceAll(y, pat, rep);
    }
  }

  /** Replacing distributes over a separator character that is not in the
      pattern: no occurrence can span it. */
  lemma {:induction false} ReplaceAllSplit(x: string, c: char, y: string, pat: string, rep: string)
    requires |pat| > 0 && c !in pat
    ensures ReplaceAll(x + [c] + y, pat, rep) == ReplaceAll(x, pat, rep) + [c] + ReplaceAll(y, pat, rep)
    decreases |x|
  {
    var s := x + [c] + y;
    if |x| < |pat| <= |s| {
      assert s[..|pat|][|x|] == c;
    }
    if |x| == 0 {
      assert s == [c] + y;
      assert s[0] != pat[0];
      assert s[1..] == y;
    } else if StartsWith(s, pat) {
      assert x[..|pat|] == s[..|pat|];
      assert s[|pat|..] == x[|pat|..] + [c] + y;
      ReplaceAllSplit(x[|pat|..], c, y, pat, rep);
    } else {
      if |pat| <= |x| {
        assert x[..|pat|] == s[..|pat|];
      }
      assert s[1..] == x[1..] + [c] + y;
      ReplaceAllSplit(x[1..], c, y, pat, rep);
    }
  }

  /** An occurrence in a suffix is an occurrence in the whole string. */
  lemma {:induction false} ContainsSuffix(s: string, k: nat, w: string)
    requires k <= |s|
    ensures Contains(s[k..], w) ==> Contains(s, w)
    decreases k
  {
    if k == 0 {
      assert s[k..] == s;
    } else {
      assert s[1..][k - 1..] == s[k..];
      ContainsSuffix(s[1..], k - 1, w);
    }
  }

  /** Every occurrence of a non-empty `w` starts with a character of `s`. */
  lemma {:induction false} ContainsFirstChar(s: string, w: string)
    requires |w| > 0
    ensures Contains(s, w) ==> w[0] in s
    decreases |s|
  {
    if |s| > 0 {
      ContainsFirstChar(s[1..], w);
      if Contains(s[1..], w) {
        assert w[0] in s[1..];
      }
    }
  }

  /** A prefix made only of characters foreign to `w` neither creates nor
      hides an occurrence of `w`. */
  lemma {:induction false} ContainsSkipForeign(x: string, u: string, w: string)
    requires |w| > 0
    requires NoCommonChars(x, w)
    ensures Contains(x + u, w) <==> Contains(u, w)
    decreases |x|
  {
    if |x| == 0 {
      assert x + u == u;
    } else {
      assert (x + u)[0] == x[0];
      assert !StartsWith(x + u, w);
      assert (x + u)[1..] == x[1..] + u;
      ContainsSkipForeign(x[1..], u, w);
    }
  }

  /** A suffix made only of characters foreign to `w` neither creates nor
      hides an occurrence of `w`. */
  lemma {:induction false} ContainsForeignTail(u: string, y: string, w: string)
    requires |w| > 0
    requires NoCommonChars(y, w)
    ensures Contains(u + y, w) <==> Contains(u, w)
    decreases |u|
  {
    if |u| == 0 {
      assert u + y == y;
      ContainsFirstChar(y, w);
    } else {
      assert StartsWith(u + y, w) ==> |w| <= |u| by {
        if |u| < |w| <= |u| + |y| {
          assert (u + y)[..|w|][|u|] == y[0];
          assert y[0] != w[|u|];
        }
      }
      if |w| <= |u| {
        assert (u + y)[..|w|] == u[..|w|];
      }
      assert (u + y)[1..] == u[1..] + y;
      ContainsForeignTail(u[1..], y, w);
    }
  }

  /** An occurrence of `w` needs room for `w` and each of its characters. */
  lemma {:induction false} ContainsNeedsChar(s: string, w: string, k: nat)
    requires k < |w|
    ensures Contains(s, w) ==> |w| <= |s| && w[k] in s
    decreases |s|
  {
    if StartsWith(s, w) {
      assert s[k] == w[k];
    } else if Contains(s, w) {
      ContainsNeedsChar(s[1..], w, k);
    }
  }

  /** A prefix of the output written without replacement characters was a
      prefix of the input. */
  lemma {:induction false} ReplaceAllPrefix(s: string, pat: string, rep: string, w: string)
    requires |pat| > 0 && |rep| > 0
    requires NoCommonChars(w, rep)
    ensures StartsWith(ReplaceAll(s, pat, rep), w) ==> StartsWith(s, w)
    decreases |s|
  {
    var r := ReplaceAll(s, pat, rep);
    if |w| > 0 && |s| > 0 && !StartsWith(s, pat) {
      var u := ReplaceAll(s[1..], pat, rep);
      assert r == [s[0]] + u;
      ReplaceAllPrefix(s[1..], pat, rep, w[1..]);
      if StartsWith(r, w) {
        assert StartsWith(u, w[1..]);
        assert s[..|w|] == [s[0]] + s[1..][..|w| - 1];
      }
    } else if |w| > 0 && |s| > 0 {
      assert r[0] == rep[0];
    }
  }

  /** Replacing cannot create an occurrence of a string that shares no
      character with the replacement. */
  lemma {:induction false} ReplaceAllAddsNoOccurrence(s: string, pat: string, rep: string, w: string)
    requires |pat| > 0 && |rep| > 0 && |w| > 0
    requires NoCommonChars(w, rep)
    ensures Contains(ReplaceAll(s, pat, rep), w) ==> Contains(s, w)
    decreases |s|
  {
    var r := ReplaceAll(s, pat, rep);
    ReplaceAllPrefix(s, pat, rep, w);
    if |s| > 0 {
      if StartsWith(s, pat) {
        var u := ReplaceAll(s[|pat|..], pat, rep);
        assert r == rep + u;
        ContainsSkipForeign(rep, u, w);
        ReplaceAllAddsNoOccurrence(s[|pat|..], pat, rep, w);
        ContainsSuffix(s, |pat|, w);
      } else {
        var u := ReplaceAll(s[1..], pat, rep);
        assert r == [s[0]] + u;
        assert r[1..] == u;
        ReplaceAllAddsNoOccurrence(s[1..], pat, rep, w);
      }
    }
  }

  /** Every occurrence of the pattern is replaced: none is left in the output
      when the replacement shares no character with the pattern. */
  lemma {:induction false} ReplaceAllRemovesPattern(s: string, pat: string, rep: string)
    requires |pat| > 0 && |rep| > 0
    requires NoCommonChars(pat, rep)
    ensures !Contains(ReplaceAll(s, pat, rep), pat)
    decreases |s|
  {
    var r := ReplaceAll(s, pat, rep);
    if |s| > 0 {
      if StartsWith(s, pat) {
        var u := ReplaceAll(s[|pat|..], pat, rep);
        assert r == rep + u;
        ContainsSkipForeign(rep, u, pat);
        ReplaceAllRemovesPattern(s[|pat|..], pat, rep);
      } else {
        var u := ReplaceAll(s[1..], pat, rep);
        assert r == [s[0]] + u;
        assert r[1..] == u;
        ReplaceAllRemovesPattern(s[1..], pat, rep);
        ReplaceAllPrefix(s[1..], pat, rep, pat[1..]);
        StartsWithCons(s[0], u, pat);
        StartsWithCons(s[0], s[1..], pat);
        assert [s[0]] + s[1..] == s;
      }
    }
  }

  /** Prefix test one character at a time. */
  lemma StartsWithCons(c: char, u: string, w: string)
    requires |w| > 0
    ensures StartsWith([c] + u, w) <==> c == w[0] && StartsWith(u, w[1..])
  {
    if |w| <= |u| + 1 {
      assert ([c] + u)[..|w|] == [c] + u[..|w| - 1];
    }
  }

  /** One `.replace(/pattern/g, replacement)` link of the chain. */
  datatype Rule = Rule(pattern: string, replacement: string)

  /** The patterns of the chain, in the order the calls are chained. */
  const Patterns: seq<string> := [
      "ぴえん",
      "うーん",
      "まっする",
      "マッスル",
      "天使",
      "てんし",
      "寿司",
      "すし",
      "ばいばい",
      "ぐっど",
      "ばっど",
      "ぱちぱち",
      "ぴよ",
      "ようせい",
      "にんぎょ",
      "だまれ",
      "よゆう",
      "zzz",
      "コロナ",
      "は？",
      "なき",
      "はー",
      "ねむ",
      "うんち",
      "国士無双",
      "字一色",
      "大三元",
      "緑一色　",
      "清老頭　",
      "九蓮宝燈",
      "四暗刻",
      "小四喜",
      "大四喜"
    ]

  /** The replacement of each pattern, at the same position. */
  const Replacements: seq<string> := [
      "🥺",
      "🤔",
      "💪('ω'💪)",
      "💪('ω'💪)",
      "😇",
      "😇",
      "🍣",
      "🍣",
      "👋",
      "👍",
      "👎",
      "👏",
      "💫",
      "🧚‍♀️",
      "🧜‍♀️",
      "🤐",
      "🤥",
      "😪",
      "😷",
      "😕",
      "😭",
      "😩",
      "🥱",
      "💩",
      "🀇🀏🀐🀘🀙🀡🀀🀁🀂🀃🀆🀅🀄🀄",
      "🀀🀀🀀🀁🀁🀁🀂🀂🀂🀅🀅🀅🀄🀄",
      "🀆🀆🀆🀅🀅🀅🀄🀄🀄🀇🀇🀇🀈🀈",
      "🀑🀒🀓🀑🀒🀓🀕🀕🀕🀗🀗🀗🀅🀅",
      "🀇🀇🀇🀏🀏🀏🀐🀐🀐🀘🀘🀘🀙🀙",
      "🀇🀇🀇🀈🀉🀊🀋🀌🀍🀎🀏🀏🀏🀏",
      "🀇🀇🀇🀐🀐🀐🀝🀝🀝🀀🀀🀀🀃🀃",
      "🀀🀀🀁🀁🀁🀂🀂🀂🀃🀃🀃🀒🀓🀔",
      "🀀🀀🀀🀁🀁🀁🀂🀂🀂🀃🀃🀃🀒🀒"
    ]

  /** The replacement chain: the `.replace` calls in the order they are
      chained, entry `k` pairing `Patterns[k]` with `Replacements[k]`. */
  const Table: seq<Rule> := Pair(Patterns, Replacements)

  function Pair(patterns: seq<string>, replacements: seq<string>): (rules: seq<Rule>)
    requires |patterns| == |replacements|
    ensures |rules| == |patterns|
    ensures forall k :: 0 <= k < |rules| ==> rules[k] == Rule(patterns[k], replacements[k])
  {
    seq(|patterns|, k requires 0 <= k < |patterns| => Rule(patterns[k], replacements[k]))
  }

  /** Characters the patterns are written in: CJK punctuation, kana and
      ideographs (U+3000..U+9FFF, which holds the ideographic space), the
      full-width question mark U+FF1F, and 'z'. */
  predicate PatternChar(c: char) {
    ('\U{3000}' <= c <= '\U{9FFF}') || c == '\U{FF1F}' || c == 'z'
  }

  /** A pattern is non-empty and written in pattern characters only; a
      replacement is non-empty and contains no pattern character. */
  predicate RuleWellFormed(rule: Rule) {
    && |rule.pattern| > 0
    && |rule.replacement| > 0
    && OnlyPatternChars(rule.pattern)
    && NoPatternChars(rule.replacement)
  }

  predicate OnlyPatternChars(s: string) {
    forall i :: 0 <= i < |s| ==> PatternChar(s[i])
  }

  predicate NoPatternChars(s: string) {
    forall i :: 0 <= i < |s| ==> !PatternChar(s[i])
  }

  predicate TableWellFormed(rules: seq<Rule>) {
    forall i :: 0 <= i < |rules| ==> RuleWellFormed(rules[i])
  }

  predicate PatternsNonEmpty(rules: seq<Rule>) {
    forall i :: 0 <= i < |rules| ==> |rules[i].pattern| > 0
  }

  /** `s` contains none of the patterns of `rules`. */
  predicate Clean(rules: seq<Rule>, s: string) {
    forall i :: 0 <= i < |rules| ==> !Contains(s, rules[i].pattern)
  }

  /** The chain of replacements, applied in table order: all rules but the
      last, then the last. */
  function ApplyRules(rules: seq<Rule>, s: string): string
    requires PatternsNonEmpty(rules)
    decreases |rules|
  {
    if |rules| == 0 then s
    else
      var last := rules[|rules| - 1];
      ReplaceAll(ApplyRules(rules[..|rules| - 1], s), last.pattern, last.replacement)
  }

  /** The filter the join-attached listener applies to `msg.text`. */
  function Filter(s: string): string {
    TablePatternsNonEmpty();
    ApplyRules(Table, s)
  }

  lemma TablePatternsNonEmpty()
    ensures PatternsNonEmpty(Table)
  {
  }

  /** A string containing none of the patterns passes the chain unchanged. */
  lemma {:induction false} ApplyRulesUnchanged(rules: seq<Rule>, s: string)
    requires PatternsNonEmpty(rules)
    ensures Clean(rules, s) ==> ApplyRules(rules, s) == s
    decreases |rules|
  {
    if |rules| > 0 && Clean(rules, s) {
      var n := |rules| - 1;
      var init := rules[..n];
      assert Clean(init, s) by {
        forall i | 0 <= i < |init|
          ensures !Contains(s, init[i].pattern)
        {
          assert init[i] == rules[i];
        }
      }
      ApplyRulesUnchanged(init, s);
      ReplaceAllUnchanged(s, rules[n].pattern, rules[n].replacement);
    }
  }

  /** Applying `a` and then `b` is applying their concatenation: the links
      compose in table order. */
  lemma {:induction false} ApplyRulesCompose(a: seq<Rule>, b: seq<Rule>, s: string)
    requires PatternsNonEmpty(a) && PatternsNonEmpty(b)
    ensures PatternsNonEmpty(a + b)
    ensures ApplyRules(a + b, s) == ApplyRules(b, ApplyRules(a, s))
    decreases |b|
  {
    var ab := a + b;
    assert forall i :: 0 <= i < |ab| ==> ab[i] == if i < |a| then a[i] else b[i - |a|];
    if |b| == 0 {
      assert ab == a;
    } else {
      var n := |b| - 1;
      assert ab[..|ab| - 1] == a + b[..n];
      assert ab[|ab| - 1] == b[n];
      ApplyRulesCompose(a, b[..n], s);
    }
  }

  /** The output of a well-formed table contains none of its patterns. */
  lemma {:induction false} ApplyRulesCleans(rules: seq<Rule>, s: string)
    requires TableWellFormed(rules)
    ensures PatternsNonEmpty(rules) && Clean(rules, ApplyRules(rules, s))
    decreases |rules|
  {
    if |rules| > 0 {
      var n := |rules| - 1;
      var init := rules[..n];
      var last := rules[n];
      assert TableWellFormed(init) by {
        forall i | 0 <= i < |init|
          ensures RuleWellFormed(init[i])
        {
          assert init[i] == rules[i];
        }
      }
      ApplyRulesCleans(init, s);
      var t := ApplyRules(init, s);
      var r := ReplaceAll(t, last.pattern, last.replacement);
      assert RuleWellFormed(last);
      ReplaceAllRemovesPattern(t, last.pattern, last.replacement);
      forall i | 0 <= i < |rules|
        ensures !Contains(r, rules[i].pattern)
      {
        if i < n {
          assert rules[i] == init[i];
          assert RuleWellFormed(rules[i]);
          ReplaceAllAddsNoOccurrence(t, last.pattern, last.replacement, rules[i].pattern);
        }
      }
    }
  }

  /** No pattern contains an earlier pattern, so no link of the chain
      rewrites part of a later link's pattern. */
  predicate Unnested(rules: seq<Rule>) {
    forall i, j :: 0 <= j < i < |rules| ==> !Contains(rules[i].pattern, rules[j].pattern)
  }

  /** `c` occurs in none of the patterns. */
  predicate InNoPattern(rules: seq<Rule>, c: char) {
    forall i :: 0 <= i < |rules| ==> c !in rules[i].pattern
  }

  /** Every character of `s` occurs in none of the patterns. */
  predicate AvoidsPatterns(rules: seq<Rule>, s: string) {
    forall k :: 0 <= k < |s| ==> InNoPattern(rules, s[k])
  }

  /** Text made of characters that occur in no pattern contains no pattern. */
  lemma AvoidsPatternsClean(rules: seq<Rule>, s: string)
    requires PatternsNonEmpty(rules) && AvoidsPatterns(rules, s)
    ensures Clean(rules, s)
  {
    forall i | 0 <= i < |rules|
      ensures !Contains(s, rules[i].pattern)
    {
      var p := rules[i].pattern;
      ContainsFirstChar(s, p);
      assert p[0] in p;
    }
  }

  /** For a well-formed table, text without any character of the pattern
      alphabet avoids every pattern. */
  lemma NoPatternCharsAvoid(rules: seq<Rule>, s: string)
    requires TableWellFormed(rules) && NoPatternChars(s)
    ensures AvoidsPatterns(rules, s)
  {
    forall k, i | 0 <= k < |s| && 0 <= i < |rules|
      ensures s[k] !in rules[i].pattern
    {
      assert RuleWellFormed(rules[i]);
    }
  }

  /** In a well-formed, unnested chain, one occurrence of a pattern between
      texts made of characters that occur in no pattern becomes its
      replacement, and the surrounding texts are kept. */
  lemma {:induction false} ApplyRulesReplacesOccurrence(rules: seq<Rule>, i: nat, x: string, y: string)
    requires TableWellFormed(rules) && Unnested(rules) && i < |rules|
    requires AvoidsPatterns(rules, x) && AvoidsPatterns(rules, y)
    ensures PatternsNonEmpty(rules)
    ensures ApplyRules(rules, x + rules[i].pattern + y) == x + rules[i].replacement + y
    decreases |rules|
  {
    var n := |rules| - 1;
    var init := rules[..n];
    var last := rules[n];
    var p := rules[i].pattern;
    var r := rules[i].replacement;
    var s := x + p + y;
    assert RuleWellFormed(rules[i]) && RuleWellFormed(last);
    assert TableWellFormed(init) && Unnested(init) && AvoidsPatterns(init, x) && AvoidsPatterns(init, y) by {
      assert forall j :: 0 <= j < |init| ==> init[j] == rules[j];
    }
    if i < n {
      assert init[i] == rules[i];
      ApplyRulesReplacesOccurrence(init, i, x, y);
      LaterRuleKeeps(rules, n, x, r, y);
    } else {
      EarlierRulesKeep(rules, x, p, y);
      ApplyRulesUnchanged(init, s);
      LastRuleReplaces(rules, x, y);
    }
  }

  /** Text made of characters that occur in no pattern shares no character
      with pattern `j`. */
  lemma AvoidsNoCommon(rules: seq<Rule>, s: string, j: nat)
    requires AvoidsPatterns(rules, s) && j < |rules|
    ensures NoCommonChars(s, rules[j].pattern)
  {
    forall a, b | 0 <= a < |s| && 0 <= b < |rules[j].pattern|
      ensures s[a] != rules[j].pattern[b]
    {
      assert InNoPattern(rules, s[a]);
    }
  }

  /** A well-formed replacement shares no character with a well-formed
      pattern. */
  lemma ReplacementForeign(rules: seq<Rule>, i: nat, j: nat)
    requires TableWellFormed(rules) && i < |rules| && j < |rules|
    ensures NoCommonChars(rules[i].replacement, rules[j].pattern)
  {
    assert RuleWellFormed(rules[i]) && RuleWellFormed(rules[j]);
  }

  /** The last rule of the chain leaves `x + r + y` alone when `r` is a
      replacement and `x`, `y` avoid the patterns. */
  lemma LaterRuleKeeps(rules: seq<Rule>, n: nat, x: string, r: string, y: string)
    requires TableWellFormed(rules) && n < |rules|
    requires exists i :: 0 <= i < |rules| && rules[i].replacement == r
    requires AvoidsPatterns(rules, x) && AvoidsPatterns(rules, y)
    ensures ReplaceAll(x + r + y, rules[n].pattern, rules[n].replacement) == x + r + y
  {
    var i :| 0 <= i < |rules| && rules[i].replacement == r;
    var q := rules[n].pattern;
    assert RuleWellFormed(rules[n]);
    AvoidsNoCommon(rules, x, n);
    AvoidsNoCommon(rules, y, n);
    ReplacementForeign(rules, i, n);
    assert x + (r + y) == x + r + y;
    ContainsSkipForeign(x, r + y, q);
    ContainsSkipForeign(r, y, q);
    ContainsFirstChar(y, q);
    assert q[0] in q;
    ReplaceAllUnchanged(x + r + y, q, rules[n].replacement);
  }

  /** No pattern before the last occurs in `x + p + y` when `p` is the last
      pattern of an unnested chain and `x`, `y` avoid the patterns. */
  lemma EarlierRulesKeep(rules: seq<Rule>, x: string, p: string, y: string)
    requires TableWellFormed(rules) && Unnested(rules) && |rules| > 0
    requires p == rules[|rules| - 1].pattern
    requires AvoidsPatterns(rules, x) && AvoidsPatterns(rules, y)
    ensures PatternsNonEmpty(rules[..|rules| - 1])
    ensures Clean(rules[..|rules| - 1], x + p + y)
  {
    var n := |rules| - 1;
    var init := rules[..n];
    forall j | 0 <= j < |init|
      ensures |init[j].pattern| > 0 && !Contains(x + p + y, init[j].pattern)
    {
      var q := init[j].pattern;
      assert init[j] == rules[j] && RuleWellFormed(rules[j]);
      AvoidsNoCommon(rules, x, j);
      AvoidsNoCommon(rules, y, j);
      assert x + (p + y) == x + p + y;
      ContainsSkipForeign(x, p + y, q);
      ContainsForeignTail(p, y, q);
    }
  }

  /** The last rule turns the one occurrence of its pattern in `x + p + y`
      into its replacement when `x` and `y` avoid the patterns. */
  lemma LastRuleReplaces(rules: seq<Rule>, x: string, y: string)
    requires TableWellFormed(rules) && |rules| > 0
    requires AvoidsPatterns(rules, x) && AvoidsPatterns(rules, y)
    ensures var last := rules[|rules| - 1];
      ReplaceAll(x + last.pattern + y, last.pattern, last.replacement) == x + last.replacement + y
  {
    var n := |rules| - 1;
    var p := rules[n].pattern;
    var r := rules[n].replacement;
    assert RuleWellFormed(rules[n]);
    AvoidsNoCommon(rules, x, n);
    AvoidsNoCommon(rules, y, n);
    ContainsSkipForeign(x, p[..|p| - 1], p);
    ContainsNeedsChar(p[..|p| - 1], p, 0);
    ReplaceAllLeftmost(x, y, p, r);
    ContainsFirstChar(y, p);
    assert p[0] in p;
    ReplaceAllUnchanged(y, p, r);
  }

  /** A chain distributes over a character that occurs in none of its
      patterns. */
  lemma {:induction false} ApplyRulesSplit(rules: seq<Rule>, x: string, c: char, y: string)
    requires PatternsNonEmpty(rules) && InNoPattern(rules, c)
    ensures ApplyRules(rules, x + [c] + y) == ApplyRules(rules, x) + [c] + ApplyRules(rules, y)
    decreases |rules|
  {
    if |rules| > 0 {
      var n := |rules| - 1;
      var init := rules[..n];
      var last := rules[n];
      assert PatternsNonEmpty(init) && InNoPattern(init, c) by {
        assert forall j :: 0 <= j < |init| ==> init[j] == rules[j];
      }
      ApplyRulesSplit(init, x, c, y);
      ReplaceAllSplit(ApplyRules(init, x), c, ApplyRules(init, y), last.pattern, last.replacement);
    }
  }

  /** The filter leaves no pattern of the table in its output. */
  lemma FilterOutputClean(s: string)
    ensures Clean(Table, Filter(s))
  {
    TableIsWellFormed();
    ApplyRulesCleans(Table, s);
  }

  /** A string is left unchanged by the filter exactly when it contains none
      of the table's patterns. */
  lemma FilterFixedIffClean(s: string)
    ensures Filter(s) == s <==> Clean(Table, s)
  {
    FilterOutputClean(s);
    ApplyRulesUnchanged(Table, s);
  }

  /** Filtering twice is filtering once. */
  lemma FilterIdempotent(s: string)
    ensures Filter(Filter(s)) == Filter(s)
  {
    FilterOutputClean(s);
    ApplyRulesUnchanged(Table, Filter(s));
  }

  /** Each pattern of the table, standing between texts made of characters
      that occur in no pattern, becomes its replacement, and the surrounding
      texts are kept. */
  lemma FilterReplacesOccurrence(k: nat, x: string, y: string)
    requires k < |Table|
    requires AvoidsPatterns(Table, x) && AvoidsPatterns(Table, y)
    ensures Filter(x + Table[k].pattern + y) == x + Table[k].replacement + y
  {
    TableIsWellFormed();
    TableIsUnnested();
    ApplyRulesReplacesOccurrence(Table, k, x, y);
  }

  /** The filter works separately on the two sides of a character that
      occurs in no pattern. */
  lemma FilterSplit(x: string, c: char, y: string)
    requires InNoPattern(Table, c)
    ensures Filter(x + [c] + y) == Filter(x) + [c] + Filter(y)
  {
    TablePatternsNonEmpty();
    ApplyRulesSplit(Table, x, c, y);
  }

  /** The kana 'の' occurs in no pattern, so the filter works separately on
      the two sides of it. */
  lemma FilterSplitsAtNo(x: string, y: string)
    ensures Filter(x + ['の'] + y) == Filter(x) + ['の'] + Filter(y)
  {
    TableEntries();
    NoAbsentFromPatterns();
    FilterSplit(x, 'の', y);
  }

  lemma NoAbsentFromPatterns()
    ensures forall i :: 0 <= i < |Patterns| ==> 'の' !in Patterns[i]
  {
  }

  lemma TableEntries()
    ensures |Table| == |Patterns|
    ensures forall i :: 0 <= i < |Table| ==> Table[i].pattern == Patterns[i]
  {
  }

  /** Text made of characters that occur in no pattern passes unchanged. */
  lemma FilterKeepsForeignText(s: string)
    requires AvoidsPatterns(Table, s)
    ensures Filter(s) == s
  {
    TablePatternsNonEmpty();
    AvoidsPatternsClean(Table, s);
    ApplyRulesUnchanged(Table, s);
  }

  /** The first two links compose in order: "ぴえんうーん" becomes "🥺🤔". */
  lemma FilterExample()
    ensures Filter("ぴえんうーん") == "🥺🤔"
  {
    var s := "ぴえんうーん";
    TableIsWellFormed();
    TableFirstTwo();
    var head := Table[..2];
    var rest := Table[2..];
    assert Table == head + rest;
    assert TableWellFormed(rest);
    ApplyRulesCompose(head, rest, s);
    ApplyTwoRules(head, s);
    ExampleFirstTwoLinks();
    assert NoPatternChars("🥺🤔");
    NoPatternCharsAvoid(rest, "🥺🤔");
    AvoidsPatternsClean(rest, "🥺🤔");
    ApplyRulesUnchanged(rest, "🥺🤔");
  }

  /** A two-rule chain applies the first rule, then the second. */
  lemma ApplyTwoRules(rules: seq<Rule>, s: string)
    requires |rules| == 2 && PatternsNonEmpty(rules)
    ensures ApplyRules(rules, s)
         == ReplaceAll(ReplaceAll(s, rules[0].pattern, rules[0].replacement), rules[1].pattern, rules[1].replacement)
  {
    var one := rules[..1];
    assert one[..0] == [];
    assert one[0] == rules[0];
    assert ApplyRules(one, s) == ReplaceAll(ApplyRules([], s), rules[0].pattern, rules[0].replacement);
    assert ApplyRules(rules, s) == ReplaceAll(ApplyRules(one, s), rules[1].pattern, rules[1].replacement);
  }

  lemma TableFirstTwo()
    ensures |Table| >= 2
    ensures Table[0] == Rule("ぴえん", "🥺")
    ensures Table[1] == Rule("うーん", "🤔")
  {
  }

  lemma ExampleFirstTwoLinks()
    ensures ReplaceAll(ReplaceAll("ぴえんうーん", "ぴえん", "🥺"), "うーん", "🤔") == "🥺🤔"
  {
    var s := "ぴえんうーん";
    var tail := "うーん";
    assert StartsWith(s, "ぴえん");
    assert s[3..] == tail;
    assert !Contains(tail, "ぴえん") by {
      ContainsFirstChar(tail, "ぴえん");
    }
    ReplaceAllUnchanged(tail, "ぴえん", "🥺");
    var s1 := ReplaceAll(s, "ぴえん", "🥺");
    assert s1 == ['🥺'] + tail;
    assert !StartsWith(s1, "うーん");
    assert s1[1..] == tail;
    assert StartsWith(tail, "うーん");
    assert tail[3..] == "";
    assert ReplaceAll(tail, "うーん", "🤔") == "🤔";
  }

  lemma TableIsWellFormed()
    ensures TableWellFormed(Table)
  {
    RulesWellFormed0To2();
    RulesWellFormed2To4();
    RulesWellFormed4To6();
    RulesWellFormed6To8();
    RulesWellFormed8To10();
    RulesWellFormed10To12();
    RulesWellFormed12To14();
    RulesWellFormed14To16();
    RulesWellFormed16To18();
    RulesWellFormed18To20();
    RulesWellFormed20To22();
    RulesWellFormed22To24();
    RulesWellFormed24To26();
    RulesWellFormed26To28();
    RulesWellFormed28To30();
    RulesWellFormed30To32();
    RulesWellFormed32To33();
  }

  // The table is checked two rules at a time to keep each proof small.
  lemma RulesWellFormed0To2()
    ensures forall i :: 0 <= i < 2 ==> RuleWellFormed(Table[i])
  {
    assert RuleWellFormed(Table[0]);
    assert RuleWellFormed(Table[1]);
  }

  lemma RulesWellFormed2To4()
    ensures forall i :: 2 <= i < 4 ==> RuleWellFormed(Table[i])
  {
    assert RuleWellFormed(Table[2]);
    assert RuleWellFormed(Table[3]);
  }

  lemma RulesWellFormed4To6()
    ensures forall i :: 4 <= i < 6 ==> RuleWellFormed(Table[i])
  {
    assert RuleWellFormed(Table[4]);
    assert RuleWellFormed(Table[5]);
  }

  lemma RulesWellFormed6To8()
    ensures forall i :: 6 <= i < 8 ==> RuleWellFormed(Table[i])
  {
    assert RuleWellFormed(Table[6]);
    assert RuleWellFormed(Table[7]);
  }

  lemma RulesWellFormed8To10()
    ensures forall i :: 8 <= i < 10 ==> RuleWellFormed(Table[i])
  {
    assert RuleWellFormed(Table[8]);
    assert RuleWellFormed(Table[9]);
  }

  lemma RulesWellFormed10To12()
    ensures forall i :: 10 <= i < 12 ==> RuleWellFormed(Table[i])
  {
    assert RuleWellFormed(Table[10]);
    assert RuleWellFormed(Table[11]);
  }

  lemma RulesWellFormed12To14()
    ensures forall i :: 12 <= i < 14 ==> RuleWellFormed(Table[i])
  {
    assert RuleWellFormed(Table[12]);
    assert RuleWellFormed(Table[13]);
  }

  lemma RulesWellFormed14To16()
    ensures forall i :: 14 <= i < 16 ==> RuleWellFormed(Table[i])
  {
    assert RuleWellFormed(Table[14]);
    assert RuleWellFormed(Table[15]);
  }

  lemma RulesWellFormed16To18()
    ensures forall i :: 16 <= i < 18 ==> RuleWellFormed(Table[i])
  {
    assert RuleWellFormed(Table[16]);
    assert RuleWellFormed(Table[17]);
  }

  lemma RulesWellFormed18To20()
    ensures forall i :: 18 <= i < 20 ==> RuleWellFormed(Table[i])
  {
    assert RuleWellFormed(Table[18]);
    assert RuleWellFormed(Table[19]);
  }

  lemma RulesWellFormed20To22()
    ensures forall i :: 20 <= i < 22 ==> RuleWellFormed(Table[i])
  {
    assert RuleWellFormed(Table[20]);
    assert RuleWellFormed(Table[21]);
  }

  lemma RulesWellFormed22To24()
    ensures forall i :: 22 <= i < 24 ==> RuleWellFormed(Table[i])
  {
    assert RuleWellFormed(Table[22]);
    assert RuleWellFormed(Table[23]);
  }

  lemma RulesWellFormed24To26()
    ensures forall i :: 24 <= i < 26 ==> RuleWellFormed(Table[i])
  {
    assert RuleWellFormed(Table[24]);
    assert RuleWellFormed(Table[25]);
  }

  lemma RulesWellFormed26To28()
    ensures forall i :: 26 <= i < 28 ==> RuleWellFormed(Table[i])
  {
    assert RuleWellFormed(Table[26]);
    assert RuleWellFormed(Table[27]);
  }

  lemma RulesWellFormed28To30()
    ensures forall i :: 28 <= i < 30 ==> RuleWellFormed(Table[i])
  {
    assert RuleWellFormed(Table[28]);
    assert RuleWellFormed(Table[29]);
  }

  lemma RulesWellFormed30To32()
    ensures forall i :: 30 <= i < 32 ==> RuleWellFormed(Table[i])
  {
    assert RuleWellFormed(Table[30]);
    assert RuleWellFormed(Table[31]);
  }

  lemma RulesWellFormed32To33()
    ensures forall i :: 32 <= i < 33 ==> RuleWellFormed(Table[i])
  {
    assert RuleWellFormed(Table[32]);
  }

  lemma TableIsUnnested()
    ensures Unnested(Table)
  {
    PatternsUnnested();
  }

  lemma PatternsUnnested()
    ensures forall i, j :: 0 <= j < i < 33 ==> !Contains(Patterns[i], Patterns[j])
  {
    PatternsUnnested1To9();
    PatternsUnnested9To13();
    PatternsUnnested13To16();
    PatternsUnnested16To18();
    PatternsUnnested18To20();
    PatternsUnnested20To22();
    PatternsUnnested22To24();
    PatternsUnnested24To26();
    PatternsUnnested26To28();
    PatternsUnnested28To30();
    PatternsUnnested30To32();
    PatternsUnnested32To33();
  }

  // Pairs of patterns are checked a few later patterns at a time to keep
  // each proof small; an occurrence needs the first two characters of the
  // inner pattern and room for all of it.

  lemma PatternsUnnested1To9()
    ensures forall i, j :: 1 <= i < 9 && 0 <= j < i ==> !Contains(Patterns[i], Patterns[j])
  {
    forall i, j | 1 <= i < 9 && 0 <= j < i
      ensures !Contains(Patterns[i], Patterns[j])
    {
      ContainsNeedsChar(Patterns[i], Patterns[j], 0);
      ContainsNeedsChar(Patterns[i], Patterns[j], 1);
    }
  }

  lemma PatternsUnnested9To13()
    ensures forall i, j :: 9 <= i < 13 && 0 <= j < i ==> !Contains(Patterns[i], Patterns[j])
  {
    forall i, j | 9 <= i < 13 && 0 <= j < i
      ensures !Contains(Patterns[i], Patterns[j])
    {
      ContainsNeedsChar(Patterns[i], Patterns[j], 0);
      ContainsNeedsChar(Patterns[i], Patterns[j], 1);
    }
  }

  lemma PatternsUnnested13To16()
    ensures forall i, j :: 13 <= i < 16 && 0 <= j < i ==> !Contains(Patterns[i], Patterns[j])
  {
    forall i, j | 13 <= i < 16 && 0 <= j < i
      ensures !Contains(Patterns[i], Patterns[j])
    {
      ContainsNeedsChar(Patterns[i], Patterns[j], 0);
      ContainsNeedsChar(Patterns[i], Patterns[j], 1);
    }
  }

  lemma PatternsUnnested16To18()
    ensures forall i, j :: 16 <= i < 18 && 0 <= j < i ==> !Contains(Patterns[i], Patterns[j])
  {
    forall i, j | 16 <= i < 18 && 0 <= j < i
      ensures !Contains(Patterns[i], Patterns[j])
    {
      ContainsNeedsChar(Patterns[i], Patterns[j], 0);
      ContainsNeedsChar(Patterns[i], Patterns[j], 1);
    }
  }

  lemma PatternsUnnested18To20()
    ensures forall i, j :: 18 <= i < 20 && 0 <= j < i ==> !Contains(Patterns[i], Patterns[j])
  {
    forall i, j | 18 <= i < 20 && 0 <= j < i
      ensures !Contains(Patterns[i], Patterns[j])
    {
      ContainsNeedsChar(Patterns[i], Patterns[j], 0);
      ContainsNeedsChar(Patterns[i], Patterns[j], 1);
    }
  }

  lemma PatternsUnnested20To22()
    ensures forall i, j :: 20 <= i < 22 && 0 <= j < i ==> !Contains(Patterns[i], Patterns[j])
  {
    forall i, j | 20 <= i < 22 && 0 <= j < i
      ensures !Contains(Patterns[i], Patterns[j])
    {
      ContainsNeedsChar(Patterns[i], Patterns[j], 0);
      ContainsNeedsChar(Patterns[i], Patterns[j], 1);
    }
  }

  lemma PatternsUnnested22To24()
    ensures forall i, j :: 22 <= i < 24 && 0 <= j < i ==> !Contains(Patterns[i], Patterns[j])
  {
    forall i, j | 22 <= i < 24 && 0 <= j < i
      ensures !Contains(Patterns[i], Patterns[j])
    {
      ContainsNeedsChar(Patterns[i], Patterns[j], 0);
      ContainsNeedsChar(Patterns[i], Patterns[j], 1);
    }
  }

  lemma PatternsUnnested24To26()
    ensures forall i, j :: 24 <= i < 26 && 0 <= j < i ==> !Contains(Patterns[i], Patterns[j])
  {
    forall i, j | 24 <= i < 26 && 0 <= j < i
      ensures !Contains(Patterns[i], Patterns[j])
    {
      ContainsNeedsChar(Patterns[i], Patterns[j], 0);
      ContainsNeedsChar(Patterns[i], Patterns[j], 1);
    }
  }

  lemma PatternsUnnested26To28()
    ensures forall i, j :: 26 <= i < 28 && 0 <= j < i ==> !Contains(Patterns[i], Patterns[j])
  {
    forall i, j | 26 <= i < 28 && 0 <= j < i
      ensures !Contains(Patterns[i], Patterns[j])
    {
      ContainsNeedsChar(Patterns[i], Patterns[j], 0);
      ContainsNeedsChar(Patterns[i], Patterns[j], 1);
    }
  }

  lemma PatternsUnnested28To30()
    ensures forall i, j :: 28 <= i < 30 && 0 <= j < i ==> !Contains(Patterns[i], Patterns[j])
  {
    forall i, j | 28 <= i < 30 && 0 <= j < i
      ensures !Contains(Patterns[i], Patterns[j])
    {
      ContainsNeedsChar(Patterns[i], Patterns[j], 0);
      ContainsNeedsChar(Patterns[i], Patterns[j], 1);
    }
  }

  lemma PatternsUnnested30To32()
    ensures forall i, j :: 30 <= i < 32 && 0 <= j < i ==> !Contains(Patterns[i], Patterns[j])
  {
    forall i, j | 30 <= i < 32 && 0 <= j < i
      ensures !Contains(Patterns[i], Patterns[j])
    {
      ContainsNeedsChar(Patterns[i], Patterns[j], 0);
      ContainsNeedsChar(Patterns[i], Patterns[j], 1);
    }
  }

  lemma PatternsUnnested32To33()
    ensures forall i, j :: 32 <= i < 33 && 0 <= j < i ==> !Contains(Patterns[i], Patterns[j])
  {
    forall i, j | 32 <= i < 33 && 0 <= j < i
      ensures !Contains(Patterns[i], Patterns[j])
    {
      ContainsNeedsChar(Patterns[i], Patterns[j], 0);
      ContainsNeedsChar(Patterns[i], Patterns[j], 1);
    }
  }
}
