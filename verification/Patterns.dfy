// Text patterns on both sides: LIKE with an escape character in SQL, a regular expression built
// from parts in the browser.
module Patterns {
  import opened Order

  /** Maps characters that differ only in case to the same one. */
  type Fold = char -> char

  predicate SameText(a: string, b: string, fold: Fold) {
    |a| == |b| && forall i :: 0 <= i < |a| ==> fold(a[i]) == fold(b[i])
  }

  // ---- LIKE ... ESCAPE '\' ----

  predicate Like(pattern: string, text: string, fold: Fold)
    decreases |pattern|, |text|
  {
    if pattern == "" then text == ""
    else if pattern[0] == '\\' then
      |pattern| >= 2 && text != "" && fold(pattern[1]) == fold(text[0]) && Like(pattern[2..], text[1..], fold)
    else if pattern[0] == '%' then
      Like(pattern[1..], text, fold) || (text != "" && Like(pattern, text[1..], fold))
    else if pattern[0] == '_' then text != "" && Like(pattern[1..], text[1..], fold)
    else text != "" && fold(pattern[0]) == fold(text[0]) && Like(pattern[1..], text[1..], fold)
  }

  predicate IsLikeMeta(c: char) { c == '\\' || c == '%' || c == '_' }

  function EscapeLikeChar(c: char): string { if IsLikeMeta(c) then ['\\', c] else [c] }

  /** likeEscaper. */
  function EscapeLike(s: string): string {
    if s == "" then "" else EscapeLikeChar(s[0]) + EscapeLike(s[1..])
  }

  function StarsToPercent(s: string): string {
    if s == "" then "" else [if s[0] == '*' then '%' else s[0]] + StarsToPercent(s[1..])
  }

  /** likePattern: anywhere in the text. */
  function ContainsPattern(s: string): string { "%" + EscapeLike(s) + "%" }

  // ---- The browser's regular expression ----

  /** `split("*")`. */
  function Split(s: string): (parts: seq<string>)
    ensures parts != []
  {
    if s == "" then [""]
    else if s[0] == '*' then [""] + Split(s[1..])
    else
      var rest := Split(s[1..]);
      [[s[0]] + rest[0]] + rest[1..]
  }

  /** `^(?:p1[\s\S]*p2[\s\S]*...)$` over literal parts. */
  predicate PartsMatch(parts: seq<string>, text: string, fold: Fold)
    requires parts != []
  {
    if |parts| == 1 then SameText(parts[0], text, fold)
    else
      && |parts[0]| <= |text| && SameText(parts[0], text[..|parts[0]|], fold)
      && exists k :: |parts[0]| <= k <= |text| && PartsMatch(parts[1..], text[k..], fold)
  }

  predicate IsRegexMeta(c: char) { c in ".*+?^${}()|[]\\" }

  function EscapeRegex(s: string): string {
    if s == "" then "" else (if IsRegexMeta(s[0]) then ['\\', s[0]] else [s[0]]) + EscapeRegex(s[1..])
  }

  /** SyntaxCharacter of section 22.2.1 of ECMA-262. */
  predicate IsSyntaxCharacter(c: char) {
    || c == '^' || c == '$' || c == '\\' || c == '.' || c == '*' || c == '+' || c == '?' || c == '(' || c == ')'
    || c == '[' || c == ']' || c == '{' || c == '}' || c == '|'
  }

  /** The text a regular expression of escaped and ordinary characters stands for; `None` with an operator in it. */
  function RegexLiteral(r: string): Option<string>
    decreases |r|
  {
    if r == "" then Some("")
    else if r[0] == '\\' then if |r| >= 2 && IsSyntaxCharacter(r[1]) then Before(r[1], RegexLiteral(r[2..])) else None
    else if IsSyntaxCharacter(r[0]) then None
    else Before(r[0], RegexLiteral(r[1..]))
  }

  function Before(c: char, rest: Option<string>): Option<string> {
    if rest.None? then None else Some([c] + rest.value)
  }

  /** Every part is matched literally. */
  lemma {:induction false} EscapeRegexReads(s: string)
    ensures RegexLiteral(EscapeRegex(s)) == Some(s)
  {
    if s != "" {
      EscapeRegexReads(s[1..]);
      var r := EscapeRegex(s);
      assert r[if IsRegexMeta(s[0]) then 2 else 1..] == EscapeRegex(s[1..]);
      assert [s[0]] + s[1..] == s;
    }
  }

  // ---- LIKE finds what the parts find ----

  /** `%` in front: the rest matches from some position on. */
  lemma {:induction false} PercentFinds(pattern: string, text: string, fold: Fold)
    ensures Like("%" + pattern, text, fold) <==> exists k :: 0 <= k <= |text| && Like(pattern, text[k..], fold)
    decreases |text|
  {
    var whole := "%" + pattern;
    assert whole[1..] == pattern && text[0..] == text;
    if text != "" {
      var rest := text[1..];
      PercentFinds(pattern, rest, fold);
      if Like(whole, rest, fold) {
        var k :| 0 <= k <= |rest| && Like(pattern, rest[k..], fold);
        assert rest[k..] == text[k + 1..];
      }
      forall k | 0 < k <= |text| && Like(pattern, text[k..], fold) ensures Like(whole, rest, fold) {
        assert rest[k - 1..] == text[k..];
      }
    }
  }

  lemma LiteralStep(c: char, pattern: string, text: string, fold: Fold)
    ensures Like(EscapeLikeChar(c) + pattern, text, fold)
      <==> text != "" && fold(c) == fold(text[0]) && Like(pattern, text[1..], fold)
  {
    var whole := EscapeLikeChar(c) + pattern;
    if IsLikeMeta(c) { assert whole[2..] == pattern; } else { assert whole[1..] == pattern; }
  }

  /** A quoted value: escaping leaves nothing but equality. */
  lemma {:induction false} EscapedIsLiteral(s: string, text: string, fold: Fold)
    ensures Like(EscapeLike(s), text, fold) <==> SameText(s, text, fold)
  {
    if s != "" {
      LiteralStep(s[0], EscapeLike(s[1..]), text, fold);
      if text != "" {
        EscapedIsLiteral(s[1..], text[1..], fold);
        SameStep(s, text, fold);
      }
    }
  }

  lemma SameStep(a: string, b: string, fold: Fold)
    requires a != "" && b != ""
    ensures SameText(a, b, fold) <==> fold(a[0]) == fold(b[0]) && SameText(a[1..], b[1..], fold)
  {
    if fold(a[0]) == fold(b[0]) && SameText(a[1..], b[1..], fold) {
      forall i | 0 <= i < |a| ensures fold(a[i]) == fold(b[i]) {
        if i > 0 { assert a[i] == a[1..][i - 1] && b[i] == b[1..][i - 1]; }
      }
    }
  }

  lemma {:induction false} StarsAppend(a: string, b: string)
    ensures StarsToPercent(a + b) == StarsToPercent(a) + StarsToPercent(b)
  {
    if a == "" {
      assert a + b == b;
    } else {
      StarsAppend(a[1..], b);
      assert (a + b)[1..] == a[1..] + b;
    }
  }

  /** The pattern for an unquoted value, one character at a time. */
  lemma GlobPattern(s: string)
    requires s != ""
    ensures StarsToPercent(EscapeLike(s))
      == (if s[0] == '*' then "%" else EscapeLikeChar(s[0])) + StarsToPercent(EscapeLike(s[1..]))
  {
    StarsAppend(EscapeLikeChar(s[0]), EscapeLike(s[1..]));
    var c := EscapeLikeChar(s[0]);
    if IsLikeMeta(s[0]) {
      assert c[1..] == [s[0]] && c[1..][1..] == "";
    } else {
      assert c[1..] == "";
    }
  }

  lemma PartsStep(c: char, parts: seq<string>, text: string, fold: Fold)
    requires parts != []
    ensures PartsMatch([[c] + parts[0]] + parts[1..], text, fold)
      <==> text != "" && fold(c) == fold(text[0]) && PartsMatch(parts, text[1..], fold)
  {
    var more := [[c] + parts[0]] + parts[1..];
    assert more[0][1..] == parts[0] && more[1..] == parts[1..];
    if text != "" {
      var rest := text[1..];
      if |parts| == 1 {
        SameStep(more[0], text, fold);
      } else if |more[0]| <= |text| {
        assert text[..|more[0]|][1..] == rest[..|parts[0]|];
        SameStep(more[0], text[..|more[0]|], fold);
        forall k | |more[0]| <= k <= |text| ensures text[k..] == rest[k - 1..] {
        }
        if k :| |more[0]| <= k <= |text| && PartsMatch(parts[1..], text[k..], fold) {
          assert PartsMatch(parts[1..], rest[k - 1..], fold);
        }
        if k :| |parts[0]| <= k <= |rest| && PartsMatch(parts[1..], rest[k..], fold) {
          assert rest[k..] == text[k + 1..];
          assert PartsMatch(parts[1..], text[k + 1..], fold);
        }
      }
    }
  }

  /** An unquoted value: escaping and then turning `*` into `%` finds exactly what the browser's parts find. */
  lemma {:induction false} GlobMatchesParts(s: string, text: string, fold: Fold)
    ensures Like(StarsToPercent(EscapeLike(s)), text, fold) <==> PartsMatch(Split(s), text, fold)
    decreases |s|
  {
    if s == "" {
      assert EscapeLike(s) == "" && Split(s) == [""];
    } else {
      GlobPattern(s);
      var rest := StarsToPercent(EscapeLike(s[1..]));
      hide Like, PartsMatch, EscapeLike, StarsToPercent;
      if s[0] == '*' {
        PercentFinds(rest, text, fold);
        forall k | 0 <= k <= |text|
          ensures Like(rest, text[k..], fold) <==> PartsMatch(Split(s[1..]), text[k..], fold)
        {
          GlobMatchesParts(s[1..], text[k..], fold);
        }
        EmptyPart(Split(s[1..]), text, fold);
      } else {
        LiteralStep(s[0], rest, text, fold);
        if text != "" { GlobMatchesParts(s[1..], text[1..], fold); }
        PartsStep(s[0], Split(s[1..]), text, fold);
      }
    }
  }

  lemma {:induction false} SplitOnce(s: string)
    requires '*' !in s
    ensures Split(s) == [s]
  {
    if s != "" {
      SplitOnce(s[1..]);
      assert [s[0]] + s[1..] == s;
    }
  }

  lemma {:induction false} SplitAtStar(a: string, b: string)
    requires '*' !in a && '*' !in b
    ensures Split(a + "*" + b) == [a, b]
  {
    var s := a + "*" + b;
    if a == "" {
      SplitOnce(b);
      assert s[1..] == b;
    } else {
      SplitAtStar(a[1..], b);
      assert s[1..] == a[1..] + "*" + b && [a[0]] + a[1..] == a;
    }
  }

  /** What one star means: a text that begins with what stands before it and goes on to end with what stands after. */
  lemma OneStarMatches(a: string, b: string, text: string, fold: Fold)
    requires '*' !in a && '*' !in b
    ensures Like(StarsToPercent(EscapeLike(a + "*" + b)), text, fold) <==>
      |a| + |b| <= |text| && SameText(a, text[..|a|], fold) && SameText(b, text[|text| - |b|..], fold)
  {
    GlobMatchesParts(a + "*" + b, text, fold);
    SplitAtStar(a, b);
    hide Like, StarsToPercent, EscapeLike, Split;
    TwoPartsMatch(a, b, text, fold);
  }

  lemma TwoPartsMatch(a: string, b: string, text: string, fold: Fold)
    ensures PartsMatch([a, b], text, fold) <==>
      |a| + |b| <= |text| && SameText(a, text[..|a|], fold) && SameText(b, text[|text| - |b|..], fold)
  {
    assert [a, b][1..] == [b];
    if |a| <= |text| {
      forall k | |a| <= k <= |text|
        ensures PartsMatch([b], text[k..], fold) <==> |text| - k == |b| && SameText(b, text[|text| - |b|..], fold)
      {
        LastPartMatches(b, text, k, fold);
      }
      hide SameText;
      var k := |text| - |b|;
      if |a| <= k { assert PartsMatch([b], text[k..], fold) <==> SameText(b, text[k..], fold); }
    }
  }

  lemma LastPartMatches(b: string, text: string, k: nat, fold: Fold)
    requires k <= |text|
    ensures PartsMatch([b], text[k..], fold) <==> |text| - k == |b| && SameText(b, text[k..], fold)
  {
  }

  /** And a value without one is matched as it stands. */
  lemma NoStarMatches(s: string, text: string, fold: Fold)
    requires '*' !in s
    ensures Like(StarsToPercent(EscapeLike(s)), text, fold) <==> SameText(s, text, fold)
  {
    GlobMatchesParts(s, text, fold);
    SplitOnce(s);
  }

  lemma EmptyPart(parts: seq<string>, text: string, fold: Fold)
    requires parts != []
    ensures PartsMatch([""] + parts, text, fold) <==> exists k :: 0 <= k <= |text| && PartsMatch(parts, text[k..], fold)
  {
    assert ([""] + parts)[1..] == parts && text[..0] == "";
  }

  // ---- Containment ----

  predicate StartsWith(text: string, s: string, fold: Fold) {
    |s| <= |text| && SameText(s, text[..|s|], fold)
  }

  predicate Contains(text: string, s: string, fold: Fold) {
    exists k :: 0 <= k <= |text| && StartsWith(text[k..], s, fold)
  }

  /** Between two stars a value is looked for anywhere. */
  lemma BetweenStars(s: string, text: string, fold: Fold)
    requires '*' !in s
    ensures PartsMatch(Split("*" + s + "*"), text, fold) <==> Contains(text, s, fold)
  {
    SplitAtStar(s, "");
    assert ("*" + s + "*")[1..] == s + "*" + "";
    EmptyPart([s, ""], text, fold);
    hide PartsMatch, Split;
    forall k | 0 <= k <= |text|
      ensures PartsMatch([s, ""], text[k..], fold) <==> StartsWith(text[k..], s, fold)
    {
      TwoPartsMatch(s, "", text[k..], fold);
    }
    assert Split("*" + s + "*") == [""] + [s, ""] by { SplitStar(s + "*"); }
  }

  lemma SplitStar(s: string)
    ensures Split("*" + s) == [""] + Split(s)
  {
    assert ("*" + s)[1..] == s;
  }

  lemma {:induction false} PercentMatchesAll(text: string, fold: Fold)
    ensures Like("%", text, fold)
    decreases |text|
  {
    if text != "" { PercentMatchesAll(text[1..], fold); } else { assert Like("%"[1..], "", fold); }
  }

  lemma {:induction false} EscapedPrefix(s: string, text: string, fold: Fold)
    ensures Like(EscapeLike(s) + "%", text, fold) <==> StartsWith(text, s, fold)
  {
    if s == "" {
      assert EscapeLike(s) + "%" == "%";
      PercentMatchesAll(text, fold);
    } else {
      assert EscapeLike(s) + "%" == EscapeLikeChar(s[0]) + (EscapeLike(s[1..]) + "%");
      LiteralStep(s[0], EscapeLike(s[1..]) + "%", text, fold);
      if text != "" {
        EscapedPrefix(s[1..], text[1..], fold);
        if |s| <= |text| {
          assert text[..|s|][1..] == text[1..][..|s[1..]|];
          SameStep(s, text[..|s|], fold);
        }
      }
    }
  }

  /** likePattern finds a literal anywhere in the text, whatever wildcards the literal holds. */
  lemma ContainsPatternFinds(s: string, text: string, fold: Fold)
    ensures Like(ContainsPattern(s), text, fold) <==> Contains(text, s, fold)
  {
    var tail := EscapeLike(s) + "%";
    assert ContainsPattern(s) == "%" + tail;
    PercentFinds(tail, text, fold);
    hide Like, EscapeLike, StartsWith;
    forall k | 0 <= k <= |text| ensures Like(tail, text[k..], fold) <==> StartsWith(text[k..], s, fold) {
      EscapedPrefix(s, text[k..], fold);
    }
  }
}
