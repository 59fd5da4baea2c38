/** Case-insensitive text search: `re.escape` and its inverse, and LIKE patterns. */
module TextSearch {
  import opened Values

  predicate OccursAt(s: string, text: string, k: int) {
    0 <= k <= |s| - |text| && s[k..k + |text|] == text
  }

  ghost predicate Contains(s: string, text: string) {
    exists k :: OccursAt(s, text, k)
  }

  // ---- the escaped text of a $regex ----

  /** The characters `re.escape` puts a backslash before. */
  const SPECIAL: string := "()[]{}?*+-|^$\\.&~# \t\n\r\U{000B}\U{000C}"

  function ReEscape(text: string): string {
    if text == [] then []
    else (if text[0] in SPECIAL then ['\\', text[0]] else [text[0]]) + ReEscape(text[1..])
  }

  /** Replaces each backslash and the character after it by that character, left to right. */
  function SearchedText(pattern: string): string {
    if pattern == [] then []
    else if pattern[0] == '\\' && |pattern| >= 2 then [pattern[1]] + SearchedText(pattern[2..])
    else [pattern[0]] + SearchedText(pattern[1..])
  }

  /** The check that a `$regex` operand is escaped text rather than a pattern. */
  predicate IsEscapedText(pattern: string) {
    ReEscape(SearchedText(pattern)) == pattern
  }

  lemma {:induction false} UnescapeEscape(text: string)
    ensures SearchedText(ReEscape(text)) == text
  {
    if text != [] {
      UnescapeEscape(text[1..]);
      var rest := ReEscape(text[1..]);
      assert SPECIAL[13] == '\\';
      if text[0] in SPECIAL {
        assert ReEscape(text) == ['\\', text[0]] + rest;
        assert (['\\', text[0]] + rest)[2..] == rest;
      } else {
        assert ReEscape(text) == [text[0]] + rest;
        assert ([text[0]] + rest)[1..] == rest;
      }
    }
  }

  /** The check accepts exactly the escaped texts, and an escaped text names one text. */
  lemma CheckAcceptsExactlyEscapedTexts(pattern: string)
    ensures IsEscapedText(pattern) <==> exists text :: pattern == ReEscape(text)
    ensures forall text :: pattern == ReEscape(text) ==> text == SearchedText(pattern)
  {
    forall text | pattern == ReEscape(text) ensures text == SearchedText(pattern) {
      UnescapeEscape(text);
    }
    if IsEscapedText(pattern) {
      assert pattern == ReEscape(SearchedText(pattern));
    }
  }

  // ---- LIKE ----

  /** LIKE with backslash as its escape character: '%' matches any text, '_' any character. */
  predicate Like(s: string, pattern: string)
    decreases |s| + |pattern|
  {
    if pattern == [] then s == []
    else if pattern[0] == '\\' && |pattern| >= 2 then
      s != [] && s[0] == pattern[1] && Like(s[1..], pattern[2..])
    else if pattern[0] == '%' then Like(s, pattern[1..]) || (s != [] && Like(s[1..], pattern))
    else s != [] && (pattern[0] == '_' || s[0] == pattern[0]) && Like(s[1..], pattern[1..])
  }

  function Replace(s: string, c: char, put: string): string {
    if s == [] then []
    else (if s[0] == c then put else [s[0]]) + Replace(s[1..], c, put)
  }

  /** Escapes the escape character first, then each wildcard, by three replaces. */
  function EscapeLike(text: string): string {
    Replace(Replace(Replace(text, '\\', "\\\\"), '%', "\\%"), '_', "\\_")
  }

  function SubstringPattern(text: string): string {
    "%" + EscapeLike(text) + "%"
  }

  predicate IsWild(c: char) { c == '\\' || c == '%' || c == '_' }

  /** What the three replaces amount to: a backslash before each special character. */
  function EscapeEach(text: string): string {
    if text == [] then []
    else (if IsWild(text[0]) then ['\\', text[0]] else [text[0]]) + EscapeEach(text[1..])
  }

  lemma {:induction false} ReplaceAppend(a: string, b: string, c: char, put: string)
    ensures Replace(a + b, c, put) == Replace(a, c, put) + Replace(b, c, put)
  {
    if a == [] {
      assert a + b == b;
    } else {
      assert (a + b)[0] == a[0] && (a + b)[1..] == a[1..] + b;
      ReplaceAppend(a[1..], b, c, put);
    }
  }

  lemma ReplacePair(x: char, y: char, c: char, put: string)
    ensures Replace([x], c, put) == if x == c then put else [x]
    ensures Replace([x, y], c, put) == Replace([x], c, put) + Replace([y], c, put)
  {
    assert [x, y] == [x] + [y] && [x][1..] == [];
    ReplaceAppend([x], [y], c, put);
  }

  lemma {:induction false} EscapeLikeIsEscapeEach(text: string)
    ensures EscapeLike(text) == EscapeEach(text)
  {
    if text != [] {
      var x := text[0];
      var first := Replace([x], '\\', "\\\\");
      var second := Replace(first, '%', "\\%");
      var third := Replace(second, '_', "\\_");
      assert third == if IsWild(x) then ['\\', x] else [x] by {
        ReplacePair(x, x, '\\', "\\\\");
        ReplacePair(x, x, '%', "\\%");
        ReplacePair(x, x, '_', "\\_");
        ReplacePair('\\', '\\', '%', "\\%");
        ReplacePair('\\', '\\', '_', "\\_");
        ReplacePair('\\', '%', '_', "\\_");
        ReplacePair('%', '%', '_', "\\_");
      }
      assert text == [x] + text[1..];
      var rest := Replace(text[1..], '\\', "\\\\");
      ReplaceAppend([x], text[1..], '\\', "\\\\");
      ReplaceAppend(first, rest, '%', "\\%");
      ReplaceAppend(second, Replace(rest, '%', "\\%"), '_', "\\_");
      EscapeLikeIsEscapeEach(text[1..]);
    }
  }

  lemma {:induction false} LikeLiteral(s: string, text: string, rest: string)
    ensures Like(s, EscapeEach(text) + rest) <==>
            |text| <= |s| && s[..|text|] == text && Like(s[|text|..], rest)
  {
    if text == [] {
      assert EscapeEach(text) + rest == rest && s[0..] == s;
    } else {
      var tail := EscapeEach(text[1..]) + rest;
      if IsWild(text[0]) {
        assert EscapeEach(text) + rest == ['\\', text[0]] + tail;
        assert (['\\', text[0]] + tail)[2..] == tail;
      } else {
        assert EscapeEach(text) + rest == [text[0]] + tail;
        assert ([text[0]] + tail)[1..] == tail;
      }
      if s != [] {
        LikeLiteral(s[1..], text[1..], rest);
        assert |text| <= |s| ==> s[|text|..] == s[1..][|text[1..]|..];
        assert |text| <= |s| ==> s[..|text|] == [s[0]] + s[1..][..|text[1..]|];
        assert text == [text[0]] + text[1..];
      }
    }
  }

  lemma {:induction false} LikePercent(s: string, rest: string)
    ensures Like(s, "%" + rest) <==> exists k :: 0 <= k <= |s| && Like(s[k..], rest)
  {
    assert ("%" + rest)[1..] == rest;
    assert s[0..] == s;
    if s != [] {
      LikePercent(s[1..], rest);
      forall k | 0 <= k <= |s[1..]| ensures s[1..][k..] == s[k + 1..] {}
      forall k | 1 <= k <= |s| ensures s[1..][k - 1..] == s[k..] {}
    }
  }

  lemma LikeAny(s: string)
    ensures Like(s, "%")
  {
    LikePercent(s, []);
    assert "%" + [] == "%";
    assert Like(s[|s|..], []);
  }

  /** The LIKE pattern of a text matches a string if and only if the string contains the text. */
  lemma SubstringPatternIsExact(s: string, text: string)
    ensures Like(s, SubstringPattern(text)) <==> Contains(s, text)
  {
    EscapeLikeIsEscapeEach(text);
    assert SubstringPattern(text) == "%" + (EscapeEach(text) + "%");
    LikePercent(s, EscapeEach(text) + "%");
    forall k | 0 <= k <= |s|
      ensures Like(s[k..], EscapeEach(text) + "%") <==> OccursAt(s, text, k)
    {
      LikeLiteral(s[k..], text, "%");
      if |text| <= |s[k..]| {
        LikeAny(s[k..][|text|..]);
        assert s[k..][..|text|] == s[k..k + |text|];
      }
    }
  }

  lemma {:induction false} LowerEscapeEach(text: string)
    ensures Lower(EscapeEach(text)) == EscapeEach(Lower(text))
  {
    if text != [] {
      LowerEscapeEach(text[1..]);
      assert Lower(text)[1..] == Lower(text[1..]);
    }
  }

  /** Folding a pattern's case folds the text it searches for, and spoils no escape. */
  lemma LowerSubstringPattern(text: string)
    ensures Lower(SubstringPattern(text)) == SubstringPattern(Lower(text))
  {
    EscapeLikeIsEscapeEach(text);
    EscapeLikeIsEscapeEach(Lower(text));
    LowerEscapeEach(text);
    var escaped := EscapeEach(text);
    assert Lower("%" + escaped + "%") == "%" + Lower(escaped) + "%";
  }
}
