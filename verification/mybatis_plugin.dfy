/** DynamicMybatisPlugin: for mappers marked for table splitting, finds the first match of
    `(from|into|update)[\s]{1,}(\w{1,})` (case-insensitive) in the prepared SQL and
    replaces every match with that first match's text, "_" and the table key. Only this
    one pattern is modelled, matched the way java.util.regex matches it. */
module DynamicMybatisPlugin {
  import opened JavaLang
  import opened ContextHolder

  // ---------------------------------------------------------------------------------
  // The pattern

  /** `\s` without UNICODE_CHARACTER_CLASS: [ \t\n\x0B\f\r]. */
  predicate IsRegexSpace(c: char) {
    c == ' ' || c == '\t' || c == '\n' || c == '\U{B}' || c == '\U{C}' || c == '\r'
  }

  /** `\w`: [a-zA-Z_0-9]. */
  predicate IsWordChar(c: char) {
    ('a' <= c <= 'z') || ('A' <= c <= 'Z') || ('0' <= c <= '9') || c == '_'
  }

  /** CASE_INSENSITIVE without UNICODE_CASE folds US-ASCII letters only. */
  function ToLowerAscii(c: char): char {
    if 'A' <= c <= 'Z' then (c as int + 32) as char else c
  }

  /** The character at i of s is c, case-insensitively. */
  predicate LetterAt(s: string, i: nat, c: char) {
    i < |s| && ToLowerAscii(s[i]) == c
  }

  /** The length of the alternative of (from|into|update) that matches at i, tried in
      that order, or 0 when none does. */
  function KeywordLength(s: string, i: nat): (k: nat)
    ensures k == 0 || k == 4 || k == 6
    ensures k > 0 ==> i + k <= |s|
  {
    if LetterAt(s, i, 'f') && LetterAt(s, i + 1, 'r') && LetterAt(s, i + 2, 'o')
       && LetterAt(s, i + 3, 'm') then 4
    else if LetterAt(s, i, 'i') && LetterAt(s, i + 1, 'n') && LetterAt(s, i + 2, 't')
       && LetterAt(s, i + 3, 'o') then 4
    else if LetterAt(s, i, 'u') && LetterAt(s, i + 1, 'p') && LetterAt(s, i + 2, 'd')
       && LetterAt(s, i + 3, 'a') && LetterAt(s, i + 4, 't') && LetterAt(s, i + 5, 'e') then 6
    else 0
  }

  /** The end of the maximal run of `\s` starting at i (greedy `[\s]{1,}`). */
  function SkipSpaces(s: string, i: nat): (r: nat)
    requires i <= |s|
    ensures i <= r <= |s|
    ensures forall j :: i <= j < r ==> IsRegexSpace(s[j])
    ensures r == |s| || !IsRegexSpace(s[r])
    decreases |s| - i
  {
    if i < |s| && IsRegexSpace(s[i]) then SkipSpaces(s, i + 1) else i
  }

  /** The end of the maximal run of `\w` starting at i (greedy `\w{1,}`). */
  function SkipWord(s: string, i: nat): (r: nat)
    requires i <= |s|
    ensures i <= r <= |s|
    ensures forall j :: i <= j < r ==> IsWordChar(s[j])
    ensures r == |s| || !IsWordChar(s[r])
    decreases |s| - i
  {
    if i < |s| && IsWordChar(s[i]) then SkipWord(s, i + 1) else i
  }

  /** The language of the pattern: s[b..e] is a keyword, whitespace up to w, then word
      characters up to e, each part non-empty. */
  ghost predicate Splits(s: string, b: nat, w: nat, e: nat) {
    var k := KeywordLength(s, b);
    && k > 0 && b + k < w < e <= |s|
    && (forall j :: b + k <= j < w ==> IsRegexSpace(s[j]))
    && (forall j :: w <= j < e ==> IsWordChar(s[j]))
  }

  /** The match the pattern makes at b, if any: its end, where the greedy word run stops. */
  function MatchAt(s: string, b: nat): (r: Option<nat>)
    requires b <= |s|
    ensures r.Some? ==> b < r.value <= |s| && (r.value == |s| || !IsWordChar(s[r.value]))
  {
    var k := KeywordLength(s, b);
    if k == 0 then None
    else
      var w := SkipSpaces(s, b + k);
      if w == b + k || w == |s| || !IsWordChar(s[w]) then None
      else Some(SkipWord(s, w))
  }

  /** The greedy quantifiers make the match the longest text at b that the pattern's
      language admits, and there is no match exactly when the language admits nothing. */
  lemma MatchIsLongestSplit(s: string, b: nat)
    requires b <= |s|
    ensures MatchAt(s, b).Some? ==> exists w: nat :: Splits(s, b, w, MatchAt(s, b).value)
    ensures MatchAt(s, b).Some? ==> forall w: nat, e: nat :: Splits(s, b, w, e) ==> e <= MatchAt(s, b).value
    ensures MatchAt(s, b).None? ==> forall w: nat, e: nat :: !Splits(s, b, w, e)
  {
    var k := KeywordLength(s, b);
    if k > 0 {
      var w := SkipSpaces(s, b + k);
      if w > b + k && w < |s| && IsWordChar(s[w]) {
        assert Splits(s, b, w, SkipWord(s, w));
      }
    }
    forall w: nat, e: nat | Splits(s, b, w, e)
      ensures w == SkipSpaces(s, b + KeywordLength(s, b))
      ensures e <= SkipWord(s, w)
    {
      assert !IsRegexSpace(s[w]);
    }
  }

  /** A match starts with a letter of its keyword and ends with a word character. */
  lemma MatchShape(s: string, b: nat)
    requires b <= |s| && MatchAt(s, b).Some?
    ensures s[b] > ' ' && IsWordChar(s[MatchAt(s, b).value - 1])
  {
  }

  datatype Span = Span(start: nat, end: nat)

  /** No position in [i, j) of s starts a match. */
  predicate NoMatchIn(s: string, i: nat, j: nat)
    requires j <= |s| + 1
    decreases j - i
  {
    i >= j || (MatchAt(s, i).None? && NoMatchIn(s, i + 1, j))
  }

  lemma {:induction false} NoMatchInAt(s: string, i: nat, j: nat, k: nat)
    requires j <= |s| + 1 && NoMatchIn(s, i, j) && i <= k < j
    ensures MatchAt(s, k).None?
    decreases k - i
  {
    if i < k {
      NoMatchInAt(s, i + 1, j, k);
    }
  }

  /** Matcher.find from index i: the leftmost match starting at or after i. No position
      before it starts a match; when there is none, no position at all does. */
  function FindFrom(s: string, i: nat): (r: Option<Span>)
    requires i <= |s|
    ensures r.Some? ==> i <= r.value.start < r.value.end <= |s|
    ensures r.Some? ==> MatchAt(s, r.value.start) == Some(r.value.end)
    ensures r.Some? ==> NoMatchIn(s, i, r.value.start)
    ensures r.None? ==> NoMatchIn(s, i, |s| + 1)
    decreases |s| - i
  {
    match MatchAt(s, i)
    case Some(e) => Some(Span(i, e))
    case None =>
      if i == |s| then None else FindFrom(s, i + 1)
  }

  // ---------------------------------------------------------------------------------
  // The rewrite

  /** Matcher.replaceAll from index i with a replacement taken literally: every match,
      scanned left to right without overlap, is replaced; the text between is kept. */
  function ReplaceAllFrom(s: string, i: nat, replacement: string): (r: string)
    requires i <= |s|
    ensures FindFrom(s, i).None? ==> r == s[i..]
    ensures FindFrom(s, i).Some? ==>
      var k := FindFrom(s, i).value.start - i;
      && k + |replacement| <= |r| && r[..k] == s[i..i + k] && r[k..k + |replacement|] == replacement
    decreases |s| - i
  {
    match FindFrom(s, i)
    case None => s[i..]
    case Some(m) => s[i..m.start] + replacement + ReplaceAllFrom(s, m.end, replacement)
  }

  /** `matcher.group().trim()` after the first find, or null when nothing matched. The
      name is the whole first match, keyword included: trim removes nothing from it. */
  function TableName(sql: string): (r: JString)
    ensures r.None? <==> FindFrom(sql, 0).None?
    ensures r.Some? ==> r.value == sql[FindFrom(sql, 0).value.start..FindFrom(sql, 0).value.end]
  {
    match FindFrom(sql, 0)
    case None => None
    case Some(m) =>
      MatchShape(sql, m.start);
      TrimKeepsSlice(sql, m.start, m.end);
      Some(Trim(sql[m.start..m.end]))
  }

  /** The SQL intercept hands on for a table-split mapper. */
  function Rewrite(sql: string, tbKey: JString): (r: string)
    ensures FindFrom(sql, 0).None? ==> r == sql
    ensures FindFrom(sql, 0).Some? ==>
      var k := FindFrom(sql, 0).value.start;
      k < |r| && r[..k] == sql[..k]
  {
    var r := ReplaceAllFrom(sql, 0, Str(TableName(sql)) + "_" + Str(tbKey));
    assert FindFrom(sql, 0).Some? ==> sql[0..FindFrom(sql, 0).value.start] == sql[..FindFrom(sql, 0).value.start];
    r
  }

  /** A slice that starts and ends above U+0020 is left alone by trim. */
  lemma TrimKeepsSlice(s: string, b: nat, e: nat)
    requires b < e <= |s| && s[b] > ' ' && s[e - 1] > ' '
    ensures Trim(s[b..e]) == s[b..e]
  {
    var t := s[b..e];
    assert t[0] == s[b] && t[|t| - 1] == s[e - 1];
  }



  /** With exactly one match, the statement is its prefix, the match, "_", the table key
      and its suffix, so it grows by 1 + |table key|. */
  lemma RewriteSingleMatch(sql: string, tbKey: JString)
    requires FindFrom(sql, 0).Some?
    requires FindFrom(sql, FindFrom(sql, 0).value.end).None?
    ensures var m := FindFrom(sql, 0).value;
      Rewrite(sql, tbKey) == sql[..m.start] + (sql[m.start..m.end] + "_" + Str(tbKey)) + sql[m.end..]
    ensures |Rewrite(sql, tbKey)| == |sql| + 1 + |Str(tbKey)|
  {
    RewriteFirstMatch(sql, tbKey);
    var m := FindFrom(sql, 0).value;
    var suffixed := sql[m.start..m.end] + "_" + Str(tbKey);
    var rest := ReplaceAllFrom(sql, m.end, suffixed);
    assert rest == sql[m.end..];
    assert |suffixed| == (m.end - m.start) + 1 + |Str(tbKey)|;
  }

  /** Whatever follows, the rewritten statement keeps the text before the first match and
      puts the first match, "_" and the table key in its place; the rest is rewritten
      with the same replacement. */
  lemma RewriteFirstMatch(sql: string, tbKey: JString)
    requires FindFrom(sql, 0).Some?
    ensures var m := FindFrom(sql, 0).value;
      var suffixed := sql[m.start..m.end] + "_" + Str(tbKey);
      Rewrite(sql, tbKey) == sql[..m.start] + suffixed + ReplaceAllFrom(sql, m.end, suffixed)
  {
    var m := FindFrom(sql, 0).value;
    assert sql[0..m.start] == sql[..m.start];
  }

  /** Keyword kept, whitespace kept, first word character kept: a match at b survives in
      any text that agrees with s on the match. */
  lemma MatchSurvives(s: string, t: string, b: nat)
    requires b <= |s| && MatchAt(s, b).Some?
    requires MatchAt(s, b).value <= |t| && t[b..MatchAt(s, b).value] == s[b..MatchAt(s, b).value]
    ensures MatchAt(t, b).Some?
  {
    var e := MatchAt(s, b).value;
    var k := KeywordLength(s, b);
    forall j | b <= j < e
      ensures t[j] == s[j]
    {
      assert t[b..e][j - b] == s[b..e][j - b];
    }
    assert KeywordLength(t, b) == k;
    var w := SkipSpaces(s, b + k);
    assert SkipSpaces(t, b + k) == w;
  }

  /** A second match (another table of a multi-table statement) is replaced with the
      text of the FIRST match, not with its own: both places get the same table name. */
  lemma RewriteSecondMatch(sql: string, tbKey: JString)
    requires FindFrom(sql, 0).Some?
    requires FindFrom(sql, FindFrom(sql, 0).value.end).Some?
    ensures var m := FindFrom(sql, 0).value;
      var n := FindFrom(sql, m.end).value;
      var suffixed := sql[m.start..m.end] + "_" + Str(tbKey);
      Rewrite(sql, tbKey)
        == sql[..m.start] + suffixed + (sql[m.end..n.start] + suffixed + ReplaceAllFrom(sql, n.end, suffixed))
  {
    RewriteFirstMatch(sql, tbKey);
  }

  /** Text spliced between a prefix and a rest keeps its place. */
  lemma Splice(t: string, a: string, m: string, k: string, c: string, i: nat, j: nat)
    requires t == a + (m + "_" + k) + c && i == |a| && j == |a| + |m|
    ensures j < |t| && t[i..j] == m && t[j] == '_'
  {
    assert t[i..j] == m by {
      forall x | 0 <= x < |m|
        ensures t[i + x] == m[x]
      {
      }
    }
  }

  /** The rewritten statement still holds the first match where the original had it,
      followed by "_". */
  lemma RewriteKeepsFirstMatch(sql: string, tbKey: JString)
    requires FindFrom(sql, 0).Some?
    ensures var m := FindFrom(sql, 0).value;
      var t := Rewrite(sql, tbKey);
      && m.end < |t| && t[m.start..m.end] == sql[m.start..m.end] && t[m.end] == '_'
  {
    var m := FindFrom(sql, 0).value;
    var t := Rewrite(sql, tbKey);
    var prefix, matched := sql[..m.start], sql[m.start..m.end];
    var rest := ReplaceAllFrom(sql, m.end, matched + "_" + Str(tbKey));
    assert t == prefix + (matched + "_" + Str(tbKey)) + rest by {
      RewriteFirstMatch(sql, tbKey);
    }
    Splice(t, prefix, matched, Str(tbKey), rest, m.start, m.end);
  }

  /** A statement with a match is never a fixed point of the rewrite: right after the
      first match the rewritten text has "_", where the original has no word character. */
  lemma RewriteChanges(t: string, tbKey: JString)
    requires FindFrom(t, 0).Some?
    ensures Rewrite(t, tbKey) != t
  {
    RewriteKeepsFirstMatch(t, tbKey);
  }

  /** A text with a match somewhere has a first match. */
  lemma FindsAnyMatch(t: string, b: nat)
    requires b <= |t| && MatchAt(t, b).Some?
    ensures FindFrom(t, 0).Some?
  {
    if FindFrom(t, 0).None? {
      NoMatchInAt(t, 0, |t| + 1, b);
    }
  }

  /** A rewritten statement still matches where the original first did. */
  lemma RewriteStillMatches(sql: string, tbKey: JString)
    requires FindFrom(sql, 0).Some?
    ensures FindFrom(Rewrite(sql, tbKey), 0).Some?
  {
    var m := FindFrom(sql, 0).value;
    RewriteKeepsFirstMatch(sql, tbKey);
    MatchSurvives(sql, Rewrite(sql, tbKey), m.start);
    FindsAnyMatch(Rewrite(sql, tbKey), m.start);
  }

  /** The rewrite is not idempotent: a rewritten statement still matches, so rewriting
      it again appends the suffix once more. */
  lemma RewriteNotIdempotent(sql: string, tbKey: JString)
    requires FindFrom(sql, 0).Some?
    ensures Rewrite(Rewrite(sql, tbKey), tbKey) != Rewrite(sql, tbKey)
  {
    RewriteStillMatches(sql, tbKey);
    RewriteChanges(Rewrite(sql, tbKey), tbKey);
  }

  // ---------------------------------------------------------------------------------
  // The interceptor

  /** MyBatis' bound statement; its sql field is overwritten in place. */
  class BoundSql {
    var sql: string

    constructor (sql: string)
      ensures this.sql == sql
    {
      this.sql := sql;
    }
  }

  /** No `$` and no `\`: Matcher.replaceAll would read them as group references or
      escapes, and the replacement is then taken literally. */
  predicate LiteralReplacement(s: string) {
    forall i :: 0 <= i < |s| ==> s[i] != '$' && s[i] != '\\'
  }

  /** intercept: splitTable says whether the mapper carries the marker with
      splitTable = true; proceed stands for invocation.proceed() on the statement text
      it is given. */
  method Intercept<V>(boundSql: BoundSql, splitTable: bool, ctx: DBContextHolder,
                      assertionsEnabled: bool, proceed: string -> Outcome<V>)
    returns (r: Outcome<V>)
    requires ctx.GetTBKey().Some? ==> LiteralReplacement(ctx.GetTBKey().value)
    modifies boundSql
    ensures !splitTable ==> boundSql.sql == old(boundSql.sql) && r == proceed(boundSql.sql)
    ensures splitTable && assertionsEnabled && FindFrom(old(boundSql.sql), 0).None? ==>
      boundSql.sql == old(boundSql.sql) && r == Threw(AssertionError)
    ensures splitTable && !(assertionsEnabled && FindFrom(old(boundSql.sql), 0).None?) ==>
      boundSql.sql == Rewrite(old(boundSql.sql), ctx.GetTBKey()) && r == proceed(boundSql.sql)
  {
    if !splitTable {
      r := proceed(boundSql.sql);
      return;
    }
    var sql := boundSql.sql;
    var found := FindFrom(sql, 0);
    var tableName: JString := None;
    if found.Some? {
      tableName := Some(Trim(sql[found.value.start..found.value.end]));
    }
    if assertionsEnabled && tableName.None? {
      r := Threw(AssertionError);
      return;
    }
    var replaceSql := ReplaceAllFrom(sql, 0, Str(tableName) + "_" + Str(ctx.tbKey));
    boundSql.sql := replaceSql;
    r := proceed(replaceSql);
  }
}
