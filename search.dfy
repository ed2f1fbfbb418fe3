/**
 * Searching the dictionary (core/src/search.rs): the tiered merge of exact, prefix and
 * full-text lookups, the full-text query preparation, the preview truncation and the
 * conversion of a store row into a search result.
 *
 * The store's three lookups are SQL queries; here they are the functions of a `Store`
 * value, each answering a text and a row count with the rows found or a failure.
 */
module Search {
  import opened Wrappers
  import opened Text
  import opened Models

  // ---------------------------------------------------------------------------------------
  // Full-text query preparation (`prepare_fts_query`)
  // ---------------------------------------------------------------------------------------

  /** `str::replace` of one character by a string, everywhere in `s`. */
  function ReplaceChar(s: string, c: char, rep: string): string {
    if s == [] then [] else (if s[0] == c then rep else [s[0]]) + ReplaceChar(s[1..], c, rep)
  }

  /** The characters the full-text engine treats specially and the query turns into spaces. */
  predicate IsReserved(c: char) {
    c == '*' || c == '^' || c == ':'
  }

  predicate NoReserved(s: string) {
    forall i :: 0 <= i < |s| ==> !IsReserved(s[i])
  }

  /** The escaping step of `prepare_fts_query`, as written: a chain of four replacements. */
  function EscapeFts(query: string): string {
    ReplaceChar(ReplaceChar(ReplaceChar(ReplaceChar(query, '"', "\"\""), '*', " "), '^', " "), ':', " ")
  }

  /** What the escaping does to one character: a quote is doubled, a reserved character becomes a space. */
  function EscapeChar(c: char): string {
    if c == '"' then "\"\"" else if IsReserved(c) then " " else [c]
  }

  /** The reference reading of the escaping: every character escaped on its own. */
  function EscapeEachChar(s: string): string {
    if s == [] then [] else EscapeChar(s[0]) + EscapeEachChar(s[1..])
  }

  /** `prepare_fts_query`: every whitespace-separated token of the escaped text becomes a prefix term `token*`. */
  function PrepareFtsQuery(query: string): string {
    var words := Words(EscapeFts(query));
    if words == [] then "" else Join(Starred(words), " ")
  }

  function Starred(ws: seq<string>): seq<string> {
    seq(|ws|, k requires 0 <= k < |ws| => ws[k] + "*")
  }

  lemma {:induction false} ReplaceCharAppend(a: string, b: string, c: char, rep: string)
    ensures ReplaceChar(a + b, c, rep) == ReplaceChar(a, c, rep) + ReplaceChar(b, c, rep)
    decreases |a|
  {
    if a == [] {
      assert a + b == b;
    } else {
      assert (a + b)[1..] == a[1..] + b;
      ReplaceCharAppend(a[1..], b, c, rep);
    }
  }

  lemma EscapeFtsAppend(a: string, b: string)
    ensures EscapeFts(a + b) == EscapeFts(a) + EscapeFts(b)
  {
    var r1a, r1b := ReplaceChar(a, '"', "\"\""), ReplaceChar(b, '"', "\"\"");
    ReplaceCharAppend(a, b, '"', "\"\"");
    var r2a, r2b := ReplaceChar(r1a, '*', " "), ReplaceChar(r1b, '*', " ");
    ReplaceCharAppend(r1a, r1b, '*', " ");
    var r3a, r3b := ReplaceChar(r2a, '^', " "), ReplaceChar(r2b, '^', " ");
    ReplaceCharAppend(r2a, r2b, '^', " ");
    ReplaceCharAppend(r3a, r3b, ':', " ");
  }

  /** A string of one character, not equal to `c`, is left alone by replacing `c`. */
  lemma ReplaceCharOther(x: char, c: char, rep: string)
    requires x != c
    ensures ReplaceChar([x], c, rep) == [x]
  {
    assert [x][1..] == [];
  }

  lemma {:induction false} EscapeFtsOneChar(x: char)
    ensures EscapeFts([x]) == EscapeChar(x)
  {
    assert [x][1..] == [];
    if x == '"' {
      var q := "\"\"";
      assert ReplaceChar([x], '"', q) == q;
      ReplaceCharAppend(['"'], ['"'], '*', " ");
      ReplaceCharOther('"', '*', " ");
      assert ReplaceChar(q, '*', " ") == q;
      ReplaceCharAppend(['"'], ['"'], '^', " ");
      ReplaceCharOther('"', '^', " ");
      assert ReplaceChar(q, '^', " ") == q;
      ReplaceCharAppend(['"'], ['"'], ':', " ");
      ReplaceCharOther('"', ':', " ");
    } else if x == '*' {
      ReplaceCharOther(x, '"', "\"\"");
      ReplaceCharOther(' ', '^', " ");
      ReplaceCharOther(' ', ':', " ");
    } else if x == '^' {
      ReplaceCharOther(x, '"', "\"\"");
      ReplaceCharOther(x, '*', " ");
      ReplaceCharOther(' ', ':', " ");
    } else if x == ':' {
      ReplaceCharOther(x, '"', "\"\"");
      ReplaceCharOther(x, '*', " ");
      ReplaceCharOther(x, '^', " ");
    } else {
      ReplaceCharOther(x, '"', "\"\"");
      ReplaceCharOther(x, '*', " ");
      ReplaceCharOther(x, '^', " ");
      ReplaceCharOther(x, ':', " ");
    }
  }

  /**
   * The four replacements do not interfere: the chain escapes each character on its own,
   * doubling quotes and turning `*`, `^` and `:` into spaces.
   */
  lemma {:induction false} EscapeFtsIsPerChar(s: string)
    ensures EscapeFts(s) == EscapeEachChar(s)
    decreases |s|
  {
    if s != [] {
      assert s == [s[0]] + s[1..];
      EscapeFtsAppend([s[0]], s[1..]);
      EscapeFtsOneChar(s[0]);
      EscapeFtsIsPerChar(s[1..]);
    }
  }

  /** Escaped text holds no reserved character. */
  lemma {:induction false} EscapeEachCharNoReserved(s: string)
    ensures NoReserved(EscapeEachChar(s))
    decreases |s|
  {
    if s != [] {
      EscapeEachCharNoReserved(s[1..]);
      var e := EscapeChar(s[0]);
      assert NoReserved(e);
      var r := EscapeEachChar(s[1..]);
      assert forall i :: |e| <= i < |e| + |r| ==> (e + r)[i] == r[i - |e|];
    }
  }

  /** Every character of a token is a character of the text. */
  lemma {:induction false} WordsCharsFrom(s: string)
    ensures forall k, c :: 0 <= k < |Words(s)| && c in Words(s)[k] ==> c in s
    decreases |s|
  {
    if s != [] {
      var n := if IsWhitespace(s[0]) then 1 else WordLength(s);
      WordsCharsFrom(s[n..]);
      forall c | c in s[..n] ensures c in s {
        var i :| 0 <= i < n && s[..n][i] == c;
        assert s[i] == c;
      }
      forall c | c in s[n..] ensures c in s {
        var i :| 0 <= i < |s| - n && s[n..][i] == c;
        assert s[n + i] == c;
      }
      assert s[1..] == s[n..] || !IsWhitespace(s[0]);
    }
  }

  /** The tokens of a text without reserved characters have none either. */
  lemma WordsNoReserved(s: string)
    requires NoReserved(s)
    ensures forall k :: 0 <= k < |Words(s)| ==> NoReserved(Words(s)[k])
  {
    WordsCharsFrom(s);
    forall k, i | 0 <= k < |Words(s)| && 0 <= i < |Words(s)[k]| ensures !IsReserved(Words(s)[k][i]) {
      assert Words(s)[k][i] in Words(s)[k];
    }
  }

  /** The query holds no `^` or `:`, and a `*` only right after a token character, at a token's end. */
  predicate StarsEndTokens(r: string) {
    forall i :: 0 <= i < |r| ==> CharFitsQuery(r, i)
  }

  predicate CharFitsQuery(r: string, i: nat)
    requires i < |r|
  {
    r[i] != '^' && r[i] != ':' &&
    (r[i] == '*' ==> 0 < i && !IsWhitespace(r[i - 1]) && r[i - 1] != '*' && (i + 1 == |r| || r[i + 1] == ' '))
  }

  predicate IsSearchToken(w: string) {
    IsWord(w) && NoReserved(w)
  }

  lemma JoinFirstChar(ws: seq<string>, sep: string)
    requires |ws| > 0 && |ws[0]| > 0
    ensures |Join(ws, sep)| > 0 && Join(ws, sep)[0] == ws[0][0]
  {
  }

  lemma {:induction false} StarredJoinShape(ws: seq<string>)
    requires |ws| > 0
    requires forall k :: 0 <= k < |ws| ==> IsSearchToken(ws[k])
    ensures StarsEndTokens(Join(Starred(ws), " "))
    decreases |ws|
  {
    var w := ws[0];
    var a := w + "*";
    assert Starred(ws)[0] == a;
    if |ws| == 1 {
      assert Join(Starred(ws), " ") == a;
      assert forall i :: 0 <= i < |w| ==> a[i] == w[i];
    } else {
      assert Starred(ws)[1..] == Starred(ws[1..]);
      var j := Join(Starred(ws[1..]), " ");
      var r := a + " " + j;
      assert Join(Starred(ws), " ") == r;
      StarredJoinShape(ws[1..]);
      assert Starred(ws[1..])[0] == ws[1] + "*";
      JoinFirstChar(Starred(ws[1..]), " ");
      assert j[0] == ws[1][0];
      forall i | 0 <= i < |r| ensures CharFitsQuery(r, i) {
        if i < |w| {
          assert r[i] == w[i];
        } else if i == |w| {
          assert r[i] == '*' && r[i - 1] == w[|w| - 1] && r[i + 1] == ' ';
        } else if i == |w| + 1 {
          assert r[i] == ' ';
        } else {
          var k := i - |w| - 2;
          assert CharFitsQuery(j, k);
          assert r[i] == j[k];
          if k > 0 {
            assert r[i - 1] == j[k - 1];
          }
          if i + 1 < |r| {
            assert r[i + 1] == j[k + 1];
          }
        }
      }
      assert StarsEndTokens(r);
    }
  }

  /** The prepared query is empty exactly when the escaped text has no token. */
  lemma PrepareFtsQueryEmpty(query: string)
    ensures PrepareFtsQuery(query) == [] <==> IsBlank(EscapeFts(query))
  {
    var words := Words(EscapeFts(query));
    WordsEmptyIffBlank(EscapeFts(query));
    if words != [] {
      WordsAreWords(EscapeFts(query));
      assert Starred(words)[0] == words[0] + "*";
      JoinFirstChar(Starred(words), " ");
    }
  }

  /**
   * Splitting the prepared query at whitespace gives back the tokens of the escaped text,
   * each with a `*` appended, in order; so they were joined by single spaces.
   */
  lemma PrepareFtsQueryTokens(query: string)
    ensures Words(PrepareFtsQuery(query)) == Starred(Words(EscapeFts(query)))
  {
    var words := Words(EscapeFts(query));
    if words != [] {
      WordsAreWords(EscapeFts(query));
      var starred := Starred(words);
      forall k | 0 <= k < |starred| ensures IsWord(starred[k]) {
        assert IsWord(words[k]);
        assert forall i :: 0 <= i < |words[k]| ==> starred[k][i] == words[k][i];
      }
      WordsOfJoin(starred);
    }
  }

  /** The prepared query holds no `^` or `:`, and every `*` ends a token. */
  lemma PrepareFtsQueryReserved(query: string)
    ensures StarsEndTokens(PrepareFtsQuery(query))
  {
    var escaped := EscapeFts(query);
    var words := Words(escaped);
    if words != [] {
      EscapeFtsIsPerChar(query);
      EscapeEachCharNoReserved(query);
      WordsAreWords(escaped);
      WordsNoReserved(escaped);
      StarredJoinShape(words);
    }
  }

  /** Text with no quote and no reserved character is left as it is by the escaping. */
  lemma {:induction false} EscapePlainText(s: string)
    requires IsPlain(s)
    ensures EscapeFts(s) == s
  {
    EscapeFtsIsPerChar(s);
    EscapeEachCharPlain(s);
  }

  lemma {:induction false} EscapeEachCharPlain(s: string)
    requires IsPlain(s)
    ensures EscapeEachChar(s) == s
    decreases |s|
  {
    if s != [] {
      EscapeEachCharPlain(s[1..]);
    }
  }

  /** The characters the escaping leaves alone: neither a quote nor reserved. */
  predicate IsPlain(s: string) {
    forall i :: 0 <= i < |s| ==> s[i] != '"' && !IsReserved(s[i])
  }

  lemma PlainJoin(ws: seq<string>)
    requires forall k :: 0 <= k < |ws| ==> IsPlain(ws[k])
    ensures IsPlain(Join(ws, " "))
  {
    if |ws| > 1 {
      PlainJoin(ws[1..]);
    }
  }

  /** Text that escapes to words joined by spaces gives those words as prefix terms. */
  lemma PrepareFtsQueryOfEscaped(query: string, ws: seq<string>)
    requires |ws| > 0
    requires forall k :: 0 <= k < |ws| ==> IsWord(ws[k])
    requires EscapeFts(query) == Join(ws, " ")
    ensures PrepareFtsQuery(query) == Join(Starred(ws), " ")
  {
    WordsOfJoin(ws);
  }

  /** Tokens free of quotes and reserved characters, joined by spaces, become prefix terms one for one. */
  lemma PrepareFtsQueryOfTokens(ws: seq<string>)
    requires |ws| > 0
    requires forall k :: 0 <= k < |ws| ==> IsWord(ws[k]) && IsPlain(ws[k])
    ensures PrepareFtsQuery(Join(ws, " ")) == Join(Starred(ws), " ")
  {
    PlainJoin(ws);
    EscapePlainText(Join(ws, " "));
    PrepareFtsQueryOfEscaped(Join(ws, " "), ws);
  }

  /** A reserved character between two plain texts becomes a space. */
  lemma EscapeReservedBetween(a: string, c: char, b: string)
    requires IsPlain(a) && IsPlain(b) && IsReserved(c)
    ensures EscapeFts(a + [c] + b) == a + " " + b
  {
    EscapeFtsAppend(a + [c], b);
    EscapeFtsAppend(a, [c]);
    EscapePlainText(a);
    EscapePlainText(b);
    EscapeFtsOneChar(c);
  }

  /** The words of the unit tests' queries are plain words. */
  lemma TestWordsArePlain()
    ensures IsWord("hello") && IsPlain("hello") && IsWord("world") && IsPlain("world")
    ensures IsWord("test") && IsPlain("test") && IsWord("query") && IsPlain("query")
  {
  }

  /** The unit test's single-word query. */
  lemma PrepareFtsQueryHello()
    ensures PrepareFtsQuery("hello") == "hello*"
  {
    TestWordsArePlain();
    TestQueriesSplit();
    SingleQuery("hello", "hello");
  }

  /** The unit test's empty query. */
  lemma PrepareFtsQueryEmptyString()
    ensures PrepareFtsQuery("") == ""
  {
    PrepareFtsQueryEmpty("");
  }

  /** The unit test's two-word query. */
  lemma PrepareFtsQueryHelloWorld()
    ensures PrepareFtsQuery("hello world") == "hello* world*"
  {
    TestWordsArePlain();
    TestQueriesSplit();
    SpacedQuery("hello world", "hello", "world");
  }

  /** The unit test's query with a `*` inside. */
  lemma PrepareFtsQueryTestStarQuery()
    ensures PrepareFtsQuery("test*query") == "test* query*"
  {
    TestWordsArePlain();
    TestQueriesSplit();
    SeparatedQuery("test*query", "test", '*', "query");
  }

  /** The unit test's query with a `:` inside. */
  lemma PrepareFtsQueryHelloColonWorld()
    ensures PrepareFtsQuery("hello:world") == "hello* world*"
  {
    TestWordsArePlain();
    TestQueriesSplit();
    SeparatedQuery("hello:world", "hello", ':', "world");
  }

  /** The unit tests' queries and expected results, as words and separators. */
  lemma TestQueriesSplit()
    ensures "hello world" == "hello" + " " + "world" && "hello* world*" == "hello" + "* " + "world" + "*"
    ensures "test*query" == "test" + ['*'] + "query" && "test* query*" == "test" + "* " + "query" + "*"
    ensures "hello:world" == "hello" + [':'] + "world" && "hello*" == "hello" + "*"
  {
  }

  /** A query that is one plain word becomes that word as a prefix term. */
  lemma SingleQuery(q: string, w: string)
    requires IsWord(w) && IsPlain(w) && q == w
    ensures PrepareFtsQuery(q) == w + "*"
  {
    PrepareFtsQueryOfTokens([w]);
    assert Starred([w]) == [w + "*"];
  }

  /** PrepareFtsQueryTwoWords for a query given whole. */
  lemma SpacedQuery(q: string, a: string, b: string)
    requires IsWord(a) && IsPlain(a) && IsWord(b) && IsPlain(b) && q == a + " " + b
    ensures PrepareFtsQuery(q) == a + "* " + b + "*"
  {
    PrepareFtsQueryTwoWords(a, b);
  }

  /** PrepareFtsQueryReservedSeparates for a query given whole. */
  lemma SeparatedQuery(q: string, a: string, c: char, b: string)
    requires IsWord(a) && IsPlain(a) && IsWord(b) && IsPlain(b) && IsReserved(c) && q == a + [c] + b
    ensures PrepareFtsQuery(q) == a + "* " + b + "*"
  {
    PrepareFtsQueryReservedSeparates(a, c, b);
  }

  /** Two plain words separated by a space, as in the unit test's `"hello world"`, become two prefix terms. */
  lemma PrepareFtsQueryTwoWords(a: string, b: string)
    requires IsWord(a) && IsPlain(a) && IsWord(b) && IsPlain(b)
    ensures PrepareFtsQuery(a + " " + b) == a + "* " + b + "*"
  {
    assert Join([a, b], " ") == a + " " + b;
    PrepareFtsQueryOfTokens([a, b]);
    assert Starred([a, b]) == [a + "*", b + "*"];
  }

  /**
   * A `*`, `^` or `:` between two plain words separates them like a space, as in the unit
   * tests' `"test*query"` and `"hello:world"`.
   */
  lemma PrepareFtsQueryReservedSeparates(a: string, c: char, b: string)
    requires IsWord(a) && IsPlain(a) && IsWord(b) && IsPlain(b) && IsReserved(c)
    ensures PrepareFtsQuery(a + [c] + b) == a + "* " + b + "*"
  {
    EscapeReservedBetween(a, c, b);
    assert Join([a, b], " ") == a + " " + b;
    PrepareFtsQueryOfEscaped(a + [c] + b, [a, b]);
    assert Starred([a, b]) == [a + "*", b + "*"];
  }

  // ---------------------------------------------------------------------------------------
  // Preview truncation (`truncate_preview`)
  // ---------------------------------------------------------------------------------------

  /** The number of bytes UTF-8 takes for a character. */
  function Utf8Width(c: char): (n: nat)
    ensures 1 <= n <= 4
    ensures c < '\U{80}' <==> n == 1
  {
    if c < '\U{80}' then 1 else if c < '\U{800}' then 2 else if c < '\U{10000}' then 3 else 4
  }

  /** `str::len`: the length of the UTF-8 encoding in bytes. */
  function ByteLen(s: string): nat {
    if s == [] then 0 else Utf8Width(s[0]) + ByteLen(s[1..])
  }

  lemma {:induction false} ByteLenAppend(a: string, b: string)
    ensures ByteLen(a + b) == ByteLen(a) + ByteLen(b)
    decreases |a|
  {
    if a == [] {
      assert a + b == b;
    } else {
      assert (a + b)[1..] == a[1..] + b;
      ByteLenAppend(a[1..], b);
    }
  }

  /** A string of `n` characters takes at least `n` bytes. */
  lemma {:induction false} ByteLenAtLeastLength(s: string)
    ensures |s| <= ByteLen(s)
    decreases |s|
  {
    if s != [] {
      ByteLenAtLeastLength(s[1..]);
    }
  }

  predicate IsAscii(s: string) {
    forall i :: 0 <= i < |s| ==> s[i] < '\U{80}'
  }

  /** ASCII text takes one byte per character. */
  lemma {:induction false} ByteLenAscii(s: string)
    requires IsAscii(s)
    ensures ByteLen(s) == |s|
    decreases |s|
  {
    if s != [] {
      ByteLenAscii(s[1..]);
    }
  }

  /** Longer prefixes take strictly more bytes. */
  lemma ByteLenPrefixGrows(s: string, i: nat, j: nat)
    requires i < j <= |s|
    ensures ByteLen(s[..i]) < ByteLen(s[..j])
  {
    assert s[..j] == s[..i] + s[i..j];
    ByteLenAppend(s[..i], s[i..j]);
    assert s[i..j][0] == s[i];
  }

  lemma ByteLenPrefixAtMost(s: string, i: nat, j: nat)
    requires i <= j <= |s|
    ensures ByteLen(s[..i]) <= ByteLen(s[..j])
  {
    if i < j {
      ByteLenPrefixGrows(s, i, j);
    }
  }

  /**
   * The number of characters whose encoding takes exactly `b` bytes from the start of `s`,
   * if `b` falls on a character boundary of `s` (`str::is_char_boundary`).
   */
  function CharsInBytes(s: string, b: nat): (r: Option<nat>)
    ensures r.Some? ==> r.value <= |s| && ByteLen(s[..r.value]) == b
    ensures r.None? ==> forall i :: 0 <= i <= |s| ==> ByteLen(s[..i]) != b
    decreases |s|
  {
    if b == 0 then
      assert s[..0] == [];
      Some(0)
    else if s == [] then
      assert forall i :: 0 <= i <= |s| ==> s[..i] == [];
      None
    else
      var w := Utf8Width(s[0]);
      assert forall i :: 1 <= i <= |s| ==> s[..i][0] == s[0] && s[..i][1..] == s[1..][..i - 1];
      assert s[..0] == [];
      if b < w then None
      else match CharsInBytes(s[1..], b - w)
        case None => None
        case Some(n) => Some(n + 1)
  }

  /** `str::rfind` of a character: the last index at which `c` occurs. */
  function LastIndexOf(s: string, c: char): (r: Option<nat>)
    ensures r.Some? ==> r.value < |s| && s[r.value] == c && forall i :: r.value < i < |s| ==> s[i] != c
    ensures r.None? <==> c !in s
  {
    if s == [] then None
    else if s[|s| - 1] == c then Some(|s| - 1)
    else LastIndexOf(s[..|s| - 1], c)
  }

  /**
   * `truncate_preview`: text of at most `maxLen` bytes is kept; longer text is cut at byte
   * `maxLen`, then back to its last space if it has one, and `...` is appended. Slicing at a
   * byte that falls inside a character panics; that outcome is None.
   */
  function TruncatePreview(text: string, maxLen: nat): Option<string> {
    if ByteLen(text) <= maxLen then Some(text)
    else match CharsInBytes(text, maxLen)
      case None => None
      case Some(n) =>
        var truncated := text[..n];
        var kept := match LastIndexOf(truncated, ' ')
          case Some(lastSpace) => truncated[..lastSpace]
          case None => truncated;
        Some(kept + "...")
  }

  /**
   * Text that fits is kept whole; the truncation panics exactly when the text is longer than
   * `maxLen` bytes and no prefix of it is `maxLen` bytes long; otherwise the preview is a
   * prefix of the text followed by `...`, at most 3 bytes over `maxLen`.
   */
  lemma TruncatePreviewSpec(text: string, maxLen: nat)
    ensures var r := TruncatePreview(text, maxLen);
      (ByteLen(text) <= maxLen ==> r == Some(text))
      && (r.None? <==> ByteLen(text) > maxLen && forall i :: 0 <= i <= |text| ==> ByteLen(text[..i]) != maxLen)
      && (r.Some? && ByteLen(text) > maxLen ==>
            var kept := |r.value| - 3;
            kept >= 0 && r.value[kept..] == "..." && kept <= |text| && r.value[..kept] == text[..kept]
            && ByteLen(r.value) <= maxLen + 3)
  {
    if ByteLen(text) > maxLen && CharsInBytes(text, maxLen).Some? {
      var n := CharsInBytes(text, maxLen).value;
      var truncated := text[..n];
      var kept := match LastIndexOf(truncated, ' ')
        case Some(lastSpace) => truncated[..lastSpace]
        case None => truncated;
      assert kept == text[..|kept|];
      ByteLenAppend(kept, "...");
      ByteLenPrefixAtMost(text, |kept|, n);
      assert (kept + "...")[..|kept|] == kept;
      assert TruncatePreview(text, maxLen) == Some(kept + "...");
    }
  }

  /**
   * When the cut falls on a character boundary, the kept text is the cut text up to its last
   * space, or the whole cut text when it has no space.
   */
  lemma TruncatePreviewBacksOff(text: string, maxLen: nat, n: nat)
    requires ByteLen(text) > maxLen
    requires n <= |text| && ByteLen(text[..n]) == maxLen
    ensures TruncatePreview(text, maxLen).Some?
    ensures var r := TruncatePreview(text, maxLen).value;
      var cut := text[..n];
      var kept := r[..|r| - 3];
      (' ' !in cut ==> kept == cut)
      && (' ' in cut ==> |kept| < n && cut[|kept|] == ' ' && forall i :: |kept| < i < n ==> cut[i] != ' ')
  {
    var m := CharsInBytes(text, maxLen).value;
    if m < n {
      ByteLenPrefixGrows(text, m, n);
    } else if n < m {
      ByteLenPrefixGrows(text, n, m);
    }
    var r := TruncatePreview(text, maxLen).value;
    assert r[..|r| - 3] == (match LastIndexOf(text[..n], ' ') case Some(k) => text[..n][..k] case None => text[..n]);
  }

  lemma AsciiAppend(a: string, b: string)
    requires IsAscii(a) && IsAscii(b)
    ensures IsAscii(a + b)
  {
  }

  /** The first unit test's preview: short text is kept whole. */
  lemma TruncatePreviewShort()
    ensures TruncatePreview("short", 100) == Some("short")
  {
    ByteLenAscii("short");
    TruncatePreviewSpec("short", 100);
  }

  /**
   * ASCII text whose byte `maxLen` is a space that is followed by more text loses that space and
   * everything after it, and gets `...` in their place; the second unit test's sentence, cut at
   * 20 bytes to `"this is a very long"` and `"..."`, is of this shape.
   */
  lemma TruncatePreviewAtSpace(kept: string, rest: string, maxLen: nat)
    requires IsAscii(kept) && |kept| + 1 == maxLen && rest != []
    ensures TruncatePreview(kept + " " + rest, maxLen) == Some(kept + "...")
  {
    var text := kept + " " + rest;
    var cut := kept + " ";
    assert text[..maxLen] == cut;
    AsciiAppend(kept, " ");
    ByteLenAscii(cut);
    ByteLenAppend(cut, rest);
    ByteLenAtLeastLength(rest);
    assert text == cut + rest;
    assert cut[|kept|] == ' ';
    TruncatePreviewBacksOff(text, maxLen, maxLen);
    var r := TruncatePreview(text, maxLen).value;
    var n := |r| - 3;
    assert n == |kept|;
    assert r[..n] == text[..n] == kept;
    assert r == r[..|r| - 3] + r[|r| - 3..];
  }

  /** The second unit test's preview: cut at 20 bytes, back to the last space, then `...`. */
  lemma TruncatePreviewLong()
    ensures TruncatePreview("this is a very long text that should be truncated", 20)
            == Some("this is a very long...")
  {
    LongTestSplit();
    LongTestAscii();
    TruncatePreviewAtSpace("this is a very long", "text that should be truncated", 20);
  }

  /** The kept words of the second unit test are ASCII. */
  lemma LongTestAscii()
    ensures IsAscii("this is a very long")
  {
  }

  /** The second unit test's text and expected preview, as the kept words, the space and the rest. */
  lemma LongTestSplit()
    ensures |"this is a very long"| + 1 == 20
    ensures "this is a very long text that should be truncated"
            == "this is a very long" + " " + "text that should be truncated"
    ensures "this is a very long..." == "this is a very long" + "..."
  {
  }

  // ---------------------------------------------------------------------------------------
  // Rows of the store and their conversion (`row_to_search_result`)
  // ---------------------------------------------------------------------------------------

  /** The number of bytes of a definition a preview keeps before `...`. */
  const PreviewMaxBytes: nat := 100

  /** A row of the three lookups: a word's id, the word, its part of speech and its first definition ("" if none). */
  datatype Row = Row(id: i64, word: string, pos: string, definition: string)

  /** Why a search fails: a lookup failed, or a preview's truncation panicked. */
  datatype SearchError = StoreFailure | PreviewPanic

  /** `row_to_search_result`: the row's id, word and part of speech with its definition truncated to a preview. */
  function RowToSearchResult(row: Row): Option<SearchResult> {
    match TruncatePreview(row.definition, PreviewMaxBytes)
    case None => None
    case Some(preview) => Some(NewSearchResult(row.id, row.word, row.pos, preview))
  }

  /**
   * A converted row keeps the row's id, word and part of speech and is scored 0; its preview
   * is the definition when that fits in 100 bytes, and at most 103 bytes otherwise. The
   * truncation panics, and the conversion fails, exactly when the definition is longer than
   * 100 bytes and byte 100 falls inside a character.
   */
  lemma RowToSearchResultSpec(row: Row)
    ensures var r := RowToSearchResult(row);
      (r.None? <==> ByteLen(row.definition) > PreviewMaxBytes
                    && forall i :: 0 <= i <= |row.definition| ==> ByteLen(row.definition[..i]) != PreviewMaxBytes)
      && (r.Some? ==> r.value.id == row.id && r.value.word == row.word && r.value.pos == row.pos)
      && (r.Some? ==> r.value.score == 0.0 && ByteLen(r.value.preview) <= PreviewMaxBytes + 3)
      && (ByteLen(row.definition) <= PreviewMaxBytes ==> r == Some(NewSearchResult(row.id, row.word, row.pos, row.definition)))
  {
    TruncatePreviewSpec(row.definition, PreviewMaxBytes);
  }

  /** What a search result built from a row looks like: scored 0, with a preview of at most 103 bytes. */
  predicate IsConverted(x: SearchResult) {
    x.score == 0.0 && ByteLen(x.preview) <= PreviewMaxBytes + 3
  }

  predicate AllConverted(rs: seq<SearchResult>) {
    forall k :: 0 <= k < |rs| ==> IsConverted(rs[k])
  }

  /**
   * Collecting a lookup's rows (`collect` of the mapped rows): one result per row, in order,
   * unless a conversion fails.
   */
  function ConvertRows(rows: seq<Row>): Result<seq<SearchResult>, SearchError> {
    if forall k :: 0 <= k < |rows| ==> RowToSearchResult(rows[k]).Some? then
      Ok(seq(|rows|, k requires 0 <= k < |rows| && RowToSearchResult(rows[k]).Some? => RowToSearchResult(rows[k]).value))
    else Err(PreviewPanic)
  }

  /** Collecting gives converted results, one per row and in the rows' order; it fails only by a panicking preview, and only with a row that panics. */
  lemma ConvertRowsSpec(rows: seq<Row>)
    ensures var r := ConvertRows(rows);
      (r.Ok? <==> forall k :: 0 <= k < |rows| ==> RowToSearchResult(rows[k]).Some?)
      && (r.Ok? ==> |r.value| == |rows| && forall k :: 0 <= k < |rows| ==> RowToSearchResult(rows[k]) == Some(r.value[k]))
      && (r.Ok? ==> AllConverted(r.value))
      && (r.Err? ==> r.error == PreviewPanic)
  {
    var r := ConvertRows(rows);
    if r.Ok? {
      forall k | 0 <= k < |rows| ensures IsConverted(r.value[k]) {
        RowToSearchResultSpec(rows[k]);
      }
    }
  }

  // ---------------------------------------------------------------------------------------
  // The store's lookups
  // ---------------------------------------------------------------------------------------

  /** What a lookup gives: its rows, or a failure of the store. */
  datatype Fetch = Fetched(rows: seq<Row>) | FetchFailed

  /**
   * The three lookups (`search_exact`, `search_prefix`, `search_fts`), each given a text and
   * the largest number of rows wanted: the words equal to the text, the words starting with it
   * (shortest first), and the full-text matches of a prepared query (best first).
   */
  datatype Store = Store(exact: (string, u32) -> Fetch, prefix: (string, u32) -> Fetch, fullText: (string, u32) -> Fetch)

  /** Every lookup returns at most as many rows as it is asked for (the `LIMIT` of each query). */
  ghost predicate HonoursLimit(store: Store) {
    forall text, n :: (store.exact(text, n).Fetched? ==> |store.exact(text, n).rows| <= n)
                   && (store.prefix(text, n).Fetched? ==> |store.prefix(text, n).rows| <= n)
                   && (store.fullText(text, n).Fetched? ==> |store.fullText(text, n).rows| <= n)
  }

  datatype Tier = Exact | Prefix | FullText

  /** One lookup made by a search: which tier, with which text, for how many rows. */
  datatype Request = Request(tier: Tier, text: string, count: u32)

  function Lookup(store: Store, req: Request): Fetch {
    match req.tier
    case Exact => store.exact(req.text, req.count)
    case Prefix => store.prefix(req.text, req.count)
    case FullText => store.fullText(req.text, req.count)
  }

  /** A lookup's answer (`search_exact` and its siblings): the converted rows, or the failure. */
  function Answer(store: Store, req: Request): Result<seq<SearchResult>, SearchError> {
    match Lookup(store, req)
    case FetchFailed => Err(StoreFailure)
    case Fetched(rows) => ConvertRows(rows)
  }

  // ---------------------------------------------------------------------------------------
  // Merging the tiers
  // ---------------------------------------------------------------------------------------

  predicate HasId(rs: seq<SearchResult>, id: int) {
    exists k :: 0 <= k < |rs| && rs[k].id == id
  }

  predicate DistinctIds(rs: seq<SearchResult>) {
    forall i, j :: 0 <= i < j < |rs| ==> rs[i].id != rs[j].id
  }

  /** The pushes of one later tier: each of its results whose id is not yet held is appended, in order. */
  function AppendNew(held: seq<SearchResult>, rows: seq<SearchResult>): seq<SearchResult>
    decreases |rows|
  {
    if rows == [] then held
    else
      var before := AppendNew(held, rows[..|rows| - 1]);
      var x := rows[|rows| - 1];
      if HasId(before, x.id) then before else before + [x]
  }

  /** The reference reading of the merge: of each id, the first result that has it, in order. */
  function Dedup(s: seq<SearchResult>): seq<SearchResult>
    decreases |s|
  {
    if s == [] then []
    else
      var x := s[|s| - 1];
      if HasId(s[..|s| - 1], x.id) then Dedup(s[..|s| - 1]) else Dedup(s[..|s| - 1]) + [x]
  }

  /** The tiers one after another. */
  function Flatten(tiers: seq<seq<SearchResult>>): seq<SearchResult>
    decreases |tiers|
  {
    if tiers == [] then [] else Flatten(tiers[..|tiers| - 1]) + tiers[|tiers| - 1]
  }

  /** The results held after the tiers: the first tier whole, each later one through `AppendNew`. */
  function Merged(tiers: seq<seq<SearchResult>>): seq<SearchResult>
    decreases |tiers|
  {
    if tiers == [] then []
    else if |tiers| == 1 then tiers[0]
    else AppendNew(Merged(tiers[..|tiers| - 1]), tiers[|tiers| - 1])
  }

  lemma HasIdAppend(a: seq<SearchResult>, b: seq<SearchResult>, id: int)
    ensures HasId(a + b, id) <==> HasId(a, id) || HasId(b, id)
  {
    if HasId(a + b, id) {
      var k :| 0 <= k < |a + b| && (a + b)[k].id == id;
      if k >= |a| {
        assert b[k - |a|].id == id;
      }
    }
    if HasId(b, id) {
      var k :| 0 <= k < |b| && b[k].id == id;
      assert (a + b)[|a| + k] == b[k];
    }
    if HasId(a, id) {
      var k :| 0 <= k < |a| && a[k].id == id;
      assert (a + b)[k] == a[k];
    }
  }

  /** The merge loses no id and invents none. */
  lemma {:induction false} DedupHasId(s: seq<SearchResult>, id: int)
    ensures HasId(Dedup(s), id) <==> HasId(s, id)
    decreases |s|
  {
    if s != [] {
      var p, x := s[..|s| - 1], s[|s| - 1];
      assert s == p + [x];
      DedupHasId(p, id);
      HasIdAppend(p, [x], id);
      HasIdAppend(Dedup(p), [x], id);
      assert HasId([x], id) <==> x.id == id by {
        if x.id == id { assert [x][0].id == id; }
      }
      if HasId(p, x.id) && x.id == id {
        assert HasId(p, id);
      }
    }
  }

  lemma DistinctAppend(a: seq<SearchResult>, x: SearchResult)
    requires DistinctIds(a) && !HasId(a, x.id)
    ensures DistinctIds(a + [x])
  {
    var s := a + [x];
    forall i, j | 0 <= i < j < |s| ensures s[i].id != s[j].id {
      if j == |a| {
        assert s[i] == a[i];
      } else {
        assert s[i] == a[i] && s[j] == a[j];
      }
    }
  }

  /** The merge keeps at most one result of each id. */
  lemma {:induction false} DedupDistinct(s: seq<SearchResult>)
    ensures DistinctIds(Dedup(s))
    decreases |s|
  {
    if s != [] {
      var p, x := s[..|s| - 1], s[|s| - 1];
      DedupDistinct(p);
      if !HasId(p, x.id) {
        DedupHasId(p, x.id);
        DistinctAppend(Dedup(p), x);
      }
    }
  }

  /** Results with distinct ids are merged to themselves. */
  lemma {:induction false} DedupOfDistinct(s: seq<SearchResult>)
    requires DistinctIds(s)
    ensures Dedup(s) == s
    decreases |s|
  {
    if s != [] {
      var p, x := s[..|s| - 1], s[|s| - 1];
      assert DistinctIds(p);
      DedupOfDistinct(p);
      forall k | 0 <= k < |p| ensures p[k].id != x.id {
        assert s[k] == p[k];
      }
      assert s == p + [x];
    }
  }

  /** Merging twice is merging once: merging the merged results with more is merging all of it. */
  lemma {:induction false} DedupAfterDedup(a: seq<SearchResult>, b: seq<SearchResult>)
    ensures Dedup(Dedup(a) + b) == Dedup(a + b)
    decreases |b|
  {
    if b == [] {
      assert Dedup(a) + b == Dedup(a) && a + b == a;
      DedupDistinct(a);
      DedupOfDistinct(Dedup(a));
    } else {
      var p, x := b[..|b| - 1], b[|b| - 1];
      assert (Dedup(a) + b)[..|Dedup(a) + b| - 1] == Dedup(a) + p;
      assert (a + b)[..|a + b| - 1] == a + p;
      DedupAfterDedup(a, p);
      HasIdAppend(Dedup(a), p, x.id);
      HasIdAppend(a, p, x.id);
      DedupHasId(a, x.id);
    }
  }

  /** Pushing a later tier onto distinct results is merging the two (the loop as the reference reads it). */
  lemma {:induction false} AppendNewIsDedup(held: seq<SearchResult>, rows: seq<SearchResult>)
    requires DistinctIds(held)
    ensures AppendNew(held, rows) == Dedup(held + rows)
    decreases |rows|
  {
    if rows == [] {
      assert held + rows == held;
      DedupOfDistinct(held);
    } else {
      var p, x := rows[..|rows| - 1], rows[|rows| - 1];
      assert (held + rows)[..|held + rows| - 1] == held + p;
      AppendNewIsDedup(held, p);
      DedupHasId(held + p, x.id);
    }
  }

  /** Pushing never disturbs what is held, and adds at most one result per row. */
  lemma {:induction false} AppendNewKeepsHeld(held: seq<SearchResult>, rows: seq<SearchResult>)
    ensures |held| <= |AppendNew(held, rows)| <= |held| + |rows|
    ensures AppendNew(held, rows)[..|held|] == held
    decreases |rows|
  {
    if rows != [] {
      AppendNewKeepsHeld(held, rows[..|rows| - 1]);
      var before := AppendNew(held, rows[..|rows| - 1]);
      assert (before + [rows[|rows| - 1]])[..|held|] == before[..|held|];
    }
  }

  lemma {:induction false} AppendNewConverted(held: seq<SearchResult>, rows: seq<SearchResult>)
    requires AllConverted(held) && AllConverted(rows)
    ensures AllConverted(AppendNew(held, rows))
    decreases |rows|
  {
    if rows != [] {
      assert AllConverted(rows[..|rows| - 1]);
      AppendNewConverted(held, rows[..|rows| - 1]);
    }
  }

  /** When the first tier has distinct ids, the held results are the merge of all the tiers. */
  lemma {:induction false} MergedIsDedup(tiers: seq<seq<SearchResult>>)
    requires |tiers| > 0 && DistinctIds(tiers[0])
    ensures Merged(tiers) == Dedup(Flatten(tiers))
    decreases |tiers|
  {
    if |tiers| == 1 {
      assert Flatten(tiers) == Flatten(tiers[..0]) + tiers[0];
      assert tiers[..0] == [];
      assert Flatten(tiers) == tiers[0];
      DedupOfDistinct(tiers[0]);
    } else {
      var p := tiers[..|tiers| - 1];
      assert p[0] == tiers[0];
      MergedIsDedup(p);
      DedupDistinct(Flatten(p));
      AppendNewIsDedup(Dedup(Flatten(p)), tiers[|tiers| - 1]);
      DedupAfterDedup(Flatten(p), tiers[|tiers| - 1]);
    }
  }

  // ---------------------------------------------------------------------------------------
  // The search (`search_words`)
  // ---------------------------------------------------------------------------------------

  /** Rust's `u32`, and `as u32` from a length, which keeps the low 32 bits. */
  type u32 = x: int | 0 <= x < 0x1_0000_0000

  function U32Cast(n: nat): (r: u32)
    ensures n < 0x1_0000_0000 ==> r == n
  {
    n % 0x1_0000_0000
  }

  /** How far a search got: its outcome, the lookups it made, and the results of each tier that answered. */
  datatype Run = Run(outcome: Result<seq<SearchResult>, SearchError>, requests: seq<Request>, tiers: seq<seq<SearchResult>>)

  /** A later tier: asked, for the remainder, only while fewer than `limit` results are held. */
  function NextTier(store: Store, run: Run, limit: u32, tier: Tier, text: string): Run {
    match run.outcome
    case Err(_) => run
    case Ok(held) =>
      if U32Cast(|held|) < limit then
        var req := Request(tier, text, limit - U32Cast(|held|));
        match Answer(store, req)
        case Err(e) => Run(Err(e), run.requests + [req], run.tiers)
        case Ok(rows) => Run(Ok(AppendNew(held, rows)), run.requests + [req], run.tiers + [rows])
      else run
  }

  /** The search as specified: a blank query finds nothing and makes no lookup; any other goes through the tiers trimmed. */
  function SearchRun(store: Store, query: string, limit: u32): Run {
    var q := Trim(query);
    if q == [] then Run(Ok([]), [], []) else TieredLookup(store, q, PrepareFtsQuery(q), limit)
  }

  /**
   * The tiers for a non-blank query `q`: exact, then prefix, then full-text with `ftsQuery`,
   * each later tier only while fewer than `limit` results are held.
   */
  function TieredLookup(store: Store, q: string, ftsQuery: string, limit: u32): Run {
    NextTier(store, NextTier(store, FirstTier(store, q, limit), limit, Prefix, q), limit, FullText, ftsQuery)
  }

  /** The exact tier: asked for `limit` rows, which are all kept. */
  function FirstTier(store: Store, q: string, limit: u32): Run {
    var first := Request(Exact, q, limit);
    match Answer(store, first)
    case Err(e) => Run(Err(e), [first], [])
    case Ok(rows) => Run(Ok(rows), [first], [rows])
  }

  /** The order of the tiers. */
  const TierOrder: seq<Tier> := [Exact, Prefix, FullText]

  /** A later tier either leaves the run as it is, because it failed or holds `limit` results, or asks for the remainder. */
  lemma NextTierShape(store: Store, run: Run, limit: u32, tier: Tier, text: string)
    ensures var next := NextTier(store, run, limit, tier, text);
      (next == run && (run.outcome.Err? || U32Cast(|run.outcome.value|) >= limit))
      || (run.outcome.Ok? && U32Cast(|run.outcome.value|) < limit
          && next.requests == run.requests + [Request(tier, text, limit - U32Cast(|run.outcome.value|))]
          && |run.tiers| <= |next.tiers| <= |run.tiers| + 1 && next.tiers[..|run.tiers|] == run.tiers)
  {
  }

  /** A blank query finds nothing and makes no lookup, and only a blank query makes none. */
  lemma SearchBlankQuery(store: Store, query: string, limit: u32)
    ensures IsBlank(query) <==> SearchRun(store, query, limit).requests == []
    ensures IsBlank(query) ==> SearchRun(store, query, limit).outcome == Ok([])
  {
    TrimEmptyIffBlank(query);
    var q := Trim(query);
    if q != [] {
      TieredRequestOrder(store, q, PrepareFtsQuery(q), limit);
    }
  }

  /**
   * The tiers make one to three lookups, at most one per tier and in tier order; the exact and
   * prefix lookups get the query, the full-text lookup the prepared query.
   */
  lemma TieredRequestOrder(store: Store, q: string, ftsQuery: string, limit: u32)
    ensures var run := TieredLookup(store, q, ftsQuery, limit);
      1 <= |run.requests| <= 3
      && (forall k :: 0 <= k < |run.requests| ==> run.requests[k].tier == TierOrder[k])
      && (forall k :: 0 <= k < |run.requests| ==> run.requests[k].text == if k < 2 then q else ftsQuery)
  {
    var afterExact := FirstTier(store, q, limit);
    NextTierShape(store, afterExact, limit, Prefix, q);
    var afterPrefix := NextTier(store, afterExact, limit, Prefix, q);
    NextTierShape(store, afterPrefix, limit, FullText, ftsQuery);
    if |afterPrefix.requests| == 1 {
      assert afterPrefix == afterExact;
    }
  }

  /**
   * The exact lookup asks for `limit` rows; a later lookup is made only while fewer than
   * `limit` results are held (counted with `as u32`), and asks for the difference.
   */
  lemma TieredRequestCounts(store: Store, q: string, ftsQuery: string, limit: u32)
    ensures var run := TieredLookup(store, q, ftsQuery, limit);
      run.requests[0].count == limit
      && forall k :: 1 <= k < |run.requests| ==>
           k <= |run.tiers| && U32Cast(|Merged(run.tiers[..k])|) < limit
           && run.requests[k].count == limit - U32Cast(|Merged(run.tiers[..k])|)
  {
    var run := TieredLookup(store, q, ftsQuery, limit);
    var afterExact := FirstTier(store, q, limit);
    NextTierShape(store, afterExact, limit, Prefix, q);
    var afterPrefix := NextTier(store, afterExact, limit, Prefix, q);
    NextTierShape(store, afterPrefix, limit, FullText, ftsQuery);
    AnsweredByFirst(store, q, limit);
    forall k | 1 <= k < |run.requests|
      ensures k <= |run.tiers| && U32Cast(|Merged(run.tiers[..k])|) < limit
              && run.requests[k].count == limit - U32Cast(|Merged(run.tiers[..k])|)
    {
      assert afterExact.outcome.Ok? && |afterExact.tiers| == 1;
      assert |afterPrefix.requests| == 2;
      if k == 1 {
        assert run.requests[1] == afterPrefix.requests[1];
        assert run.tiers[..1] == afterExact.tiers;
      } else {
        AnsweredByStep(store, afterExact, limit, Prefix, q);
        assert |afterPrefix.tiers| == 2;
        assert run.tiers[..2] == afterPrefix.tiers;
      }
    }
  }

  /** A run that succeeds without reaching the full-text tier stopped because `limit` results were held. */
  lemma TieredStopsAtLimit(store: Store, q: string, ftsQuery: string, limit: u32)
    ensures var run := TieredLookup(store, q, ftsQuery, limit);
      run.outcome.Ok? && |run.requests| < 3 ==> U32Cast(|run.outcome.value|) >= limit
  {
    var afterExact := FirstTier(store, q, limit);
    NextTierShape(store, afterExact, limit, Prefix, q);
    var afterPrefix := NextTier(store, afterExact, limit, Prefix, q);
    NextTierShape(store, afterPrefix, limit, FullText, ftsQuery);
  }

  /** The tiers of a run are the answers of its lookups, and what it holds is their merge. */
  predicate AnsweredBy(store: Store, run: Run) {
    (forall k :: 0 <= k < |run.tiers| ==> k < |run.requests| && Answer(store, run.requests[k]) == Ok(run.tiers[k]))
    && (run.outcome.Ok? ==> |run.tiers| == |run.requests| && run.outcome.value == Merged(run.tiers))
    && (run.outcome.Err? ==> |run.requests| == |run.tiers| + 1 && Answer(store, run.requests[|run.tiers|]) == run.outcome)
  }

  lemma AnsweredByFirst(store: Store, q: string, limit: u32)
    ensures AnsweredBy(store, FirstTier(store, q, limit))
  {
  }

  lemma AnsweredByStep(store: Store, run: Run, limit: u32, tier: Tier, text: string)
    requires AnsweredBy(store, run) && run.tiers != []
    ensures AnsweredBy(store, NextTier(store, run, limit, tier, text))
  {
    var next := NextTier(store, run, limit, tier, text);
    if next.tiers != run.tiers {
      assert next.tiers[..|run.tiers|] == run.tiers;
      assert next.tiers[|run.tiers|] == Answer(store, next.requests[|run.tiers|]).value;
    }
  }

  /**
   * The lookups that answered are the tiers: a run that succeeds holds the merge of all its
   * lookups' results; one that fails failed at its last lookup, with that lookup's error.
   */
  lemma TieredAnswers(store: Store, q: string, ftsQuery: string, limit: u32)
    ensures AnsweredBy(store, TieredLookup(store, q, ftsQuery, limit))
  {
    var afterExact := FirstTier(store, q, limit);
    AnsweredByFirst(store, q, limit);
    if afterExact.outcome.Ok? {
      AnsweredByStep(store, afterExact, limit, Prefix, q);
      var afterPrefix := NextTier(store, afterExact, limit, Prefix, q);
      if afterPrefix.outcome.Ok? {
        NextTierShape(store, afterExact, limit, Prefix, q);
        AnsweredByStep(store, afterPrefix, limit, FullText, ftsQuery);
      }
    }
  }

  lemma LookupHonoursLimit(store: Store, req: Request)
    requires HonoursLimit(store)
    ensures Lookup(store, req).Fetched? ==> |Lookup(store, req).rows| <= req.count
  {
    match req.tier
    case Exact => assert store.exact(req.text, req.count).Fetched? ==> |store.exact(req.text, req.count).rows| <= req.count;
    case Prefix => assert store.prefix(req.text, req.count).Fetched? ==> |store.prefix(req.text, req.count).rows| <= req.count;
    case FullText => assert store.fullText(req.text, req.count).Fetched? ==> |store.fullText(req.text, req.count).rows| <= req.count;
  }

  /** An answer has one result per row of the lookup. */
  lemma AnswerLength(store: Store, req: Request)
    ensures Answer(store, req).Ok? ==> |Answer(store, req).value| == |Lookup(store, req).rows|
  {
    if Lookup(store, req).Fetched? {
      ConvertRowsSpec(Lookup(store, req).rows);
    }
  }

  lemma BoundedStep(store: Store, run: Run, limit: u32, tier: Tier, text: string)
    requires HonoursLimit(store)
    requires run.outcome.Ok? ==> |run.outcome.value| <= limit
    ensures NextTier(store, run, limit, tier, text).outcome.Ok? ==> |NextTier(store, run, limit, tier, text).outcome.value| <= limit
  {
    if run.outcome.Ok? && |run.outcome.value| < limit {
      var held := run.outcome.value;
      var req := Request(tier, text, limit - |held|);
      LookupHonoursLimit(store, req);
      AnswerLength(store, req);
      if Answer(store, req).Ok? {
        AppendNewKeepsHeld(held, Answer(store, req).value);
      }
    }
  }

  /** When every lookup honours its row count, the tiers hold at most `limit` results. */
  lemma TieredBounded(store: Store, q: string, ftsQuery: string, limit: u32)
    requires HonoursLimit(store)
    ensures var run := TieredLookup(store, q, ftsQuery, limit);
      run.outcome.Ok? ==> |run.outcome.value| <= limit
  {
    var first := Request(Exact, q, limit);
    LookupHonoursLimit(store, first);
    AnswerLength(store, first);
    var afterExact := FirstTier(store, q, limit);
    BoundedStep(store, afterExact, limit, Prefix, q);
    BoundedStep(store, NextTier(store, afterExact, limit, Prefix, q), limit, FullText, ftsQuery);
  }

  lemma {:induction false} MergedKeepsFirst(tiers: seq<seq<SearchResult>>)
    requires tiers != []
    ensures |tiers[0]| <= |Merged(tiers)| && Merged(tiers)[..|tiers[0]|] == tiers[0]
    decreases |tiers|
  {
    if |tiers| > 1 {
      var p := tiers[..|tiers| - 1];
      assert p[0] == tiers[0];
      MergedKeepsFirst(p);
      AppendNewKeepsHeld(Merged(p), tiers[|tiers| - 1]);
    }
  }

  /**
   * The exact matches come first, all of them and in the store's order. When they have
   * distinct ids, the results are exactly the first result of each id across the tiers in
   * order: no id twice, and no id of any tier lost.
   */
  lemma TieredOrder(store: Store, q: string, ftsQuery: string, limit: u32)
    ensures var run := TieredLookup(store, q, ftsQuery, limit);
      run.outcome.Ok? ==>
        |run.tiers[0]| <= |run.outcome.value| && run.outcome.value[..|run.tiers[0]|] == run.tiers[0]
    ensures var run := TieredLookup(store, q, ftsQuery, limit);
      run.outcome.Ok? && DistinctIds(run.tiers[0]) ==>
        run.outcome.value == Dedup(Flatten(run.tiers)) && DistinctIds(run.outcome.value)
        && forall id :: HasId(run.outcome.value, id) <==> HasId(Flatten(run.tiers), id)
  {
    var run := TieredLookup(store, q, ftsQuery, limit);
    TieredAnswers(store, q, ftsQuery, limit);
    TieredRequestOrder(store, q, ftsQuery, limit);
    if run.outcome.Ok? {
      MergedKeepsFirst(run.tiers);
      if DistinctIds(run.tiers[0]) {
        MergedIsDedup(run.tiers);
        DedupDistinct(Flatten(run.tiers));
        forall id ensures HasId(run.outcome.value, id) <==> HasId(Flatten(run.tiers), id) {
          DedupHasId(Flatten(run.tiers), id);
        }
      }
    }
  }

  /** An answer's results were built from rows. */
  lemma AnswerConverted(store: Store, req: Request)
    ensures Answer(store, req).Ok? ==> AllConverted(Answer(store, req).value)
  {
    if Lookup(store, req).Fetched? {
      ConvertRowsSpec(Lookup(store, req).rows);
    }
  }

  lemma ConvertedStep(store: Store, run: Run, limit: u32, tier: Tier, text: string)
    requires run.outcome.Ok? ==> AllConverted(run.outcome.value)
    ensures NextTier(store, run, limit, tier, text).outcome.Ok? ==> AllConverted(NextTier(store, run, limit, tier, text).outcome.value)
  {
    if run.outcome.Ok? && U32Cast(|run.outcome.value|) < limit {
      var req := Request(tier, text, limit - U32Cast(|run.outcome.value|));
      AnswerConverted(store, req);
      var next := NextTier(store, run, limit, tier, text);
      match Answer(store, req)
      case Ok(rows) =>
        AppendNewConverted(run.outcome.value, rows);
        assert next.outcome == Ok(AppendNew(run.outcome.value, rows));
      case Err(e) =>
        assert next.outcome == Err(e);
    }
  }

  /** Every result the tiers hold was built from a row: scored 0, with a preview of at most 103 bytes. */
  lemma TieredConverted(store: Store, q: string, ftsQuery: string, limit: u32)
    ensures var run := TieredLookup(store, q, ftsQuery, limit);
      run.outcome.Ok? ==> AllConverted(run.outcome.value)
  {
    AnswerConverted(store, Request(Exact, q, limit));
    var afterExact := FirstTier(store, q, limit);
    ConvertedStep(store, afterExact, limit, Prefix, q);
    ConvertedStep(store, NextTier(store, afterExact, limit, Prefix, q), limit, FullText, ftsQuery);
  }

  /** `results.iter().any(|r| r.id == id)`. */
  method ContainsId(results: seq<SearchResult>, id: i64) returns (found: bool)
    ensures found <==> HasId(results, id)
  {
    found := false;
    var k := 0;
    while k < |results| && !found
      invariant 0 <= k <= |results|
      invariant found ==> HasId(results, id)
      invariant !found ==> forall j :: 0 <= j < k ==> results[j].id != id
    {
      found := results[k].id == id;
      k := k + 1;
    }
  }

  /** The push loop of a later tier. */
  method PushNew(results: seq<SearchResult>, rows: seq<SearchResult>) returns (merged: seq<SearchResult>)
    ensures merged == AppendNew(results, rows)
  {
    merged := results;
    for i := 0 to |rows|
      invariant merged == AppendNew(results, rows[..i])
    {
      assert rows[..i + 1][..i] == rows[..i];
      var present := ContainsId(merged, rows[i].id);
      if !present {
        merged := merged + [rows[i]];
      }
    }
    assert rows[..|rows|] == rows;
  }

  /**
   * `search_words`; `requests` records the lookups it makes.
   */
  method SearchWords(store: Store, query: string, limit: u32) returns (outcome: Result<seq<SearchResult>, SearchError>, ghost requests: seq<Request>)
    ensures outcome == SearchRun(store, query, limit).outcome
    ensures requests == SearchRun(store, query, limit).requests
  {
    var q := Trim(query);
    if q == [] {
      return Ok([]), [];
    }
    var ftsQuery := PrepareFtsQuery(q);
    var results := [];

    var first := Request(Exact, q, limit);
    requests := [first];
    var exact := Answer(store, first);
    ghost var run := FirstTier(store, q, limit);
    if exact.Err? {
      SkipAfterError(store, run, limit, Prefix, q);
      SkipAfterError(store, NextTier(store, run, limit, Prefix, q), limit, FullText, ftsQuery);
      return Err(exact.error), requests;
    }
    results := results + exact.value;
    assert results == exact.value;

    outcome, requests := LaterTier(store, run, results, limit, Prefix, q);
    run := NextTier(store, run, limit, Prefix, q);
    if outcome.Err? {
      SkipAfterError(store, run, limit, FullText, ftsQuery);
      return outcome, requests;
    }
    outcome, requests := LaterTier(store, run, outcome.value, limit, FullText, ftsQuery);
  }

  /**
   * One later tier of `search_words`: while fewer than `limit` results are held, look up the
   * remainder and push the results whose ids are new.
   */
  method LaterTier(store: Store, ghost run: Run, results: seq<SearchResult>, limit: u32, tier: Tier, text: string)
    returns (outcome: Result<seq<SearchResult>, SearchError>, ghost requests: seq<Request>)
    requires run.outcome == Ok(results)
    ensures outcome == NextTier(store, run, limit, tier, text).outcome
    ensures requests == NextTier(store, run, limit, tier, text).requests
  {
    requests := run.requests;
    if U32Cast(|results|) < limit {
      var remaining := limit - U32Cast(|results|);
      var req := Request(tier, text, remaining);
      requests := requests + [req];
      var found := Answer(store, req);
      if found.Err? {
        return Err(found.error), requests;
      }
      var merged := PushNew(results, found.value);
      return Ok(merged), requests;
    }
    return Ok(results), requests;
  }

  /** A failed search makes no further lookup. */
  lemma SkipAfterError(store: Store, run: Run, limit: u32, tier: Tier, text: string)
    requires run.outcome.Err?
    ensures NextTier(store, run, limit, tier, text) == run
  {
  }

  // ---------------------------------------------------------------------------------------
  // The placeholder edit distance (`levenshtein_distance`, unused)
  // ---------------------------------------------------------------------------------------

  /** As written, a placeholder: 0 for equal strings and 1 for any two different ones. */
  function LevenshteinDistance(a: string, b: string): (d: nat)
    ensures d == 0 <==> a == b
    ensures d <= 1
  {
    if a == b then 0 else 1
  }
}
