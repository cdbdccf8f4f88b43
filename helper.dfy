/**
 * The string helpers of common/helper/str.go: random letter strings, the URL string of
 * an HTTP request, the rewrite of a host rule into a regular expression, wildcard
 * matching, and the filter that drops comment lines from a configuration file.
 * The Go standard library functions they call are modelled in GoStrings; random
 * numbers, the file system, net/http and regexp.Compile are inputs or left out.
 */
module Helper {
  import opened Wrappers
  import opened GoStrings

  // ---------------------------------------------------------------------------
  // RandAsciiString
  // ---------------------------------------------------------------------------

  /** The 52-letter alphabet RandAsciiString draws from: "a".."z" then "A".."Z". */
  const LetterRunes: string :=
    seq(26, i requires 0 <= i < 26 => ('a' as int + i) as char) +
    seq(26, i requires 0 <= i < 26 => ('A' as int + i) as char)

  predicate IsAsciiLetter(c: char) {
    ('a' <= c <= 'z') || ('A' <= c <= 'Z')
  }

  lemma LetterRunesAreLetters(k: nat)
    requires k < |LetterRunes|
    ensures IsAsciiLetter(LetterRunes[k])
  {
    assert LetterRunes[k] == if k < 26 then ('a' as int + k) as char else ('A' as int + k - 26) as char;
  }

  /**
   * RandAsciiString(n): a string of n letters. `draws` are the values rand.Intn(52)
   * returned, one per position, so each lies in [0, 52).
   */
  method RandAsciiString(n: nat, draws: seq<nat>) returns (s: string)
    requires |draws| == n
    requires forall i :: 0 <= i < n ==> draws[i] < |LetterRunes|
    ensures |s| == n
    ensures forall i :: 0 <= i < n ==> s[i] == LetterRunes[draws[i]]
    ensures forall i :: 0 <= i < n ==> IsAsciiLetter(s[i])
  {
    var b := new char[n];
    for i := 0 to n
      invariant forall j :: 0 <= j < i ==> b[j] == LetterRunes[draws[j]]
    {
      b[i] := LetterRunes[draws[i]];
    }
    s := b[..];
    forall i | 0 <= i < n ensures IsAsciiLetter(s[i]) {
      LetterRunesAreLetters(draws[i]);
    }
  }

  // ---------------------------------------------------------------------------
  // GetRequestURLString
  // ---------------------------------------------------------------------------

  /** The parts of an http.Request the function reads; `url` is req.URL.String(). */
  datatype Request = Request(httpMethod: string, host: string, scheme: string, path: string, url: string)

  /** A CONNECT request whose URL has neither scheme nor path (a proxy tunnel). */
  predicate IsTunnel(r: Request) {
    |r.scheme| == 0 && EqualFoldAscii(r.httpMethod, "Connect") && |r.path| == 0
  }

  predicate IsAbsoluteHttp(s: string) {
    HasPrefix(s, "http://") || HasPrefix(s, "https://")
  }

  /** GetRequestURLString: the request's URL as an absolute http(s) string where it can. */
  function GetRequestURLString(req: Option<Request>): (r: string)
    ensures req.None? <==> |r| == 0
  {
    match req
    case None => ""
    case Some(r) =>
      var str := if IsTunnel(r) then "https://" + r.host else r.url;
      if !IsAbsoluteHttp(str) then
        (if |r.scheme| == 0 then "http" else r.scheme) + "://" + r.host + str
      else
        str
  }

  lemma GetRequestURLNil()
    ensures GetRequestURLString(None) == ""
  {
  }

  /** A CONNECT tunnel request gives "https://" followed by the host. */
  lemma GetRequestURLTunnel(r: Request)
    requires IsTunnel(r)
    ensures GetRequestURLString(Some(r)) == "https://" + r.host
  {
    assert HasPrefix("https://" + r.host, "https://");
  }

  /** Any other request keeps an absolute http(s) URL string as it is. */
  lemma GetRequestURLAbsolute(r: Request)
    requires !IsTunnel(r) && IsAbsoluteHttp(r.url)
    ensures GetRequestURLString(Some(r)) == r.url
  {
  }

  /** Any other request prefixes a relative URL string with scheme, "://" and host. */
  lemma GetRequestURLRelative(r: Request)
    requires !IsTunnel(r) && !IsAbsoluteHttp(r.url)
    ensures GetRequestURLString(Some(r)) == (if |r.scheme| == 0 then "http" else r.scheme) + "://" + r.host + r.url
  {
  }

  /** When the URL names no scheme, the result is always an absolute http or https URL. */
  lemma GetRequestURLNoScheme(r: Request)
    requires |r.scheme| == 0
    ensures IsAbsoluteHttp(GetRequestURLString(Some(r)))
  {
    var res := GetRequestURLString(Some(r));
    if IsTunnel(r) {
      GetRequestURLTunnel(r);
      assert res[..|"https://"|] == "https://";
    } else if !IsAbsoluteHttp(r.url) {
      assert res == "http://" + (r.host + r.url);
      assert res[..|"http://"|] == "http://";
    }
  }

  // ---------------------------------------------------------------------------
  // PrepareRegexp (the rewrite before regexp.Compile)
  // ---------------------------------------------------------------------------

  /** The rule string PrepareRegexp hands to regexp.Compile. */
  function PrepareRegexpRule(rule: string, onlyStar: bool): (r: string)
    ensures |r| >= |TrimSpace(rule)|
  {
    var trimmed := TrimSpace(rule);
    var dotsEscaped := ReplaceAll(trimmed, '.', "\\.");
    var questionsEscaped := if !onlyStar then ReplaceAll(dotsEscaped, '?', "\\?") else dotsEscaped;
    ReplaceAll(questionsEscaped, '*', ".*")
  }

  /** What one character of the trimmed rule becomes in the regular expression. */
  function RuleChar(c: char, onlyStar: bool): string {
    if c == '.' then "\\."
    else if c == '?' && !onlyStar then "\\?"
    else if c == '*' then ".*"
    else [c]
  }

  /** The rule rewritten character by character with RuleChar. */
  function EscapeRule(s: string, onlyStar: bool): string {
    if |s| == 0 then "" else RuleChar(s[0], onlyStar) + EscapeRule(s[1..], onlyStar)
  }

  lemma {:induction false} RewriteIsPerChar(s: string, onlyStar: bool)
    ensures var d := ReplaceAll(s, '.', "\\.");
            var q := if !onlyStar then ReplaceAll(d, '?', "\\?") else d;
            ReplaceAll(q, '*', ".*") == EscapeRule(s, onlyStar)
  {
    if |s| > 0 {
      RewriteIsPerChar(s[1..], onlyStar);
      var c := s[0];
      var head := if c == '.' then "\\." else [c];
      var d := ReplaceAll(s, '.', "\\.");
      assert d == head + ReplaceAll(s[1..], '.', "\\.");
      var d1 := ReplaceAll(s[1..], '.', "\\.");
      ReplaceAllAppend(head, d1, '?', "\\?");
      var headQ := if !onlyStar then ReplaceAll(head, '?', "\\?") else head;
      var q1 := if !onlyStar then ReplaceAll(d1, '?', "\\?") else d1;
      ReplaceAllAppend(headQ, q1, '*', ".*");
      EscapedCharRewrite(c, onlyStar);
    }
  }

  /** The '?' and '*' passes applied to what the '.' pass made of one character give
      that character's rewrite. */
  lemma EscapedCharRewrite(c: char, onlyStar: bool)
    ensures var head := if c == '.' then "\\." else [c];
            var headQ := if !onlyStar then ReplaceAll(head, '?', "\\?") else head;
            ReplaceAll(headQ, '*', ".*") == RuleChar(c, onlyStar)
  {
    var head := if c == '.' then "\\." else [c];
    var headQ := if !onlyStar then ReplaceAll(head, '?', "\\?") else head;
    if c == '.' {
      assert head == ['\\'] + ['.'];
      assert ReplaceAll(head, '?', "\\?") == head by {
        ReplaceAllAppend(['\\'], ['.'], '?', "\\?");
      }
      ReplaceAllAppend(['\\'], ['.'], '*', ".*");
    } else if c == '?' && !onlyStar {
      assert head == ['?'] && head[1..] == [];
      assert headQ == "\\?" + ReplaceAll([], '?', "\\?");
      assert headQ == ['\\'] + ['?'];
      ReplaceAllAppend(['\\'], ['?'], '*', ".*");
    }
  }

  /**
   * The rewrite PrepareRegexp performs: trim white space, then escape every '.' of the
   * rule, escape every '?' unless only_star is set, and turn every '*' into ".*" (whose
   * dot is not escaped, since the dots are escaped first).
   */
  lemma PrepareRegexpRewrite(rule: string, onlyStar: bool)
    ensures PrepareRegexpRule(rule, onlyStar) == EscapeRule(TrimSpace(rule), onlyStar)
  {
    RewriteIsPerChar(TrimSpace(rule), onlyStar);
  }

  /** The reference rewrite maps a concatenation part by part. */
  lemma {:induction false} EscapeRuleAppend(a: string, b: string, onlyStar: bool)
    ensures EscapeRule(a + b, onlyStar) == EscapeRule(a, onlyStar) + EscapeRule(b, onlyStar)
  {
    if |a| > 0 {
      assert (a + b)[1..] == a[1..] + b;
      EscapeRuleAppend(a[1..], b, onlyStar);
    } else {
      assert a + b == b;
    }
  }

  /** With only_star set a rule without '.' and '*' passes through unchanged, '?' included. */
  lemma {:induction false} OnlyStarKeepsPlainRule(s: string)
    requires forall i :: 0 <= i < |s| ==> s[i] != '.' && s[i] != '*'
    ensures EscapeRule(s, true) == s
  {
    if |s| > 0 {
      OnlyStarKeepsPlainRule(s[1..]);
      assert [s[0]] + s[1..] == s;
    }
  }

  // ---------------------------------------------------------------------------
  // WildcardMatch
  // ---------------------------------------------------------------------------

  /** The loop of WildcardMatch over the '*'-separated pieces (cards) of the pattern. */
  function MatchCards(text: string, cards: seq<string>): (r: bool)
    ensures |cards| == 0 ==> r
    ensures |cards| > 0 && r ==> Contains(text, cards[0])
    decreases |cards|
  {
    if |cards| == 0 then true
    else if Index(text, cards[0]) == -1 then false
    else MatchCards(TrimLeft(text, cards[0] + "*"), cards[1..])
  }

  /** WildcardMatch: every piece is searched in what the previous pieces left of the text. */
  method WildcardMatch(text: string, pattern: string) returns (matched: bool)
    ensures matched == MatchCards(text, Split(pattern, '*'))
  {
    var cards := Split(pattern, '*');
    var rest := text;
    for i := 0 to |cards|
      invariant MatchCards(text, cards) == MatchCards(rest, cards[i..])
    {
      assert cards[i..][1..] == cards[i + 1..];
      var idx := Index(rest, cards[i]);
      if idx == -1 {
        return false;
      }
      rest := TrimLeft(rest, cards[i] + "*");
    }
    return true;
  }

  /** The text the i-th piece is searched in. */
  function Remaining(text: string, cards: seq<string>, i: nat): string
    requires i <= |cards|
    decreases i
  {
    if i == 0 then text else Remaining(TrimLeft(text, cards[0] + "*"), cards[1..], i - 1)
  }

  /** Each remaining text is the previous one with its leading characters from the SET
      piece + "*" stripped; so it is a suffix of the previous one. */
  lemma {:induction false} RemainingStep(text: string, cards: seq<string>, i: nat)
    requires i < |cards|
    ensures Remaining(text, cards, i + 1) == TrimLeft(Remaining(text, cards, i), cards[i] + "*")
    decreases i
  {
    if i > 0 {
      RemainingStep(TrimLeft(text, cards[0] + "*"), cards[1..], i - 1);
    }
  }

  /** WildcardMatch is false exactly when some piece is missing from its remaining text. */
  lemma {:induction false} MatchCardsAllFound(text: string, cards: seq<string>)
    ensures MatchCards(text, cards) <==> forall i :: 0 <= i < |cards| ==> Contains(Remaining(text, cards, i), cards[i])
    decreases |cards|
  {
    if |cards| > 0 {
      var next := TrimLeft(text, cards[0] + "*");
      MatchCardsAllFound(next, cards[1..]);
      forall i | 1 <= i < |cards|
        ensures Remaining(text, cards, i) == Remaining(next, cards[1..], i - 1)
        ensures cards[i] == cards[1..][i - 1]
      {
      }
      if MatchCards(text, cards) {
        forall i | 0 <= i < |cards| ensures Contains(Remaining(text, cards, i), cards[i]) {
          if i > 0 {
            assert Contains(Remaining(next, cards[1..], i - 1), cards[1..][i - 1]);
          }
        }
      }
      if forall i :: 0 <= i < |cards| ==> Contains(Remaining(text, cards, i), cards[i]) {
        assert Contains(Remaining(text, cards, 0), cards[0]);
        forall i | 0 <= i < |cards| - 1 ensures Contains(Remaining(next, cards[1..], i), cards[1..][i]) {
          assert Contains(Remaining(text, cards, i + 1), cards[i + 1]);
        }
      }
    }
  }

  /** A pattern without '*' matches exactly the texts that contain it; the empty
      pattern matches every text. */
  lemma WildcardWithoutStar(text: string, pattern: string)
    requires '*' !in pattern
    ensures MatchCards(text, Split(pattern, '*')) <==> Contains(text, pattern)
  {
    SplitWithoutSep(pattern, '*');
    assert Split(pattern, '*')[1..] == [];
  }

  lemma EmptyPatternMatchesAll(text: string)
    ensures MatchCards(text, Split("", '*'))
  {
    WildcardWithoutStar(text, "");
    assert OccursAt(text, "", 0);
  }

  /** The pieces occur in `text` one after another, without overlapping, in pattern order. */
  ghost predicate InOrder(text: string, cards: seq<string>)
    decreases |cards|
  {
    |cards| == 0 ||
    exists i :: OccursAt(text, cards[0], i) && InOrder(text[i + |cards[0]|..], cards[1..])
  }

  lemma SplitTwoPieces(first: char, second: string)
    requires first != '*' && '*' !in second
    ensures Split([first, '*'] + second, '*') == [[first], second]
  {
    SplitWithoutSep(second, '*');
    var s := [first, '*'] + second;
    assert s[1..] == ['*'] + second && (['*'] + second)[1..] == second;
    assert [first] + "" == [first];
  }

  /**
   * As written, the pieces need not appear in order: TrimLeft strips leading
   * characters from the SET piece + "*" rather than the text up to and including the
   * match. So "a*b" matches "ba", where "b" does not follow "a".
   */
  lemma WildcardIgnoresOrder()
    ensures MatchCards("ba", Split("a*b", '*')) && !InOrder("ba", Split("a*b", '*'))
  {
    SplitTwoPieces('a', "b");
    assert ['a', '*'] + "b" == "a*b";
    assert OccursAt("ba", "a", 1) && !OccursAt("ba", "a", 0);
    assert Index("ba", "a") == 1;
    assert TrimLeft("ba", "a" + "*") == "ba";
    assert OccursAt("ba", "b", 0);
    forall i | OccursAt("ba", "a", i) ensures !InOrder("ba"[i + 1..], ["b"]) {
      assert i == 1 && "ba"[2..] == "";
    }
  }

  /** As written, a later piece may be cut away: "a*ab" does not match "aab" although
      "aab" is "a" followed by "ab", because stripping the set {'a','*'} leaves "b". */
  lemma WildcardLosesMatch()
    ensures !MatchCards("aab", Split("a*ab", '*')) && InOrder("aab", Split("a*ab", '*'))
  {
    SplitTwoPieces('a', "ab");
    assert ['a', '*'] + "ab" == "a*ab";
    assert OccursAt("aab", "a", 0);
    assert TrimLeft("aab", "a" + "*") == "b";
    assert !OccursAt("b", "ab", 0);
    assert "aab"[1..] == "ab" && OccursAt("ab", "ab", 0) && "ab"[2..] == [];
    assert InOrder("ab", ["ab"]);
  }

  /** The corrected loop: after finding a piece, carry on with the text after that occurrence. */
  function OrderedCards(text: string, cards: seq<string>): bool
    decreases |cards|
  {
    if |cards| == 0 then true
    else
      var idx := Index(text, cards[0]);
      if idx == -1 then false else OrderedCards(text[idx + |cards[0]|..], cards[1..])
  }

  /** Pieces found in order in a suffix are found in order in the whole text. */
  lemma InOrderSuffix(text: string, k: nat, cards: seq<string>)
    requires k <= |text| && InOrder(text[k..], cards)
    ensures InOrder(text, cards)
  {
    if |cards| > 0 {
      var j :| OccursAt(text[k..], cards[0], j) && InOrder(text[k..][j + |cards[0]|..], cards[1..]);
      assert text[k..][j..j + |cards[0]|] == text[k + j..k + j + |cards[0]|];
      assert text[k..][j + |cards[0]|..] == text[k + j + |cards[0]|..];
      assert OccursAt(text, cards[0], k + j);
    }
  }

  /** When the pieces occur in order, they also do from the first occurrence of the
      first piece on. */
  lemma FirstOccurrenceSuffices(text: string, cards: seq<string>)
    requires |cards| > 0 && InOrder(text, cards)
    ensures Index(text, cards[0]) != -1
    ensures InOrder(text[Index(text, cards[0]) + |cards[0]|..], cards[1..])
  {
    var c := cards[0];
    var i :| OccursAt(text, c, i) && InOrder(text[i + |c|..], cards[1..]);
    var idx := Index(text, c);
    assert idx != -1 && idx <= i;
    var rest := text[idx + |c|..];
    assert text[i + |c|..] == rest[i - idx..];
    InOrderSuffix(rest, i - idx, cards[1..]);
  }

  /** The corrected WildcardMatch succeeds exactly when the pieces occur in order:
      taking the first occurrence of each piece never loses a match. */
  lemma {:induction false} OrderedCardsIffInOrder(text: string, cards: seq<string>)
    ensures OrderedCards(text, cards) <==> InOrder(text, cards)
    decreases |cards|
  {
    if |cards| > 0 {
      var c := cards[0];
      var idx := Index(text, c);
      if idx != -1 {
        var rest := text[idx + |c|..];
        OrderedCardsIffInOrder(rest, cards[1..]);
        if OrderedCards(text, cards) {
          assert OccursAt(text, c, idx) && InOrder(rest, cards[1..]);
        }
        if InOrder(text, cards) {
          FirstOccurrenceSuffices(text, cards);
        }
      } else if InOrder(text, cards) {
        FirstOccurrenceSuffices(text, cards);
      }
    }
  }

  /** WildcardMatch with the corrected loop. */
  method OrderedWildcardMatch(text: string, pattern: string) returns (matched: bool)
    ensures matched <==> InOrder(text, Split(pattern, '*'))
  {
    var cards := Split(pattern, '*');
    var rest := text;
    for i := 0 to |cards|
      invariant OrderedCards(text, cards) == OrderedCards(rest, cards[i..])
    {
      assert cards[i..][1..] == cards[i + 1..];
      var idx := Index(rest, cards[i]);
      if idx == -1 {
        OrderedCardsIffInOrder(text, cards);
        return false;
      }
      rest := rest[idx + |cards[i]|..];
    }
    OrderedCardsIffInOrder(text, cards);
    return true;
  }

  // ---------------------------------------------------------------------------
  // ReadWithoutComment
  // ---------------------------------------------------------------------------

  /** What one scanned line contributes: itself trimmed, unless it starts with the prefix. */
  function KeepLine(line: string, commentPrefix: string): (k: seq<string>)
    ensures |k| <= 1
    ensures forall i :: 0 <= i < |k| ==> !HasPrefix(k[i], commentPrefix)
  {
    var trimmed := TrimSpace(line);
    if !HasPrefix(trimmed, commentPrefix) then [trimmed] else []
  }

  /** The lines of the file that are kept: trimmed, and not starting with the prefix. */
  function KeptLines(lines: seq<string>, commentPrefix: string): (kept: seq<string>)
    ensures |kept| <= |lines|
  {
    if |lines| == 0 then []
    else KeepLine(lines[0], commentPrefix) + KeptLines(lines[1..], commentPrefix)
  }

  /** No more lines are kept than read, and no kept line starts with the comment prefix. */
  lemma {:induction false} KeptLinesNoComment(lines: seq<string>, commentPrefix: string)
    ensures var kept := KeptLines(lines, commentPrefix);
            && |kept| <= |lines|
            && forall i :: 0 <= i < |kept| ==> !HasPrefix(kept[i], commentPrefix)
  {
    if |lines| > 0 {
      KeptLinesNoComment(lines[1..], commentPrefix);
    }
  }

  /** The lines, each followed by one "\n". */
  function JoinLines(lines: seq<string>): (r: string)
    ensures |r| >= |lines|
  {
    if |lines| == 0 then "" else lines[0] + "\n" + JoinLines(lines[1..])
  }

  datatype ReadResult = Contents(data: string) | OpenFailed

  /**
   * ReadWithoutComment: `file` is the sequence of lines bufio.Scanner yields, or None
   * when os.Open fails.
   */
  method ReadWithoutComment(file: Option<seq<string>>, commentPrefix: string) returns (r: ReadResult)
    ensures file.None? ==> r == OpenFailed
    ensures file.Some? ==> r == Contents(JoinLines(KeptLines(file.value, commentPrefix)))
  {
    if file.None? {
      return OpenFailed;
    }
    var total := FilterComments(file.value, commentPrefix);
    return Contents(total);
  }

  /** The scanner loop of ReadWithoutComment, appending each kept line and a "\n". */
  method FilterComments(lines: seq<string>, commentPrefix: string) returns (total: string)
    ensures total == JoinLines(KeptLines(lines, commentPrefix))
  {
    total := "";
    for i := 0 to |lines|
      invariant total == JoinLines(KeptLines(lines[..i], commentPrefix))
    {
      FilterCommentsStep(lines, i, commentPrefix, total);
      var line := TrimSpace(lines[i]);
      if !HasPrefix(line, commentPrefix) {
        total := total + line + "\n";
      }
    }
    assert lines[..|lines|] == lines;
  }

  /** One turn of the scanner loop keeps its invariant: the output so far is the
      output for the lines scanned so far. */
  lemma FilterCommentsStep(lines: seq<string>, i: nat, commentPrefix: string, total: string)
    requires i < |lines| && total == JoinLines(KeptLines(lines[..i], commentPrefix))
    ensures var line := TrimSpace(lines[i]);
            (if !HasPrefix(line, commentPrefix) then total + line + "\n" else total)
            == JoinLines(KeptLines(lines[..i + 1], commentPrefix))
  {
    var line := TrimSpace(lines[i]);
    var kept := KeptLines(lines[..i], commentPrefix);
    KeptLinesSnoc(lines, i, commentPrefix);
    if !HasPrefix(line, commentPrefix) {
      assert KeptLines(lines[..i + 1], commentPrefix) == kept + [line];
      JoinLinesAppend(kept, [line]);
      assert JoinLines([line]) == line + "\n" + "";
      assert total + (line + "\n" + "") == total + line + "\n";
    } else {
      assert kept + [] == kept;
    }
  }

  /** Scanning one more line adds what KeepLine makes of it. */
  lemma KeptLinesSnoc(lines: seq<string>, i: nat, commentPrefix: string)
    requires i < |lines|
    ensures KeptLines(lines[..i + 1], commentPrefix) == KeptLines(lines[..i], commentPrefix) + KeepLine(lines[i], commentPrefix)
  {
    assert lines[..i + 1] == lines[..i] + [lines[i]];
    KeptLinesAppend(lines[..i], [lines[i]], commentPrefix);
    assert KeptLines([lines[i]], commentPrefix) == KeepLine(lines[i], commentPrefix) + [];
  }


  /** The output of a concatenation of line sequences is the concatenation of the outputs. */
  lemma {:induction false} JoinLinesAppend(a: seq<string>, b: seq<string>)
    ensures JoinLines(a + b) == JoinLines(a) + JoinLines(b)
  {
    if |a| > 0 {
      assert (a + b)[1..] == a[1..] + b;
      JoinLinesAppend(a[1..], b);
    } else {
      assert a + b == b;
    }
  }

  /** With an empty comment prefix every line counts as a comment. */
  lemma {:induction false} EmptyPrefixKeepsNothing(lines: seq<string>)
    ensures JoinLines(KeptLines(lines, "")) == ""
  {
    if |lines| > 0 {
      EmptyPrefixKeepsNothing(lines[1..]);
    }
  }

  /** A line is kept exactly when it is the trimmed form of some input line and does
      not start with the comment prefix. */
  lemma {:induction false} KeptLinesMembers(lines: seq<string>, commentPrefix: string, x: string)
    ensures x in KeptLines(lines, commentPrefix) <==>
            exists i :: 0 <= i < |lines| && x == TrimSpace(lines[i]) && !HasPrefix(x, commentPrefix)
  {
    if |lines| > 0 {
      KeptLinesMembers(lines[1..], commentPrefix, x);
      if exists i :: 0 <= i < |lines| && x == TrimSpace(lines[i]) && !HasPrefix(x, commentPrefix) {
        var i :| 0 <= i < |lines| && x == TrimSpace(lines[i]) && !HasPrefix(x, commentPrefix);
        if i > 0 {
          assert lines[1..][i - 1] == lines[i];
        }
      }
      if exists i :: 0 <= i < |lines| - 1 && x == TrimSpace(lines[1..][i]) && !HasPrefix(x, commentPrefix) {
        var i :| 0 <= i < |lines| - 1 && x == TrimSpace(lines[1..][i]) && !HasPrefix(x, commentPrefix);
        assert lines[1..][i] == lines[i + 1];
      }
    }
  }

  /** Filtering a concatenation filters each part: kept lines stay in file order. */
  lemma {:induction false} KeptLinesAppend(a: seq<string>, b: seq<string>, commentPrefix: string)
    ensures KeptLines(a + b, commentPrefix) == KeptLines(a, commentPrefix) + KeptLines(b, commentPrefix)
  {
    if |a| > 0 {
      assert (a + b)[1..] == a[1..] + b;
      KeptLinesAppend(a[1..], b, commentPrefix);
    } else {
      assert a + b == b;
    }
  }

  /** Joining with a trailing newline is Join over the lines plus one empty last piece. */
  lemma {:induction false} JoinLinesIsJoin(lines: seq<string>)
    ensures JoinLines(lines) == Join(lines + [""], '\n')
  {
    if |lines| > 0 {
      JoinLinesIsJoin(lines[1..]);
      assert (lines + [""])[1..] == lines[1..] + [""];
    }
  }

  /** The output splits at "\n" back into exactly the kept lines (and an empty tail),
      provided no input line holds a line break, as bufio.Scanner guarantees. */
  lemma ReadWithoutCommentLines(lines: seq<string>, commentPrefix: string)
    requires forall i :: 0 <= i < |lines| ==> '\n' !in lines[i]
    ensures Split(JoinLines(KeptLines(lines, commentPrefix)), '\n') == KeptLines(lines, commentPrefix) + [""]
  {
    var kept := KeptLines(lines, commentPrefix);
    KeptLinesNoBreak(lines, commentPrefix);
    JoinLinesIsJoin(kept);
    SplitJoin(kept + [""], '\n');
  }

  lemma {:induction false} KeptLinesNoBreak(lines: seq<string>, commentPrefix: string)
    requires forall i :: 0 <= i < |lines| ==> '\n' !in lines[i]
    ensures forall i :: 0 <= i < |KeptLines(lines, commentPrefix)| ==> '\n' !in KeptLines(lines, commentPrefix)[i]
  {
    if |lines| > 0 {
      KeptLinesNoBreak(lines[1..], commentPrefix);
      var line := TrimSpace(lines[0]);
      TrimSpaceSpec(lines[0]);
      assert '\n' !in line by {
        var lead := LeadingRun(lines[0], IsSpace);
        assert line == lines[0][lead..lead + |line|];
        forall k | 0 <= k < |line| ensures line[k] != '\n' {
          assert line[k] == lines[0][lead + k];
        }
      }
    }
  }
}
