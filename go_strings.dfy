/**
 * The few functions of Go's `strings` package that common/helper/str.go relies on,
 * stated over strings of code points: TrimSpace, TrimLeft, Index, Split, HasPrefix,
 * EqualFold and Replace with a one-character pattern. Each is given the meaning the
 * Go documentation gives it, so that the helpers built on top can be reasoned about.
 */
module GoStrings {

  /** unicode.IsSpace: the code points that strings.TrimSpace strips from both ends. */
  predicate IsSpace(c: char) {
    c == '\t' || c == '\n' || c == '\U{0B}' || c == '\U{0C}' || c == '\r' || c == ' ' ||
    c == '\U{85}' || c == '\U{A0}' || c == '\U{1680}' || ('\U{2000}' <= c <= '\U{200A}') ||
    c == '\U{2028}' || c == '\U{2029}' || c == '\U{202F}' || c == '\U{205F}' || c == '\U{3000}'
  }

  /** Length of the longest prefix of `s` whose characters all satisfy `p`. */
  function LeadingRun(s: string, p: char -> bool): (k: nat)
    ensures k <= |s|
    ensures forall i :: 0 <= i < k ==> p(s[i])
    ensures k < |s| ==> !p(s[k])
  {
    if |s| == 0 || !p(s[0]) then 0 else 1 + LeadingRun(s[1..], p)
  }

  /** Length of the longest suffix of `s` whose characters all satisfy `p`. */
  function TrailingRun(s: string, p: char -> bool): (k: nat)
    ensures k <= |s|
    ensures forall i :: |s| - k <= i < |s| ==> p(s[i])
    ensures k < |s| ==> !p(s[|s| - k - 1])
  {
    if |s| == 0 || !p(s[|s| - 1]) then 0 else 1 + TrailingRun(s[..|s| - 1], p)
  }

  /** strings.TrimLeft: drop the leading characters that belong to the SET `cutset`. */
  function TrimLeft(s: string, cutset: string): (r: string)
    ensures |r| <= |s| && r == s[|s| - |r|..]
    ensures forall i :: 0 <= i < |s| - |r| ==> s[i] in cutset
    ensures |r| > 0 ==> r[0] !in cutset
  {
    s[LeadingRun(s, c => c in cutset)..]
  }

  /** strings.TrimSpace: drop leading and trailing white space (see TrimSpaceSpec). */
  function TrimSpace(s: string): string {
    var lead := LeadingRun(s, IsSpace);
    var rest := s[lead..];
    rest[..|rest| - TrailingRun(rest, IsSpace)]
  }

  /** TrimSpace keeps the slice of `s` between its maximal leading and trailing runs of
      white space: what is dropped is white space, and the result neither starts nor
      ends with it. */
  lemma TrimSpaceSpec(s: string)
    ensures var r := TrimSpace(s);
            var lead := LeadingRun(s, IsSpace);
            && lead + |r| <= |s|
            && r == s[lead..lead + |r|]
            && (forall i :: 0 <= i < lead ==> IsSpace(s[i]))
            && (forall i :: lead + |r| <= i < |s| ==> IsSpace(s[i]))
            && (|r| > 0 ==> !IsSpace(r[0]) && !IsSpace(r[|r| - 1]))
  {
    var lead := LeadingRun(s, IsSpace);
    var rest := s[lead..];
    var t := TrailingRun(rest, IsSpace);
    var r := rest[..|rest| - t];
    assert r == TrimSpace(s);
    assert r == s[lead..lead + |r|];
    forall i | lead + |r| <= i < |s| ensures IsSpace(s[i]) {
      assert s[i] == rest[i - lead];
    }
    if |r| > 0 {
      assert r[0] == s[lead];
      assert r[|r| - 1] == rest[|rest| - t - 1];
    }
  }

  /** strings.HasPrefix. */
  predicate HasPrefix(s: string, prefix: string) {
    |prefix| <= |s| && s[..|prefix|] == prefix
  }

  /** `sub` occurs in `text` starting at position i. */
  predicate OccursAt(text: string, sub: string, i: int) {
    0 <= i && i + |sub| <= |text| && text[i..i + |sub|] == sub
  }

  ghost predicate Contains(text: string, sub: string) {
    exists i :: OccursAt(text, sub, i)
  }

  /** First occurrence of `sub` in `text` at or after `from`, or -1. */
  function IndexFrom(text: string, sub: string, from: nat): (r: int)
    requires from <= |text|
    ensures r == -1 || (from <= r && OccursAt(text, sub, r))
    ensures forall j :: from <= j && (r == -1 || j < r) ==> !OccursAt(text, sub, j)
    decreases |text| - from
  {
    if from + |sub| > |text| then -1
    else if text[from..from + |sub|] == sub then from
    else IndexFrom(text, sub, from + 1)
  }

  /** strings.Index: the first position of `sub` in `text`, -1 when it does not occur. */
  function Index(text: string, sub: string): (r: int)
    ensures r == -1 <==> !Contains(text, sub)
    ensures r != -1 ==> OccursAt(text, sub, r) && forall j :: 0 <= j < r ==> !OccursAt(text, sub, j)
  {
    IndexFrom(text, sub, 0)
  }

  /** The pieces joined back together with one `sep` between neighbours (strings.Join). */
  function Join(pieces: seq<string>, sep: char): string {
    if |pieces| == 0 then ""
    else if |pieces| == 1 then pieces[0]
    else pieces[0] + [sep] + Join(pieces[1..], sep)
  }

  /** strings.Split with a one-character separator: never empty, no piece holds `sep`,
      and joining the pieces gives the input back. */
  function Split(s: string, sep: char): (pieces: seq<string>)
    ensures |pieces| >= 1
    ensures forall i :: 0 <= i < |pieces| ==> sep !in pieces[i]
    ensures Join(pieces, sep) == s
  {
    if |s| == 0 then [""]
    else
      var rest := Split(s[1..], sep);
      if s[0] == sep then
        [""] + rest
      else
        assert rest == [rest[0]] + rest[1..];
        assert [s[0]] + s[1..] == s;
        [[s[0]] + rest[0]] + rest[1..]
  }

  /** Splitting a string without the separator gives that string alone. */
  lemma {:induction false} SplitWithoutSep(s: string, sep: char)
    requires sep !in s
    ensures Split(s, sep) == [s]
  {
    if |s| > 0 {
      SplitWithoutSep(s[1..], sep);
      assert [s[0]] + s[1..] == s;
    }
  }

  /** Split undoes Join when no piece holds the separator. */
  lemma {:induction false} SplitJoin(pieces: seq<string>, sep: char)
    requires |pieces| >= 1
    requires forall i :: 0 <= i < |pieces| ==> sep !in pieces[i]
    ensures Split(Join(pieces, sep), sep) == pieces
    decreases |pieces|, |pieces[0]|
  {
    var p := pieces[0];
    if |pieces| == 1 {
      SplitWithoutSep(p, sep);
    } else if |p| == 0 {
      var tail := Join(pieces[1..], sep);
      assert Join(pieces, sep) == [sep] + tail;
      assert ([sep] + tail)[1..] == tail;
      SplitJoin(pieces[1..], sep);
      assert pieces == [""] + pieces[1..];
    } else {
      var shorter := [p[1..]] + pieces[1..];
      assert shorter[1..] == pieces[1..];
      assert forall i :: 0 <= i < |shorter| ==> sep !in shorter[i] by {
        forall i | 0 <= i < |shorter| ensures sep !in shorter[i] {
          if i == 0 {
            assert p == [p[0]] + p[1..];
          } else {
            assert shorter[i] == pieces[i];
          }
        }
      }
      SplitJoin(shorter, sep);
      var j := Join(pieces, sep);
      assert j == [p[0]] + Join(shorter, sep) by {
        assert p == [p[0]] + p[1..];
      }
      assert j[0] == p[0] && j[1..] == Join(shorter, sep);
      assert p[0] != sep by { assert p[0] in p; }
      assert [p[0]] + p[1..] == p;
    }
  }

  /** strings.Replace(s, [target], replacement, -1): every occurrence of the one-character
      string `target` is replaced by `replacement`, left to right. */
  function ReplaceAll(s: string, target: char, replacement: string): (r: string)
    ensures |replacement| >= 1 ==> |r| >= |s|
  {
    if |s| == 0 then ""
    else (if s[0] == target then replacement else [s[0]]) + ReplaceAll(s[1..], target, replacement)
  }

  /** Replacing in a concatenation replaces in each part. */
  lemma {:induction false} ReplaceAllAppend(a: string, b: string, target: char, replacement: string)
    ensures ReplaceAll(a + b, target, replacement) == ReplaceAll(a, target, replacement) + ReplaceAll(b, target, replacement)
  {
    if |a| > 0 {
      assert (a + b)[1..] == a[1..] + b;
      ReplaceAllAppend(a[1..], b, target, replacement);
    } else {
      assert a + b == b;
    }
  }

  function LowerAscii(c: char): char {
    if 'A' <= c <= 'Z' then (c as int + 32) as char else c
  }

  /** strings.EqualFold restricted to ASCII case folding. */
  predicate EqualFoldAscii(a: string, b: string) {
    |a| == |b| && forall i :: 0 <= i < |a| ==> LowerAscii(a[i]) == LowerAscii(b[i])
  }

}
