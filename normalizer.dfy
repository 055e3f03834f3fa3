/**
 * `getTextFromMarkdown`: a fixed chain of global regular-expression
 * replacements by the empty string. Every pattern of the chain starts with a
 * literal and has no look-behind, so "replace every match" is modelled as a
 * left-to-right scan: where a match starts, the matched text is dropped and
 * the scan resumes after it; elsewhere one character is kept.
 */
module Normalizer {
  import opened Wrappers

  /** `a` can be obtained from `b` by deleting characters. */
  predicate IsSubseq(a: string, b: string)
    decreases |b|
  {
    a == [] || (b != [] && ((a[0] == b[0] && IsSubseq(a[1..], b[1..])) || IsSubseq(a, b[1..])))
  }

  lemma {:induction false} SubseqRefl(a: string)
    ensures IsSubseq(a, a)
  {
    if a != [] {
      SubseqRefl(a[1..]);
    }
  }

  /** Deleting is never longer than the text it deletes from. */
  lemma {:induction false} SubseqLength(a: string, b: string)
    requires IsSubseq(a, b)
    ensures |a| <= |b|
    decreases |b|
  {
    if a != [] {
      if a[0] == b[0] && IsSubseq(a[1..], b[1..]) {
        SubseqLength(a[1..], b[1..]);
      } else {
        SubseqLength(a, b[1..]);
      }
    }
  }

  /** Two deletions in a row are one deletion. */
  lemma {:induction false} SubseqTrans(a: string, b: string, c: string)
    requires IsSubseq(a, b) && IsSubseq(b, c)
    ensures IsSubseq(a, c)
    decreases |c|
  {
    if a != [] {
      if IsSubseq(b, c[1..]) {
        SubseqTrans(a, b, c[1..]);
      } else if IsSubseq(a, b[1..]) {
        SubseqTrans(a, b[1..], c[1..]);
      } else {
        SubseqTrans(a[1..], b[1..], c[1..]);
      }
    }
  }

  /** Whatever is a deletion of a suffix of `s` is a deletion of `s`. */
  lemma {:induction false} SubseqOfSuffix(a: string, s: string, k: nat)
    requires k <= |s| && IsSubseq(a, s[k..])
    ensures IsSubseq(a, s)
    decreases k
  {
    if k > 0 {
      assert s[k..] == s[k - 1..][1..];
      SubseqOfSuffix(a, s, k - 1);
    }
  }

  /** Keeping the first character and deleting from the rest is a deletion. */
  lemma SubseqKeepHead(a: string, s: string)
    requires s != [] && IsSubseq(a, s[1..])
    ensures IsSubseq([s[0]] + a, s)
  {
    assert ([s[0]] + a)[1..] == a;
  }

  /** The characters JavaScript's `.` refuses to match. */
  predicate IsLineTerminator(c: char) {
    c == '\n' || c == '\r' || c == '\U{2028}' || c == '\U{2029}'
  }

  /** `close` occurs in `s` at index `k`. */
  predicate OccursAt(s: string, k: nat, close: string) {
    k + |close| <= |s| && s[k..k + |close|] == close
  }

  /**
   * The lazy tail `[\s\S]+?close` (when `anyChar`) or `.+?close` (when not),
   * tried from index `from` on, after the one character `+` demands: the
   * first index where `close` occurs, provided the characters skipped on the
   * way may be matched.
   */
  function FindClose(s: string, from: nat, close: string, anyChar: bool): (r: Option<nat>)
    decreases |s| - from
    ensures r.Some? ==> from <= r.value && OccursAt(s, r.value, close)
    ensures r.Some? ==> forall k: nat :: from <= k < r.value ==> !OccursAt(s, k, close)
    ensures r.Some? && !anyChar ==> forall k :: from <= k < r.value ==> !IsLineTerminator(s[k])
    ensures r.None? && anyChar ==> forall k: nat :: from <= k ==> !OccursAt(s, k, close)
  {
    if from + |close| > |s| then None
    else if OccursAt(s, from, close) then Some(from)
    else if !anyChar && IsLineTerminator(s[from]) then None
    else FindClose(s, from + 1, close, anyChar)
  }

  /**
   * The end of the match of `open[\s\S]+?close` (or `open.+?close`) that
   * starts at index 0 of `s`, if there is one.
   */
  function RegionAt(s: string, open: string, close: string, anyChar: bool): (r: Option<nat>)
    ensures r.Some? ==> |open| < r.value <= |s| && s[..|open|] == open
  {
    if |s| > |open| && s[..|open|] == open && (anyChar || !IsLineTerminator(s[|open|])) then
      match FindClose(s, |open| + 1, close, anyChar)
      case Some(j) => Some(j + |close|)
      case None => None
    else None
  }

  /** `s.replace(/open[\s\S]+?close/g, '')`, or with `.` when `!anyChar`. */
  function StripRegions(s: string, open: string, close: string, anyChar: bool): (r: string)
    decreases |s|
    ensures IsSubseq(r, s)
  {
    if s == [] then ""
    else
      match RegionAt(s, open, close, anyChar)
      case Some(end) =>
        var rest := StripRegions(s[end..], open, close, anyChar);
        SubseqOfSuffix(rest, s, end);
        rest
      case None =>
        var rest := StripRegions(s[1..], open, close, anyChar);
        SubseqKeepHead(rest, s);
        [s[0]] + rest
  }

  /** The index of the first line terminator of `s`, or `|s|`. */
  function LineEnd(s: string): (k: nat)
    ensures k <= |s|
    ensures k < |s| ==> IsLineTerminator(s[k])
    ensures forall i :: 0 <= i < k ==> !IsLineTerminator(s[i])
  {
    if s == [] || IsLineTerminator(s[0]) then 0 else 1 + LineEnd(s[1..])
  }

  /** A line that `^\|.*\|$` matches whole: it starts and ends with a pipe. */
  predicate IsTableRow(line: string) {
    |line| >= 2 && line[0] == '|' && line[|line| - 1] == '|'
  }

  /** What the table-row replacement leaves of one line. */
  function LineText(line: string): (r: string)
    ensures IsSubseq(r, line)
    ensures r == "" || r == line
  {
    SubseqRefl(line);
    if IsTableRow(line) then "" else line
  }

  /**
   * `s.replace(/^\|.*\|$/gm, '')`: every line (a maximal run without a line
   * terminator) that is a table row is emptied, the terminators stay.
   */
  function StripTableRows(s: string): (r: string)
    decreases |s|
    ensures IsSubseq(r, s)
  {
    var k := LineEnd(s);
    if k == |s| then
      assert s[..k] == s;
      LineText(s)
    else
      var rest := StripTableRows(s[k + 1..]);
      LineThenRest(s, k, LineText(s[..k]), rest);
      LineText(s[..k]) + ([s[k]] + rest)
  }

  /** A deletion from one line, its terminator, and a deletion from the lines after it. */
  lemma LineThenRest(s: string, k: nat, line: string, rest: string)
    requires k < |s| && IsSubseq(line, s[..k]) && IsSubseq(rest, s[k + 1..])
    ensures IsSubseq(line + ([s[k]] + rest), s)
  {
    assert s[k..][1..] == s[k + 1..];
    SubseqKeepHead(rest, s[k..]);
    SubseqAppend(line, s[..k], [s[k]] + rest, s[k..]);
    assert s == s[..k] + s[k..];
  }

  /** Deleting from the two halves of a text deletes from the whole. */
  lemma {:induction false} SubseqAppend(a: string, b: string, c: string, d: string)
    requires IsSubseq(a, b) && IsSubseq(c, d)
    ensures IsSubseq(a + c, b + d)
    decreases |b|
  {
    if b == [] {
      assert a == [];
      assert a + c == c && b + d == d;
    } else if a != [] && a[0] == b[0] && IsSubseq(a[1..], b[1..]) {
      SubseqAppend(a[1..], b[1..], c, d);
      assert (a + c)[1..] == a[1..] + c;
      assert (b + d)[1..] == b[1..] + d;
    } else {
      SubseqAppend(a, b[1..], c, d);
      assert (b + d)[1..] == b[1..] + d;
    }
  }

  /** The greedy `[^ ]+`: the index of the first space at or after `from`, or `|s|`. */
  function SpaceFrom(s: string, from: nat): (k: nat)
    requires from <= |s|
    decreases |s| - from
    ensures from <= k <= |s|
    ensures k < |s| ==> s[k] == ' '
    ensures forall i :: from <= i < k ==> s[i] != ' '
  {
    if from == |s| || s[from] == ' ' then from else SpaceFrom(s, from + 1)
  }

  /** The end of the match of `http[^ ]+` that starts at index 0 of `s`, if any. */
  function UrlAt(s: string): (r: Option<nat>)
    ensures r.Some? ==> 4 < r.value <= |s| && s[..4] == "http"
    ensures r.Some? ==> forall i :: 4 <= i < r.value ==> s[i] != ' '
    ensures r.Some? ==> r.value == |s| || s[r.value] == ' '
  {
    if |s| > 4 && s[..4] == "http" && s[4] != ' ' then Some(SpaceFrom(s, 5)) else None
  }

  /** `s.replace(/http[^ ]+/g, '')`. */
  function StripUrls(s: string): (r: string)
    decreases |s|
    ensures IsSubseq(r, s)
  {
    if s == [] then ""
    else
      match UrlAt(s)
      case Some(end) =>
        var rest := StripUrls(s[end..]);
        SubseqOfSuffix(rest, s, end);
        rest
      case None =>
        var rest := StripUrls(s[1..]);
        SubseqKeepHead(rest, s);
        [s[0]] + rest
  }

  /** The character class of the last replacement: `# ! ( ) * _ [ ] | = > + \` : -`. */
  predicate IsMarkupChar(c: char) {
    c in {'#', '!', '(', ')', '*', '_', '[', ']', '|', '=', '>', '+', '`', ':', '-'}
  }

  /** How many characters of `s` belong to that class. */
  function CountMarkup(s: string): (n: nat)
    ensures n <= |s|
    decreases |s|
  {
    if s == [] then 0 else (if IsMarkupChar(s[0]) then 1 else 0) + CountMarkup(s[1..])
  }

  /** `s.replace(/[\#\!\(\)\*\_\[\]\|\=\>\+\`\:\-]/g, '')`. */
  function StripMarkupChars(s: string): (r: string)
    decreases |s|
    ensures IsSubseq(r, s)
    ensures forall i :: 0 <= i < |r| ==> !IsMarkupChar(r[i])
    ensures forall i :: 0 <= i < |s| && !IsMarkupChar(s[i]) ==> s[i] in r
  {
    if s == [] then ""
    else
      var rest := StripMarkupChars(s[1..]);
      if IsMarkupChar(s[0]) then
        SubseqOfSuffix(rest, s, 1);
        assert forall i :: 1 <= i < |s| ==> s[i] == s[1..][i - 1];
        rest
      else
        SubseqKeepHead(rest, s);
        assert forall i :: 1 <= i < |s| ==> s[i] == s[1..][i - 1];
        [s[0]] + rest
  }

  /** The filter removes exactly the class characters: one fewer character for each. */
  lemma {:induction false} StripMarkupCharsLength(s: string)
    ensures |StripMarkupChars(s)| == |s| - CountMarkup(s)
    decreases |s|
  {
    if s != [] {
      StripMarkupCharsLength(s[1..]);
    }
  }

  /** A deletion from `s` that keeps no class character keeps at most the others. */
  lemma {:induction false} MarkupFreeSubseqBound(r: string, s: string)
    requires IsSubseq(r, s) && forall i :: 0 <= i < |r| ==> !IsMarkupChar(r[i])
    ensures |r| <= |s| - CountMarkup(s)
    decreases |s|
  {
    if r != [] {
      assert forall i :: 1 <= i < |r| ==> r[1..][i - 1] == r[i];
      if r[0] == s[0] && IsSubseq(r[1..], s[1..]) {
        MarkupFreeSubseqBound(r[1..], s[1..]);
      } else {
        MarkupFreeSubseqBound(r, s[1..]);
      }
    }
  }

  /**
   * The filter's result is the only deletion from `s` that keeps no class
   * character and every other one: it keeps each occurrence, in order.
   */
  lemma {:induction false} StripMarkupCharsUnique(s: string, r: string)
    requires IsSubseq(r, s) && forall i :: 0 <= i < |r| ==> !IsMarkupChar(r[i])
    requires |r| == |s| - CountMarkup(s)
    ensures r == StripMarkupChars(s)
    decreases |s|
  {
    StripMarkupCharsLength(s);
    if s != [] {
      if IsMarkupChar(s[0]) {
        if r != [] {
          assert r[0] != s[0];
        }
        StripMarkupCharsUnique(s[1..], r);
      } else {
        assert forall i :: 1 <= i < |r| ==> r[1..][i - 1] == r[i];
        if r[0] == s[0] && IsSubseq(r[1..], s[1..]) {
          StripMarkupCharsUnique(s[1..], r[1..]);
          assert r == [r[0]] + r[1..];
        } else {
          MarkupFreeSubseqBound(r, s[1..]);
          assert false;
        }
      }
    }
  }

  /** `getTextFromMarkdown`: the eight replacements, in the source's order. */
  function GetTextFromMarkdown(markdown: string): (text: string)
    ensures IsSubseq(text, markdown)
    ensures |text| <= |markdown|
    ensures forall i :: 0 <= i < |text| ==> !IsMarkupChar(text[i])
  {
    ChainDeletes(markdown);
    StripMarkupChars(
      StripUrls(
        StripRegions(
          StripTableRows(
            StripRegions(
              StripRegions(
                StripRegions(
                  StripRegions(markdown, "```", "```", true),
                  "---", "---", true),
                "$", "$", true),
              "$$", "$$", true)),
          "<", ">", false)))
  }

  /** Each step of the chain deletes from the text the previous step left. */
  lemma ChainDeletes(markdown: string)
    ensures var text := StripMarkupChars(
      StripUrls(
        StripRegions(
          StripTableRows(
            StripRegions(
              StripRegions(
                StripRegions(
                  StripRegions(markdown, "```", "```", true),
                  "---", "---", true),
                "$", "$", true),
              "$$", "$$", true)),
          "<", ">", false)));
      IsSubseq(text, markdown) && |text| <= |markdown|
  {
    var s1 := StripRegions(markdown, "```", "```", true);
    var s2 := StripRegions(s1, "---", "---", true);
    var s3 := StripRegions(s2, "$", "$", true);
    var s4 := StripRegions(s3, "$$", "$$", true);
    var s5 := StripTableRows(s4);
    var s6 := StripRegions(s5, "<", ">", false);
    var s7 := StripUrls(s6);
    var text := StripMarkupChars(s7);
    SubseqTrans(s2, s1, markdown);
    SubseqTrans(s3, s2, markdown);
    SubseqTrans(s4, s3, markdown);
    SubseqTrans(s5, s4, markdown);
    SubseqTrans(s6, s5, markdown);
    SubseqTrans(s7, s6, markdown);
    SubseqTrans(text, s7, markdown);
    SubseqLength(text, markdown);
  }
}

module NormalizerFacts {
  import opened Wrappers
  import opened Normalizer

  /** No character of `s` is `c`. */
  predicate Lacks(s: string, c: char) {
    forall i :: 0 <= i < |s| ==> s[i] != c
  }

  /** A region replacement leaves alone a text without its opening character. */
  lemma {:induction false} StripRegionsNoOpen(s: string, open: string, close: string, anyChar: bool)
    requires open != [] && Lacks(s, open[0])
    ensures StripRegions(s, open, close, anyChar) == s
    decreases |s|
  {
    if s != [] {
      assert s[0] != open[0];
      assert RegionAt(s, open, close, anyChar).None?;
      StripRegionsNoOpen(s[1..], open, close, anyChar);
      assert s == [s[0]] + s[1..];
    }
  }

  /** The table-row replacement leaves alone a text without a pipe. */
  lemma {:induction false} StripTableRowsNoPipe(s: string)
    requires Lacks(s, '|')
    ensures StripTableRows(s) == s
    decreases |s|
  {
    var k := LineEnd(s);
    LacksSlice(s, '|', 0, k);
    LineWithoutPipe(s[..k]);
    if k < |s| {
      var tail := s[k + 1..];
      LacksSlice(s, '|', k + 1, |s|);
      calc {
        StripTableRows(s);
      == { TableRowsStep(s, k); }
        LineText(s[..k]) + ([s[k]] + StripTableRows(tail));
      == { StripTableRowsNoPipe(tail); }
        s[..k] + ([s[k]] + tail);
      == { assert s == s[..k] + ([s[k]] + tail); }
        s;
      }
    } else {
      LastLine(s);
      assert s[..k] == s;
    }
  }

  /** A slice of a text without `c` has no `c`. */
  lemma LacksSlice(s: string, c: char, i: nat, j: nat)
    requires Lacks(s, c) && i <= j <= |s|
    ensures Lacks(s[i..j], c)
  {
    forall m | 0 <= m < j - i ensures s[i..j][m] != c {
      assert s[i..j][m] == s[i + m];
    }
  }

  /** A text without a line terminator is one line. */
  lemma LastLine(s: string)
    requires LineEnd(s) == |s|
    ensures StripTableRows(s) == LineText(s)
  {
    assert s[..|s|] == s;
  }

  /** A line without a pipe is not a table row. */
  lemma LineWithoutPipe(line: string)
    requires Lacks(line, '|')
    ensures LineText(line) == line
  {
  }

  /** One line and its terminator, then the lines after it. */
  lemma TableRowsStep(s: string, k: nat)
    requires k == LineEnd(s) < |s|
    ensures StripTableRows(s) == LineText(s[..k]) + ([s[k]] + StripTableRows(s[k + 1..]))
  {
  }

  /** The URL replacement leaves alone a text without an `h`. */
  lemma {:induction false} StripUrlsNoH(s: string)
    requires Lacks(s, 'h')
    ensures StripUrls(s) == s
    decreases |s|
  {
    if s != [] {
      assert UrlAt(s).None? by {
        if |s| > 4 {
          assert s[..4][0] == s[0];
        }
      }
      StripUrlsNoH(s[1..]);
      assert s == [s[0]] + s[1..];
    }
  }

  /** The character filter leaves alone a text without markup characters. */
  lemma {:induction false} StripMarkupCharsClean(s: string)
    requires forall i :: 0 <= i < |s| ==> !IsMarkupChar(s[i])
    ensures StripMarkupChars(s) == s
    decreases |s|
  {
    if s != [] {
      StripMarkupCharsClean(s[1..]);
      assert s == [s[0]] + s[1..];
    }
  }

  /**
   * On a text without backquote, dash, dollar, pipe or `<`, only the URL
   * replacement and the character filter can change anything.
   */
  lemma OnlyLastSteps(a: string)
    requires Lacks(a, '`') && Lacks(a, '-') && Lacks(a, '$') && Lacks(a, '|') && Lacks(a, '<')
    ensures GetTextFromMarkdown(a) == StripMarkupChars(StripUrls(a))
  {
    StripRegionsNoOpen(a, "```", "```", true);
    StripRegionsNoOpen(a, "---", "---", true);
    StripRegionsNoOpen(a, "$", "$", true);
    StripRegionsNoOpen(a, "$$", "$$", true);
    StripTableRowsNoPipe(a);
    StripRegionsNoOpen(a, "<", ">", false);
  }

  /**
   * The steps run once, in order, so a character removed late can join a
   * pattern an earlier step would have removed: normalising twice is not
   * normalising once.
   */
  lemma NotIdempotent(a: string)
    requires a == "h:ttpx"
    ensures GetTextFromMarkdown(a) == "httpx"
    ensures GetTextFromMarkdown(GetTextFromMarkdown(a)) == ""
  {
    ColonRemovedLast(a);
    UrlRemoved(GetTextFromMarkdown(a));
  }

  /** The colon goes only in the last step, after URLs have been removed. */
  lemma ColonRemovedLast(a: string)
    requires a == "h:ttpx"
    ensures GetTextFromMarkdown(a) == "httpx"
  {
    OnlyLastSteps(a);
    ColonHidesUrl(a);
    ColonFiltered(a);
  }

  /** `h:ttpx` does not start with `http`. */
  lemma ColonHidesUrl(a: string)
    requires a == "h:ttpx"
    ensures StripUrls(a) == a
  {
    assert a[..4][1] == ':';
    assert UrlAt(a).None?;
    var t := a[1..];
    StripUrlsNoH(t);
    assert a == [a[0]] + t;
  }

  /** The filter removes the colon of `h:ttpx`. */
  lemma ColonFiltered(a: string)
    requires a == "h:ttpx"
    ensures StripMarkupChars(a) == "httpx"
  {
    var t := a[1..];
    var u := t[1..];
    StripMarkupCharsClean(u);
    assert IsMarkupChar(t[0]);
    assert StripMarkupChars(t) == u;
    assert StripMarkupChars(a) == [a[0]] + u;
    assert [a[0]] + u == "httpx";
  }

  /** `http` and what follows it up to a space is a URL. */
  lemma UrlRemoved(b: string)
    requires b == "httpx"
    ensures GetTextFromMarkdown(b) == ""
  {
    OnlyLastSteps(b);
    assert SpaceFrom(b, 5) == 5;
    assert UrlAt(b) == Some(5);
    assert b[5..] == "";
    assert StripUrls(b) == "";
  }

  /**
   * `$...$` is removed before `$$...$$`, so display math `$$x$$` loses
   * `$$x$` to the first rule and leaves a `$` that no later step removes.
   */
  lemma DisplayMathLeavesDollar(a: string)
    requires a == "$$x$$"
    ensures GetTextFromMarkdown(a) == "$"
  {
    var d := "$";
    calc {
      GetTextFromMarkdown(a);
    == { StepsInOrder(a); }
      StripMarkupChars(StripUrls(StripRegions(StripTableRows(
        StripRegions(StripRegions(StripRegions(StripRegions(a, "```", "```", true), "---", "---", true),
          "$", "$", true), "$$", "$$", true)), "<", ">", false)));
    == { StripRegionsNoOpen(a, "```", "```", true); StripRegionsNoOpen(a, "---", "---", true); }
      StripMarkupChars(StripUrls(StripRegions(StripTableRows(
        StripRegions(StripRegions(a, "$", "$", true), "$$", "$$", true)), "<", ">", false)));
    == { InlineMathFirst(a); }
      StripMarkupChars(StripUrls(StripRegions(StripTableRows(
        StripRegions(d, "$$", "$$", true)), "<", ">", false)));
    == { LoneDollarKept(d); }
      d;
    }
  }

  /** The eight replacements, spelled out. */
  lemma StepsInOrder(a: string)
    ensures GetTextFromMarkdown(a) ==
      StripMarkupChars(StripUrls(StripRegions(StripTableRows(
        StripRegions(StripRegions(StripRegions(StripRegions(a, "```", "```", true), "---", "---", true),
          "$", "$", true), "$$", "$$", true)), "<", ">", false)))
  {
  }

  /** No step after the inline-math rule removes a lone `$`. */
  lemma LoneDollarKept(d: string)
    requires d == "$"
    ensures StripMarkupChars(StripUrls(StripRegions(StripTableRows(
              StripRegions(d, "$$", "$$", true)), "<", ">", false))) == d
  {
    assert RegionAt(d, "$$", "$$", true).None?;
    assert StripRegions(d[1..], "$$", "$$", true) == "";
    assert StripRegions(d, "$$", "$$", true) == d;
    StripTableRowsNoPipe(d);
    StripRegionsNoOpen(d, "<", ">", false);
    StripUrlsNoH(d);
    StripMarkupCharsClean(d);
  }

  /** The inline-math rule takes `$$x$` from `$$x$$`. */
  lemma InlineMathFirst(a: string)
    requires a == "$$x$$"
    ensures StripRegions(a, "$", "$", true) == "$"
  {
    assert a[2..3][0] == 'x';
    assert OccursAt(a, 3, "$") && !OccursAt(a, 2, "$");
    assert FindClose(a, 3, "$", true) == Some(3);
    assert FindClose(a, 2, "$", true) == Some(3);
    assert RegionAt(a, "$", "$", true) == Some(4);
    var d := a[4..];
    assert d == "$";
    assert RegionAt(d, "$", "$", true).None?;
    assert StripRegions(d[1..], "$", "$", true) == "";
    assert StripRegions(d, "$", "$", true) == d;
  }
}
