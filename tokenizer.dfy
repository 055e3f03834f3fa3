/**
 * The `en` entry of `getSpaceSeparatedDoc`: `doc.toLowerCase().split(' ')`.
 * Lower-casing is modelled on ASCII letters only.
 */
module Tokenizer {

  /** `toLowerCase` on one character, ASCII letters only. */
  function LowerChar(c: char): (l: char)
    ensures !('A' <= l <= 'Z')
    ensures 'A' <= c <= 'Z' ==> l as int == c as int + 32
    ensures !('A' <= c <= 'Z') ==> l == c
  {
    if 'A' <= c <= 'Z' then (c as int + 32) as char else c
  }

  /** `toLowerCase`. */
  function ToLower(s: string): (r: string)
    ensures |r| == |s|
    ensures forall i :: 0 <= i < |s| ==> r[i] == LowerChar(s[i])
  {
    if s == [] then "" else [LowerChar(s[0])] + ToLower(s[1..])
  }

  /** Lower-casing twice is lower-casing once, and it keeps every space where it was. */
  lemma ToLowerIdempotent(s: string)
    ensures ToLower(ToLower(s)) == ToLower(s)
    ensures forall i :: 0 <= i < |s| ==> (ToLower(s)[i] == ' ' <==> s[i] == ' ')
  {
  }

  /** The number of occurrences of `c` in `s`. */
  function Count(s: string, c: char): nat {
    if s == [] then 0 else (if s[0] == c then 1 else 0) + Count(s[1..], c)
  }

  /** `s.split(sep)` for a one-character separator: the empty string gives `[""]`. */
  function Split(s: string, sep: char): (r: seq<string>)
    ensures |r| == Count(s, sep) + 1
    ensures forall i :: 0 <= i < |r| ==> sep !in r[i]
  {
    if s == [] then [""]
    else
      var rest := Split(s[1..], sep);
      if s[0] == sep then [""] + rest
      else [[s[0]] + rest[0]] + rest[1..]
  }

  /** `ts.join(sep)`. */
  function Join(ts: seq<string>, sep: char): string {
    if ts == [] then ""
    else if |ts| == 1 then ts[0]
    else ts[0] + [sep] + Join(ts[1..], sep)
  }

  /** Joining the pieces of a split gives back the text. */
  lemma {:induction false} JoinSplit(s: string, sep: char)
    ensures Join(Split(s, sep), sep) == s
  {
    if s != [] {
      var rest := Split(s[1..], sep);
      JoinSplit(s[1..], sep);
      if s[0] == sep {
        assert ([""] + rest)[1..] == rest;
      } else if |rest| == 1 {
        assert s == [s[0]] + s[1..];
      } else {
        var r := [[s[0]] + rest[0]] + rest[1..];
        assert r[1..] == rest[1..];
        assert Join(rest, sep) == rest[0] + [sep] + Join(rest[1..], sep);
        assert s == [s[0]] + s[1..];
      }
    }
  }

  /** A piece without a separator splits into itself. */
  lemma {:induction false} SplitPiece(t: string, sep: char)
    requires sep !in t
    ensures Split(t, sep) == [t]
  {
    if t != [] {
      SplitPiece(t[1..], sep);
      assert t == [t[0]] + t[1..];
    }
  }

  /** A piece, the separator and more text: the piece comes off first. */
  lemma {:induction false} SplitFirst(t: string, sep: char, u: string)
    requires sep !in t
    ensures Split(t + [sep] + u, sep) == [t] + Split(u, sep)
  {
    if t == [] {
      assert t + [sep] + u == [sep] + u;
      assert ([sep] + u)[1..] == u;
    } else {
      var w := t + [sep] + u;
      assert w[1..] == t[1..] + [sep] + u;
      SplitFirst(t[1..], sep, u);
      assert t == [t[0]] + t[1..];
    }
  }

  /** Splitting a join of separator-free pieces gives back the pieces. */
  lemma {:induction false} SplitJoin(ts: seq<string>, sep: char)
    requires |ts| >= 1
    requires forall i :: 0 <= i < |ts| ==> sep !in ts[i]
    ensures Split(Join(ts, sep), sep) == ts
  {
    if |ts| == 1 {
      SplitPiece(ts[0], sep);
    } else {
      SplitJoin(ts[1..], sep);
      SplitFirst(ts[0], sep, Join(ts[1..], sep));
      assert ts == [ts[0]] + ts[1..];
    }
  }

  /** The number of spaces survives lower-casing. */
  lemma {:induction false} CountToLower(s: string)
    ensures Count(ToLower(s), ' ') == Count(s, ' ')
  {
    if s != [] {
      CountToLower(s[1..]);
      assert ToLower(s)[1..] == ToLower(s[1..]);
    }
  }

  /** The `en` strategy: lower-case, then split on single spaces. */
  function EnTokens(doc: string): (tokens: seq<string>)
    ensures |tokens| == Count(doc, ' ') + 1
    ensures forall i :: 0 <= i < |tokens| ==> ' ' !in tokens[i]
    ensures Join(tokens, ' ') == ToLower(doc)
  {
    CountToLower(doc);
    JoinSplit(ToLower(doc), ' ');
    Split(ToLower(doc), ' ')
  }

  /** A text without ASCII capitals. */
  predicate IsLowerCase(s: string) {
    forall i :: 0 <= i < |s| ==> !('A' <= s[i] <= 'Z')
  }

  /** Lower-casing leaves a lower-case text alone. */
  lemma {:induction false} ToLowerOfLowerCase(s: string)
    requires IsLowerCase(s)
    ensures ToLower(s) == s
  {
    if s != [] {
      ToLowerOfLowerCase(s[1..]);
      assert s == [s[0]] + s[1..];
    }
  }

  /** Joining lower-case pieces with a space gives a lower-case text. */
  lemma {:induction false} JoinLowerCase(ts: seq<string>)
    requires forall i :: 0 <= i < |ts| ==> IsLowerCase(ts[i])
    ensures IsLowerCase(Join(ts, ' '))
  {
    if |ts| > 1 {
      JoinLowerCase(ts[1..]);
    }
  }

  /**
   * The inverse direction: lower-case tokens without spaces, joined by
   * spaces, tokenize back into themselves.
   */
  lemma EnTokensOfJoin(ts: seq<string>)
    requires |ts| >= 1
    requires forall i :: 0 <= i < |ts| ==> ' ' !in ts[i] && IsLowerCase(ts[i])
    ensures EnTokens(Join(ts, ' ')) == ts
  {
    JoinLowerCase(ts);
    ToLowerOfLowerCase(Join(ts, ' '));
    SplitJoin(ts, ' ');
  }
}
