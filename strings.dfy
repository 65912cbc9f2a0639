/** Character and string helpers shared by the naming-convention parser and
    the reference rewriter: Python's `str.split(sep)` / `sep.join(...)` for a
    one-character separator, character-for-character replacement, ASCII
    lower-casing and literal occurrence. */
module Strings {

  /** `pat` occurs in `s` starting at index `i`. */
  predicate OccursAt(s: string, pat: string, i: nat) {
    i + |pat| <= |s| && s[i..i + |pat|] == pat
  }

  /** `pat` occurs somewhere in `s`. */
  predicate Occurs(s: string, pat: string) {
    exists i: nat | i <= |s| :: OccursAt(s, pat, i)
  }

  /** Index of the first `c` in `s`, or `|s|` when there is none. */
  function FirstIndex(s: string, c: char): (k: nat)
    ensures k <= |s|
    ensures c !in s[..k]
    ensures k < |s| ==> s[k] == c
  {
    if s == [] then 0
    else if s[0] == c then 0
    else
      var k := 1 + FirstIndex(s[1..], c);
      assert s[..k] == [s[0]] + s[1..][..k - 1];
      k
  }

  /** The first `c` after a stretch free of `c` is found at the end of that
      stretch. */
  lemma {:induction false} FirstIndexAfter(x: string, c: char, y: string)
    requires c !in x
    ensures FirstIndex(x + [c] + y, c) == |x|
  {
    if x != [] {
      assert (x + [c] + y)[1..] == x[1..] + [c] + y;
      FirstIndexAfter(x[1..], c, y);
    }
  }

  /** `FirstIndex` is the only index with its three properties. */
  lemma FirstIndexUnique(s: string, c: char, k: nat)
    requires k <= |s|
    requires forall i :: 0 <= i < k ==> s[i] != c
    requires k < |s| ==> s[k] == c
    ensures FirstIndex(s, c) == k
  {
    var m := FirstIndex(s, c);
    forall i | 0 <= i < m ensures s[i] != c {
      assert s[..m][i] == s[i];
    }
  }

  /** Python's `s.split(sep)` with an explicit one-character separator:
      consecutive separators give empty tokens and the empty string gives
      one empty token. */
  function Split(s: string, sep: char): (r: seq<string>)
    ensures |r| >= 1
    ensures r[0] == s[..FirstIndex(s, sep)]
    ensures forall t :: t in r ==> sep !in t
    decreases |s|
  {
    var k := FirstIndex(s, sep);
    if k == |s| then [s]
    else [s[..k]] + Split(s[k + 1..], sep)
  }

  /** Python's `sep.join(tokens)`. */
  function Join(tokens: seq<string>, sep: char): string
  {
    if |tokens| == 0 then ""
    else if |tokens| == 1 then tokens[0]
    else tokens[0] + [sep] + Join(tokens[1..], sep)
  }

  /** Joining the tokens of a split with the same separator gives back the
      original string. */
  lemma {:induction false} JoinSplit(s: string, sep: char)
    ensures Join(Split(s, sep), sep) == s
    decreases |s|
  {
    var k := FirstIndex(s, sep);
    if k < |s| {
      var rest := Split(s[k + 1..], sep);
      JoinSplit(s[k + 1..], sep);
      assert ([s[..k]] + rest)[1..] == rest;
      assert s == s[..k] + [sep] + s[k + 1..];
    }
  }

  /** The tokens after the first, rejoined, are what follows the first
      separator; there are none when there is no separator. */
  lemma JoinTail(s: string, sep: char)
    ensures FirstIndex(s, sep) == |s| ==> Split(s, sep)[1..] == []
    ensures FirstIndex(s, sep) < |s| ==>
              Join(Split(s, sep)[1..], sep) == s[FirstIndex(s, sep) + 1..]
  {
    var k := FirstIndex(s, sep);
    if k < |s| {
      var rest := s[k + 1..];
      assert Split(s, sep) == [s[..k]] + Split(rest, sep);
      assert Split(s, sep)[1..] == Split(rest, sep);
      JoinSplit(rest, sep);
    }
  }

  /** In the other direction, splitting a join gives back the tokens, provided
      there is at least one token and none contains the separator. */
  lemma {:induction false} SplitJoin(tokens: seq<string>, sep: char)
    requires |tokens| >= 1
    requires forall i :: 0 <= i < |tokens| ==> sep !in tokens[i]
    ensures Split(Join(tokens, sep), sep) == tokens
  {
    if |tokens| == 1 {
      assert tokens[0][..|tokens[0]|] == tokens[0];
    } else {
      var t0, rest := tokens[0], Join(tokens[1..], sep);
      var s := t0 + [sep] + rest;
      assert Join(tokens, sep) == s;
      FirstIndexAfter(t0, sep, rest);
      assert s[..|t0|] == t0;
      assert s[|t0| + 1..] == rest;
      assert Split(s, sep) == [t0] + Split(rest, sep);
      SplitJoin(tokens[1..], sep);
      assert tokens == [t0] + tokens[1..];
    }
  }

  /** Every occurrence of the character `a` becomes `b` (Python's
      `s.replace(a, b)` for one-character arguments). */
  function ReplaceChar(s: string, a: char, b: char): (r: string)
    ensures |r| == |s|
  {
    if s == [] then []
    else [if s[0] == a then b else s[0]] + ReplaceChar(s[1..], a, b)
  }

  /** `ReplaceChar` changes exactly the occurrences of `a`, into `b`. */
  lemma {:induction false} ReplaceCharAt(s: string, a: char, b: char)
    ensures forall i :: 0 <= i < |s| ==>
              ReplaceChar(s, a, b)[i] == (if s[i] == a then b else s[i])
  {
    if s != [] {
      ReplaceCharAt(s[1..], a, b);
      assert forall i :: 1 <= i < |s| ==> ReplaceChar(s, a, b)[i] == ReplaceChar(s[1..], a, b)[i - 1];
    }
  }

  /** Character replacement distributes over concatenation. */
  lemma ReplaceCharConcat(x: string, y: string, a: char, b: char)
    ensures ReplaceChar(x + y, a, b) == ReplaceChar(x, a, b) + ReplaceChar(y, a, b)
  {
    ReplaceCharAt(x + y, a, b);
    ReplaceCharAt(x, a, b);
    ReplaceCharAt(y, a, b);
  }

  /** ASCII upper case letter. */
  predicate IsUpper(c: char) {
    'A' <= c <= 'Z'
  }

  /** `c` lower-cased when it is an ASCII capital letter. */
  function LowerChar(c: char): (d: char)
    ensures !IsUpper(d)
    ensures IsUpper(c) ==> d as int == c as int + 32
    ensures !IsUpper(c) ==> d == c
  {
    if IsUpper(c) then (c as int + 32) as char else c
  }

  /** `s.lower()` restricted to the ASCII letters. */
  function LowerAscii(s: string): (r: string)
    ensures |r| == |s|
  {
    if s == [] then [] else [LowerChar(s[0])] + LowerAscii(s[1..])
  }

  /** `LowerAscii` lower-cases every character on its own. */
  lemma {:induction false} LowerAsciiAt(s: string)
    ensures forall i :: 0 <= i < |s| ==> LowerAscii(s)[i] == LowerChar(s[i])
  {
    if s != [] {
      LowerAsciiAt(s[1..]);
      assert forall i :: 1 <= i < |s| ==> LowerAscii(s)[i] == LowerAscii(s[1..])[i - 1];
    }
  }

  /** Lower-casing distributes over concatenation. */
  lemma LowerAsciiConcat(x: string, y: string)
    ensures LowerAscii(x + y) == LowerAscii(x) + LowerAscii(y)
  {
    LowerAsciiAt(x + y);
    LowerAsciiAt(x);
    LowerAsciiAt(y);
  }
}
