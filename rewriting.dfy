/** The four substitutions the assembler applies to every section
    (build_ebook_v2.py, lines 151-167), each as an explicit left-to-right
    scanner with the semantics of Python's `re.sub`: matches are found
    leftmost first, never overlap, and scanning resumes after each
    replacement. */
module Rewriting {
  import opened Strings

  const ImagesDir := "/images/"
  const RelativeImagesDir := "images/"
  const SvgExt := ".svg"
  const PngExt := ".png"
  const RootLink := "](/"
  const SiteLink := "](https://vulkan-tutorial.com/"
  const RefOpen := "](!"

  // ---------------------------------------------------------------------
  // Literal substitution: re.sub with a pattern free of metacharacters.

  /** Every leftmost, non-overlapping occurrence of `pat` in `s` replaced
      by `rep`. */
  function ReplaceAll(s: string, pat: string, rep: string): string
    requires |pat| > 0
    decreases |s|
  {
    if |pat| <= |s| && s[..|pat|] == pat then rep + ReplaceAll(s[|pat|..], pat, rep)
    else if s == [] then []
    else [s[0]] + ReplaceAll(s[1..], pat, rep)
  }

  /** Occurrences in a suffix are occurrences in the whole string, shifted. */
  lemma OccursAtSuffix(s: string, pat: string, d: nat, i: nat)
    requires d <= |s|
    ensures OccursAt(s[d..], pat, i) <==> OccursAt(s, pat, d + i)
  {
    if d + i + |pat| <= |s| {
      assert s[d..][i..i + |pat|] == s[d + i..d + i + |pat|];
    }
  }

  /** Regrouping a concatenation, stated once so that proofs about long
      terms need not redo it. */
  lemma Reassociate(x: string, y: string, z: string)
    ensures x + (y + z) == (x + y) + z
  {
  }

  lemma ConsTail(a: string, r: string)
    requires a != []
    ensures [a[0]] + (a[1..] + r) == a + r
  {
    assert a == [a[0]] + a[1..];
  }

  /** A string in which `pat` does not occur is left unchanged. */
  lemma {:induction false} ReplaceAllNoOccurrence(s: string, pat: string, rep: string)
    requires |pat| > 0
    requires !Occurs(s, pat)
    ensures ReplaceAll(s, pat, rep) == s
    decreases |s|
  {
    assert !OccursAt(s, pat, 0);
    if s != [] {
      forall i: nat ensures OccursAt(s[1..], pat, i) ==> OccursAt(s, pat, 1 + i) {
        OccursAtSuffix(s, pat, 1, i);
      }
      ReplaceAllNoOccurrence(s[1..], pat, rep);
      assert s == [s[0]] + s[1..];
    }
  }

  /** A prefix in which no occurrence of `pat` starts is copied unchanged,
      and scanning goes on with the rest. */
  lemma {:induction false} ReplaceAllSkip(a: string, t: string, pat: string, rep: string)
    requires |pat| > 0
    requires forall j: nat :: j < |a| ==> !OccursAt(a + t, pat, j)
    ensures ReplaceAll(a + t, pat, rep) == a + ReplaceAll(t, pat, rep)
    decreases |a|
  {
    if a == [] {
      assert a + t == t;
    } else {
      var s := a + t;
      assert !OccursAt(s, pat, 0);
      assert s[1..] == a[1..] + t;
      forall j: nat | j < |a[1..]| ensures !OccursAt(a[1..] + t, pat, j) {
        OccursAtSuffix(s, pat, 1, j);
      }
      ReplaceAllSkip(a[1..], t, pat, rep);
      assert a == [a[0]] + a[1..];
    }
  }

  /** The first occurrence of `pat` is replaced and scanning resumes right
      after it. With `ReplaceAllNoOccurrence` this determines `ReplaceAll`
      completely. */
  lemma ReplaceAllFirst(s: string, pat: string, rep: string, k: nat)
    requires |pat| > 0
    requires OccursAt(s, pat, k)
    requires forall j: nat :: j < k ==> !OccursAt(s, pat, j)
    ensures ReplaceAll(s, pat, rep) == s[..k] + rep + ReplaceAll(s[k + |pat|..], pat, rep)
  {
    ReplaceAllSkipTo(s, pat, rep, k);
    ReplaceAllMatchAt(s, pat, rep, k);
  }

  /** Positions before `k` where no occurrence starts are copied. */
  lemma ReplaceAllSkipTo(s: string, pat: string, rep: string, k: nat)
    requires |pat| > 0 && k <= |s|
    requires forall j: nat :: j < k ==> !OccursAt(s, pat, j)
    ensures ReplaceAll(s, pat, rep) == s[..k] + ReplaceAll(s[k..], pat, rep)
  {
    var a, t := s[..k], s[k..];
    assert s == a + t;
    ReplaceAllSkip(a, t, pat, rep);
  }

  /** An occurrence at `k` is replaced there. */
  lemma ReplaceAllMatchAt(s: string, pat: string, rep: string, k: nat)
    requires |pat| > 0 && OccursAt(s, pat, k)
    ensures ReplaceAll(s[k..], pat, rep) == rep + ReplaceAll(s[k + |pat|..], pat, rep)
  {
    var rest := s[k + |pat|..];
    assert s[k..] == pat + rest;
    ReplaceAllAtStart(pat, rep, rest);
  }

  /** A pattern holding a character the text lacks does not occur in it. */
  lemma NotOccursMissing(s: string, pat: string, c: char)
    requires c in pat && c !in s
    ensures !Occurs(s, pat)
  {
    var k :| 0 <= k < |pat| && pat[k] == c;
    forall i: nat | i <= |s| ensures !OccursAt(s, pat, i) {
      if i + |pat| <= |s| {
        assert s[i..i + |pat|][k] == s[i + k];
      }
    }
  }

  /** A pattern that does not match at the start, and whose first character
      appears nowhere after it, does not occur at all. */
  lemma NotOccursPastHead(s: string, pat: string)
    requires |pat| > 0 && !OccursAt(s, pat, 0)
    requires s != [] ==> pat[0] !in s[1..]
    ensures !Occurs(s, pat)
  {
    forall i: nat | 0 < i <= |s| ensures !OccursAt(s, pat, i) {
      if i + |pat| <= |s| {
        assert s[i..i + |pat|][0] == s[1..][i - 1];
      }
    }
  }

  /** A prefix free of the pattern's first character is copied unchanged. */
  lemma ReplaceAllAvoid(a: string, t: string, pat: string, rep: string)
    requires |pat| > 0 && pat[0] !in a
    ensures ReplaceAll(a + t, pat, rep) == a + ReplaceAll(t, pat, rep)
  {
    forall j: nat | j < |a| ensures !OccursAt(a + t, pat, j) {
      if j + |pat| <= |a + t| {
        assert (a + t)[j..j + |pat|][0] == a[j];
      }
    }
    ReplaceAllSkip(a, t, pat, rep);
  }

  /** A pattern at the very start is replaced. */
  lemma ReplaceAllAtStart(pat: string, rep: string, u: string)
    requires |pat| > 0
    ensures ReplaceAll(pat + u, pat, rep) == rep + ReplaceAll(u, pat, rep)
  {
    assert (pat + u)[..|pat|] == pat;
    assert (pat + u)[|pat|..] == u;
  }

  /** A character at which no occurrence starts is copied. */
  lemma ReplaceAllNotAtHead(c: char, t: string, pat: string, rep: string)
    requires |pat| > 0 && !OccursAt([c] + t, pat, 0)
    ensures ReplaceAll([c] + t, pat, rep) == [c] + ReplaceAll(t, pat, rep)
  {
    assert ([c] + t)[1..] == t;
  }

  /** No occurrence of `pat` starts in `x` and runs on into `y`. */
  predicate NoStraddle(x: string, y: string, pat: string) {
    forall j: nat :: j < |x| < j + |pat| ==> !OccursAt(x + y, pat, j)
  }

  /** When the first character after the cut appears in the pattern only
      at its head, no occurrence straddles the cut. */
  lemma NoStraddleAtCut(x: string, y: string, pat: string)
    requires |pat| > 0 && y != [] && y[0] !in pat[1..]
    ensures NoStraddle(x, y, pat)
  {
    forall j: nat | j < |x| < j + |pat| ensures !OccursAt(x + y, pat, j) {
      if j + |pat| <= |x + y| {
        var d := |x| - j;
        assert (x + y)[j..j + |pat|][d] == y[0];
        assert pat[1..][d - 1] == pat[d];
      }
    }
  }

  /** Where no occurrence straddles a cut, the two sides are rewritten
      independently. */
  lemma {:induction false} ReplaceAllSplit(x: string, y: string, pat: string, rep: string)
    requires |pat| > 0 && NoStraddle(x, y, pat)
    ensures ReplaceAll(x + y, pat, rep) == ReplaceAll(x, pat, rep) + ReplaceAll(y, pat, rep)
    decreases |x|
  {
    var s := x + y;
    if x == [] {
      assert s == y;
    } else if |pat| <= |s| && s[..|pat|] == pat {
      assert OccursAt(s, pat, 0);
      assert x[..|pat|] == pat;
      NoStraddleShift(x, y, pat, |pat|);
      ReplaceAllSplit(x[|pat|..], y, pat, rep);
    } else {
      assert !(|pat| <= |x| && x[..|pat|] == pat) by {
        if |pat| <= |x| { assert s[..|pat|] == x[..|pat|]; }
      }
      NoStraddleShift(x, y, pat, 1);
      ReplaceAllSplit(x[1..], y, pat, rep);
    }
  }

  /** Dropping a prefix of `x` keeps the cut free of straddling
      occurrences. */
  lemma NoStraddleShift(x: string, y: string, pat: string, d: nat)
    requires d <= |x| && NoStraddle(x, y, pat)
    ensures NoStraddle(x[d..], y, pat) && (x + y)[d..] == x[d..] + y
  {
    assert (x + y)[d..] == x[d..] + y;
    forall j: nat | j < |x[d..]| < j + |pat| ensures !OccursAt(x[d..] + y, pat, j) {
      OccursAtSuffix(x + y, pat, d, j);
    }
  }

  /** A pattern with no `]` after its head cannot straddle a cut just
      before a `]`. */
  lemma ReplaceAllCutAtBracket(x: string, y: string, pat: string, rep: string)
    requires |pat| > 0 && ']' !in pat[1..]
    requires y != [] && y[0] == ']'
    ensures ReplaceAll(x + y, pat, rep) == ReplaceAll(x, pat, rep) + ReplaceAll(y, pat, rep)
  {
    NoStraddleAtCut(x, y, pat);
    ReplaceAllSplit(x, y, pat, rep);
  }

  /** Replacing a one-character pattern by a one-character text is
      character-for-character replacement. */
  lemma {:induction false} ReplaceAllSingleChar(s: string, a: char, b: char)
    ensures ReplaceAll(s, [a], [b]) == ReplaceChar(s, a, b)
    decreases |s|
  {
    if s != [] {
      ReplaceAllSingleChar(s[1..], a, b);
      assert s[..1] == [s[0]];
    }
  }

  /** A replacement that can neither contain nor complete a new match: its
      text is at least as long as the pattern and does not start with it,
      the pattern's first character appears nowhere else in the
      replacement, and the replacement's first character appears nowhere
      else in the pattern. */
  predicate NoRescan(pat: string, rep: string) {
    0 < |pat| <= |rep| && rep[..|pat|] != pat && rep[0] !in pat[1..] && pat[0] !in rep[1..]
  }

  /** A run of copied characters at the head of the output is the head of
      the input. */
  lemma {:induction false} CopiedRun(t: string, pat: string, rep: string, m: nat)
    requires 0 < |pat| && 0 < |rep|
    requires m <= |ReplaceAll(t, pat, rep)|
    requires forall j :: 0 <= j < m ==> ReplaceAll(t, pat, rep)[j] != rep[0]
    ensures m <= |t| && t[..m] == ReplaceAll(t, pat, rep)[..m]
    decreases m
  {
    if m > 0 {
      var r := ReplaceAll(t, pat, rep);
      assert r[0] != rep[0];
      assert t != [];
      var rt := ReplaceAll(t[1..], pat, rep);
      assert r == [t[0]] + rt;
      assert forall j :: 0 <= j < m - 1 ==> rt[j] == r[j + 1];
      CopiedRun(t[1..], pat, rep, m - 1);
      assert t[..m] == [t[0]] + t[1..][..m - 1];
    }
  }

  /** Under `NoRescan` the substitution is complete: no occurrence of the
      pattern is left in its output. */
  lemma {:induction false} ReplaceAllComplete(s: string, pat: string, rep: string)
    requires NoRescan(pat, rep)
    ensures !Occurs(ReplaceAll(s, pat, rep), pat)
    decreases |s|
  {
    var r := ReplaceAll(s, pat, rep);
    if |pat| <= |s| && s[..|pat|] == pat {
      var t := s[|pat|..];
      ReplaceAllComplete(t, pat, rep);
      forall i: nat ensures !OccursAt(r, pat, i) {
        if i >= |rep| {
          OccursAtSuffix(r, pat, |rep|, i - |rep|);
          assert r[|rep|..] == ReplaceAll(t, pat, rep);
        } else if i > 0 {
          assert r[i] == rep[i] && rep[i] in rep[1..];
        } else {
          assert r[..|pat|] == rep[..|pat|];
        }
      }
    } else if s != [] {
      var t := s[1..];
      ReplaceAllComplete(t, pat, rep);
      forall i: nat ensures !OccursAt(r, pat, i) {
        if i >= 1 {
          OccursAtSuffix(r, pat, 1, i - 1);
          assert r[1..] == ReplaceAll(t, pat, rep);
        } else if OccursAt(r, pat, 0) {
          var rt := ReplaceAll(t, pat, rep);
          forall j | 0 <= j < |pat| - 1 ensures rt[j] != rep[0] {
            assert rt[j] == r[j + 1] == pat[j + 1] && pat[j + 1] in pat[1..];
          }
          CopiedRun(t, pat, rep, |pat| - 1);
        }
      }
    }
  }

  // ---------------------------------------------------------------------
  // Chapter references: re.sub(r'\]\(!([^)]+)\)', repl, ...).

  /** What follows the last `/` of a path, or the whole path when it has
      none. */
  function LastSegment(path: string): string
    decreases |path|
  {
    var k := FirstIndex(path, '/');
    if k == |path| then path else LastSegment(path[k + 1..])
  }

  /** `LastSegment` is `path.split('/')[-1]`. */
  lemma {:induction false} LastSegmentIsLastPart(path: string)
    ensures var parts := Split(path, '/'); LastSegment(path) == parts[|parts| - 1]
    decreases |path|
  {
    var k := FirstIndex(path, '/');
    if k < |path| {
      LastSegmentIsLastPart(path[k + 1..]);
      assert Split(path, '/') == [path[..k]] + Split(path[k + 1..], '/');
    }
  }

  /** The anchor a chapter reference resolves to: the target lower-cased,
      with underscores turned into hyphens, cut down to its last segment. */
  function Anchor(target: string): string {
    LastSegment(Normalise(target))
  }

  /** The target lower-cased, with underscores turned into hyphens. */
  function Normalise(target: string): string {
    ReplaceChar(LowerAscii(target), '_', '-')
  }

  /** `s` starts with a chapter reference: `](!`, then a non-empty run of
      characters other than `)`, then `)`. The run is greedy and may not
      contain `)`, so backtracking can never rescue a failed match. */
  predicate RefStart(s: string) {
    3 <= |s| && s[0] == ']' && s[1] == '(' && s[2] == '!'
    && 0 < FirstIndex(s[3..], ')') < |s| - 3
  }

  /** The in-page link a chapter reference to `target` becomes. */
  function Link(target: string): string {
    "](#" + Anchor(target) + ")"
  }

  /** Every chapter reference replaced by an in-page link, scanning left to
      right and resuming after each reference's `)`. */
  function ResolveRefs(s: string): string
    decreases |s|
  {
    if s == [] then []
    else if RefStart(s) then
      var n := FirstIndex(s[3..], ')');
      Link(s[3..3 + n]) + ResolveRefs(s[n + 4..])
    else [s[0]] + ResolveRefs(s[1..])
  }

  /** The last segment is a suffix of the path holding no `/`, and it is
      either the whole path or preceded by a `/`. */
  lemma LastSegmentIsTail(path: string)
    ensures var r := LastSegment(path);
            |r| <= |path| && path[|path| - |r|..] == r && '/' !in r
            && (|r| < |path| ==> path[|path| - |r| - 1] == '/')
  {
    LastSegmentIsSuffix(path);
    LastSegmentHasNoSlash(path);
    LastSegmentAfterSeparator(path);
  }

  lemma {:induction false} LastSegmentIsSuffix(path: string)
    ensures |LastSegment(path)| <= |path|
    ensures path[|path| - |LastSegment(path)|..] == LastSegment(path)
    decreases |path|
  {
    var k := FirstIndex(path, '/');
    if k < |path| {
      var rest := path[k + 1..];
      LastSegmentIsSuffix(rest);
      var r := LastSegment(rest);
      assert LastSegment(path) == r;
      assert |path| == k + 1 + |rest|;
      assert path[|path| - |r|..] == rest[|rest| - |r|..];
    } else {
      assert path[0..] == path;
    }
  }

  lemma {:induction false} LastSegmentHasNoSlash(path: string)
    ensures '/' !in LastSegment(path)
    decreases |path|
  {
    var k := FirstIndex(path, '/');
    if k < |path| {
      LastSegmentHasNoSlash(path[k + 1..]);
    } else {
      assert path[..k] == path;
    }
  }

  lemma {:induction false} LastSegmentAfterSeparator(path: string)
    ensures var r := LastSegment(path);
            |r| <= |path| && (|r| < |path| ==> path[|path| - |r| - 1] == '/')
    decreases |path|
  {
    LastSegmentIsSuffix(path);
    var k := FirstIndex(path, '/');
    if k < |path| {
      var rest := path[k + 1..];
      LastSegmentAfterSeparator(rest);
      LastSegmentIsSuffix(rest);
      var r := LastSegment(rest);
      assert LastSegment(path) == r;
      assert |path| == k + 1 + |rest|;
      if |r| < |rest| {
        assert path[|path| - |r| - 1] == rest[|rest| - |r| - 1];
      } else {
        assert path[|path| - |r| - 1] == path[k];
      }
    }
  }

  /** A path ending in `/name`, with `name` free of `/`, has `name` as its
      last segment. */
  lemma LastSegmentAfterSlash(p: string, q: string)
    requires '/' !in q
    ensures LastSegment(p + "/" + q) == q
  {
    var x := p + "/" + q;
    var r := LastSegment(x);
    LastSegmentIsTail(x);
    assert forall i :: 0 <= i < |q| ==> x[|x| - |q| + i] == q[i];
    assert x[|x| - |q| - 1] == '/';
    assert x[|x| - |q|..] == q;
  }

  /** A reference's anchor depends only on the last segment of its target:
      `dirs/name` resolves to `name` lower-cased with `_` turned into `-`. */
  lemma AnchorOfPath(dirs: string, name: string)
    requires '/' !in name
    ensures Anchor(dirs + "/" + name) == Normalise(name)
  {
    NormaliseConcat(dirs + "/", name);
    NormaliseConcat(dirs, "/");
    assert Normalise("/") == "/" by { ReplaceCharAt(LowerAscii("/"), '_', '-'); LowerAsciiAt("/"); }
    assert '/' !in Normalise(name) by {
      LowerAsciiAt(name);
      ReplaceCharAt(LowerAscii(name), '_', '-');
    }
    LastSegmentAfterSlash(Normalise(dirs), Normalise(name));
  }

  lemma NormaliseConcat(x: string, y: string)
    ensures Normalise(x + y) == Normalise(x) + Normalise(y)
  {
    LowerAsciiConcat(x, y);
    ReplaceCharConcat(LowerAscii(x), LowerAscii(y), '_', '-');
  }

  /** Normalising acts on each character on its own: `_` becomes `-` and
      an ASCII capital its lower-case letter. */
  lemma NormaliseAt(s: string)
    ensures |Normalise(s)| == |s|
    ensures forall i :: 0 <= i < |s| ==>
              Normalise(s)[i] == (if s[i] == '_' then '-' else LowerChar(s[i]))
  {
    LowerAsciiAt(s);
    ReplaceCharAt(LowerAscii(s), '_', '-');
  }

  /** Conversely, a string that agrees with that description at every
      position is the normalised string. */
  lemma NormaliseIs(s: string, r: string)
    requires |r| == |s|
    requires forall i :: 0 <= i < |s| ==> r[i] == (if s[i] == '_' then '-' else LowerChar(s[i]))
    ensures Normalise(s) == r
  {
    NormaliseAt(s);
  }

  /** Lower-casing and turning `_` into `-` neither create nor remove a
      `/`. */
  lemma NormaliseSlashes(s: string)
    ensures |Normalise(s)| == |s|
    ensures forall i :: 0 <= i < |s| ==> (Normalise(s)[i] == '/' <==> s[i] == '/')
  {
    LowerAsciiAt(s);
    ReplaceCharAt(LowerAscii(s), '_', '-');
  }

  /** The order of the three steps of `repl` does not matter: cutting the
      target down to its last segment first and normalising that gives the
      same anchor. */
  lemma {:induction false} AnchorIsNormalisedLastSegment(target: string)
    ensures Anchor(target) == Normalise(LastSegment(target))
    decreases |target|
  {
    var n := Normalise(target);
    var k := FirstIndex(target, '/');
    NormaliseSlashes(target);
    FirstIndexUnique(n, '/', k);
    if k < |target| {
      var rest := target[k + 1..];
      assert target == target[..k + 1] + rest;
      NormaliseConcat(target[..k + 1], rest);
      assert n[k + 1..] == Normalise(rest);
      AnchorIsNormalisedLastSegment(rest);
    }
  }

  /** An anchor holds no `/`, no `_` and no ASCII capital, and is a tail of
      the normalised target. */
  lemma AnchorIsNormalisedTail(target: string)
    ensures var a := Anchor(target);
            var norm := Normalise(target);
            |a| <= |norm| && norm[|norm| - |a|..] == a
            && forall i :: 0 <= i < |a| ==> a[i] != '/' && a[i] != '_' && !IsUpper(a[i])
  {
    var norm := Normalise(target);
    LastSegmentIsTail(norm);
    LowerAsciiAt(target);
    ReplaceCharAt(LowerAscii(target), '_', '-');
    var a := Anchor(target);
    forall i | 0 <= i < |a| ensures a[i] != '/' && a[i] != '_' && !IsUpper(a[i]) {
      assert a[i] == norm[|norm| - |a| + i];
    }
  }

  /** A prefix at none of whose positions a reference starts is copied
      unchanged, and scanning goes on with the rest. */
  lemma {:induction false} ResolveRefsSkip(a: string, t: string)
    requires forall j :: 0 <= j < |a| ==> !RefStart((a + t)[j..])
    ensures ResolveRefs(a + t) == a + ResolveRefs(t)
    decreases |a|
  {
    if a == [] {
      assert a + t == t;
    } else {
      assert (a + t)[0..] == a + t;
      CopyExtended(a, t);
      SkipShift(a, t);
      ResolveRefsSkip(a[1..], t);
      ConsTail(a, ResolveRefs(t));
    }
  }

  lemma SkipShift(a: string, t: string)
    requires a != []
    requires forall j :: 0 <= j < |a| ==> !RefStart((a + t)[j..])
    ensures forall j :: 0 <= j < |a[1..]| ==> !RefStart((a[1..] + t)[j..])
  {
    forall j | 0 <= j < |a[1..]| ensures !RefStart((a[1..] + t)[j..]) {
      assert (a[1..] + t)[j..] == (a + t)[j + 1..];
    }
  }

  /** Where no reference starts, one character is copied. */
  lemma ResolveRefsCopy(s: string)
    requires s != [] && !RefStart(s)
    ensures ResolveRefs(s) == [s[0]] + ResolveRefs(s[1..])
  {
  }

  /** A prefix holding no `]` is copied unchanged. */
  lemma ResolveRefsAvoid(a: string, t: string)
    requires ']' !in a
    ensures ResolveRefs(a + t) == a + ResolveRefs(t)
  {
    forall j | 0 <= j < |a| ensures !RefStart((a + t)[j..]) {
      assert (a + t)[j..][0] == a[j];
    }
    ResolveRefsSkip(a, t);
  }

  /** A string at none of whose positions a reference starts is left
      unchanged. */
  lemma ResolveRefsNoMatch(s: string)
    requires forall j :: 0 <= j < |s| ==> !RefStart(s[j..])
    ensures ResolveRefs(s) == s
  {
    assert s + [] == s;
    ResolveRefsSkip(s, []);
  }

  /** Text holding no `](!` is left unchanged. */
  lemma ResolveRefsNoMarker(s: string)
    requires !Occurs(s, RefOpen)
    ensures ResolveRefs(s) == s
  {
    forall j | 0 <= j < |s| ensures !RefStart(s[j..]) {
      if 3 <= |s[j..]| && s[j..][0] == ']' && s[j..][1] == '(' && s[j..][2] == '!' {
        assert OccursAt(s, RefOpen, j);
      }
    }
    ResolveRefsNoMatch(s);
  }

  /** Text holding no `)` is left unchanged: a `](!` that is never closed is
      not a reference. */
  lemma ResolveRefsUnclosed(s: string)
    requires ')' !in s
    ensures ResolveRefs(s) == s
  {
    forall j | 0 <= j < |s| ensures !RefStart(s[j..]) {
      if 3 <= |s[j..]| {
        var n := FirstIndex(s[j..][3..], ')');
      }
    }
    ResolveRefsNoMatch(s);
  }

  /** A `](!` that no later `)` closes is left untouched: a tail holding no
      `)` is copied, whatever precedes it. */
  lemma {:induction false} ResolveRefsUnclosedTail(a: string, t: string)
    requires ')' !in t
    ensures ResolveRefs(a + t) == ResolveRefs(a) + t
    decreases |a|
  {
    if a == [] {
      UnclosedAlone(a, t);
    } else {
      var k, out := HeadStep(a, t);
      var r := ResolveRefs(a[k..]);
      ResolveRefsUnclosedTail(a[k..], t);
      Reassociate(out, r, t);
    }
  }


  lemma UnclosedAlone(a: string, t: string)
    requires a == [] && ')' !in t
    ensures ResolveRefs(a + t) == ResolveRefs(a) + t
  {
    assert a + t == t;
    ResolveRefsUnclosed(t);
  }

  /** One step of the scan over `a` is the same with a tail holding no `)`
      after `a`: it emits the same text and resumes at the same index `k`. */
  lemma HeadStep(a: string, t: string) returns (k: nat, out: string)
    requires a != [] && ')' !in t
    ensures 0 < k <= |a|
    ensures ResolveRefs(a) == out + ResolveRefs(a[k..])
    ensures ResolveRefs(a + t) == out + ResolveRefs(a[k..] + t)
  {
    RefStartPrefix(a, t);
    if RefStart(a) {
      var n := FirstIndex(a[3..], ')');
      RefAtHead(a, n);
      RefAtHeadTail(a, t, n);
      k, out := n + 4, Link(a[3..3 + n]);
    } else {
      ResolveRefsCopy(a);
      CopyExtended(a, t);
      k, out := 1, [a[0]];
    }
  }

  /** Where no reference starts in front of a tail, the head of `a` is
      copied. */
  lemma CopyExtended(a: string, t: string)
    requires a != [] && !RefStart(a + t)
    ensures ResolveRefs(a + t) == [a[0]] + ResolveRefs(a[1..] + t)
  {
    var s := a + t;
    ResolveRefsCopy(s);
    assert s[1..] == a[1..] + t;
  }

  /** A reference at the head of `a` is resolved the same way with a tail
      after `a` that does not move its `)`. */
  lemma RefAtHeadTail(a: string, t: string, n: nat)
    requires RefStart(a + t) && n == FirstIndex((a + t)[3..], ')') && n + 4 <= |a|
    ensures ResolveRefs(a + t) == Link(a[3..3 + n]) + ResolveRefs(a[n + 4..] + t)
  {
    var s := a + t;
    RefAtHead(s, n);
    assert s[3..3 + n] == a[3..3 + n];
    assert s[n + 4..] == a[n + 4..] + t;
  }

  /** A reference at the head is resolved and scanning resumes after its
      `)`. */
  lemma RefAtHead(s: string, n: nat)
    requires RefStart(s) && n == FirstIndex(s[3..], ')')
    ensures n + 4 <= |s|
    ensures ResolveRefs(s) == Link(s[3..3 + n]) + ResolveRefs(s[n + 4..])
  {
  }


  /** A tail without `)` does not change whether, or where, a reference
      starting in front of it ends. */
  lemma RefStartPrefix(a: string, t: string)
    requires ')' !in t
    ensures RefStart(a + t) <==> RefStart(a)
    ensures RefStart(a) ==> FirstIndex((a + t)[3..], ')') == FirstIndex(a[3..], ')')
  {
    var s := a + t;
    if |a| >= 3 {
      var u, v := a[3..], s[3..];
      var m := FirstIndex(u, ')');
      assert v == u + t;
      if m < |u| {
        FirstIndexUnique(v, ')', m);
      } else {
        forall i | 0 <= i < |v| ensures v[i] != ')' {
          if i < |u| { assert u[..m][i] == u[i]; } else { assert v[i] == t[i - |u|]; }
        }
        FirstIndexUnique(v, ')', |v|);
      }
    } else if |s| >= 3 {
      var v := s[3..];
      forall i | 0 <= i < |v| ensures v[i] != ')' {
        assert v[i] == t[i + 3 - |a|];
      }
      FirstIndexUnique(v, ')', |v|);
    }
  }

  /** The first chapter reference `](!target)` becomes `](#anchor)`, and
      scanning resumes right after its `)`. */
  lemma ResolveRefsFirst(a: string, target: string, b: string)
    requires 0 < |target| && ')' !in target
    requires forall j :: 0 <= j < |a| ==> !RefStart((a + RefOpen + target + ")" + b)[j..])
    ensures ResolveRefs(a + RefOpen + target + ")" + b) == a + Link(target) + ResolveRefs(b)
  {
    var t := RefOpen + target + ")" + b;
    assert a + RefOpen + target + ")" + b == a + t;
    ResolveRefsSkip(a, t);
    ResolveRefsHere(target, b);
  }

  /** A reference at the very start is resolved and scanning resumes right
      after its `)`. */
  lemma ResolveRefsHere(target: string, b: string)
    requires 0 < |target| && ')' !in target
    ensures ResolveRefs(RefOpen + target + ")" + b) == Link(target) + ResolveRefs(b)
  {
    var t := RefOpen + target + ")" + b;
    assert t[3..] == target + [')'] + b;
    FirstIndexAfter(target, ')', b);
    assert RefStart(t);
    assert t[3..3 + |target|] == target;
    assert t[|target| + 4..] == b;
  }

  // ---------------------------------------------------------------------
  // The whole rewrite, in the source's order.

  /** The three literal substitutions, in the fixed order of the source. */
  function LinkPasses(text: string): string {
    var fixedImages := ReplaceAll(text, ImagesDir, RelativeImagesDir);
    var rasterised := ReplaceAll(fixedImages, SvgExt, PngExt);
    ReplaceAll(rasterised, RootLink, SiteLink)
  }

  /** The four substitutions in the fixed order of the source. */
  function Rewrite(text: string): string {
    ResolveRefs(LinkPasses(text))
  }

  /** Text holding none of the four patterns passes through unchanged. */
  lemma RewriteUnchanged(text: string)
    requires !Occurs(text, ImagesDir) && !Occurs(text, SvgExt)
    requires !Occurs(text, RootLink) && !Occurs(text, RefOpen)
    ensures Rewrite(text) == text
  {
    ReplaceAllNoOccurrence(text, ImagesDir, RelativeImagesDir);
    ReplaceAllNoOccurrence(text, SvgExt, PngExt);
    ReplaceAllNoOccurrence(text, RootLink, SiteLink);
    ResolveRefsNoMarker(text);
  }

  lemma RasterNoRescan()
    ensures NoRescan(SvgExt, PngExt)
  {
    assert PngExt[..4] != SvgExt by { assert PngExt[1] != SvgExt[1]; }
  }

  lemma SiteLinkNoRescan()
    ensures NoRescan(RootLink, SiteLink)
  {
    assert SiteLink[..3] != RootLink by { assert SiteLink[2] != RootLink[2]; }
    SiteLinkTail();
  }

  /** The site address holds no `]` after its first character. */
  lemma SiteLinkTail()
    ensures ']' !in SiteLink[1..]
  {
    var t := SiteLink[1..];
    forall i | 0 <= i < |t| ensures t[i] != ']' {
      assert t[i] == SiteLink[i + 1];
    }
  }

  /** After the second substitution no `.svg` is left anywhere. */
  lemma RasterisedHasNoSvg(text: string)
    ensures !Occurs(ReplaceAll(text, SvgExt, PngExt), SvgExt)
  {
    RasterNoRescan();
    ReplaceAllComplete(text, SvgExt, PngExt);
  }

  /** After the third substitution no root-relative link target is left. */
  lemma AbsoluteHasNoRootLink(text: string)
    ensures !Occurs(ReplaceAll(text, RootLink, SiteLink), RootLink)
  {
    SiteLinkNoRescan();
    ReplaceAllComplete(text, RootLink, SiteLink);
  }

  // ---------------------------------------------------------------------
  // The order of the substitutions, on the kinds of link the sources hold.

  /** A root-relative image link anywhere in a text, whatever follows it,
      loses its leading `/`; the text before and after the link is
      rewritten on its own, and the link is not made absolute. */
  lemma ImageLinkPasses(a: string, b: string)
    ensures LinkPasses(a + "](/images/" + b) == LinkPasses(a) + "](images/" + LinkPasses(b)
    ensures Rewrite(a + "](/images/" + b) == ResolveRefs(LinkPasses(a) + "](images/" + LinkPasses(b))
  {
    var a1, b1 := ReplaceAll(a, ImagesDir, RelativeImagesDir), ReplaceAll(b, ImagesDir, RelativeImagesDir);
    var a2, b2 := ReplaceAll(a1, SvgExt, PngExt), ReplaceAll(b1, SvgExt, PngExt);
    ImagesPassOnLinkIn(a, b);
    SvgPassOnRelativeLink(a1, b1);
    RootPassOnRelativeLink(a2, b2);
  }

  lemma ImagesPassOnLinkIn(a: string, b: string)
    ensures ReplaceAll(a + "](/images/" + b, ImagesDir, RelativeImagesDir)
         == ReplaceAll(a, ImagesDir, RelativeImagesDir) + "](images/"
            + ReplaceAll(b, ImagesDir, RelativeImagesDir)
  {
    var y := ImagesDir + b;
    var rb := ReplaceAll(b, ImagesDir, RelativeImagesDir);
    ImageLinkShape(a, b, rb);
    ReplaceAllCutAtBracket(a, "](" + y, ImagesDir, RelativeImagesDir);
    ReplaceAllAvoid("](", y, ImagesDir, RelativeImagesDir);
    ReplaceAllAtStart(ImagesDir, RelativeImagesDir, b);
    Reassociate(ReplaceAll(a, ImagesDir, RelativeImagesDir), "](images/", rb);
  }

  lemma ImageLinkShape(a: string, b: string, c: string)
    ensures a + "](/images/" + b == a + ("](" + (ImagesDir + b))
    ensures "](" + (RelativeImagesDir + c) == "](images/" + c
    ensures ']' !in ImagesDir[1..] && ("](" + (ImagesDir + b))[0] == ']' && ImagesDir[0] !in "]("
  {
    assert ImagesDir[1..] == "images/";
  }

  lemma SvgPassOnRelativeLink(a: string, b: string)
    ensures ReplaceAll(a + "](images/" + b, SvgExt, PngExt)
         == ReplaceAll(a, SvgExt, PngExt) + "](images/" + ReplaceAll(b, SvgExt, PngExt)
  {
    var m := "](images/";
    RelativeLinkShape(a, m, b);
    ReplaceAllCutAtBracket(a, m + b, SvgExt, PngExt);
    ReplaceAllAvoid(m, b, SvgExt, PngExt);
    Reassociate(ReplaceAll(a, SvgExt, PngExt), m, ReplaceAll(b, SvgExt, PngExt));
  }

  lemma RelativeLinkShape(a: string, m: string, b: string)
    requires m == "](images/"
    ensures a + m + b == a + (m + b) && (m + b)[0] == ']'
    ensures ']' !in SvgExt[1..] && SvgExt[0] !in m
    ensures ']' !in RootLink[1..] && m[2] != RootLink[2] && ']' !in m[1..]
  {
    assert RootLink[1..] == "(/";
    assert m[1..] == "(images/";
  }

  lemma RootPassOnRelativeLink(a: string, b: string)
    ensures ReplaceAll(a + "](images/" + b, RootLink, SiteLink)
         == ReplaceAll(a, RootLink, SiteLink) + "](images/" + ReplaceAll(b, RootLink, SiteLink)
  {
    var m := "](images/";
    RelativeLinkShape(a, m, b);
    RelativeLinkNotRoot(m, b);
    ReplaceAllCutAtBracket(a, m + b, RootLink, SiteLink);
    ReplaceAllKeepsOpening(m, b, RootLink, SiteLink);
    Reassociate(ReplaceAll(a, RootLink, SiteLink), m, ReplaceAll(b, RootLink, SiteLink));
  }

  lemma RelativeLinkNotRoot(m: string, b: string)
    requires m == "](images/"
    ensures !OccursAt(m + b, RootLink, 0) && RootLink[0] !in m[1..]
  {
    assert (m + b)[2] == m[2];
    assert m[1..] == "(images/";
  }

  /** A link opening at which the pattern does not start, and which holds
      the pattern's first character only at its head, is copied. */
  lemma ReplaceAllKeepsOpening(m: string, b: string, pat: string, rep: string)
    requires |pat| > 0 && m != [] && !OccursAt(m + b, pat, 0) && pat[0] !in m[1..]
    ensures ReplaceAll(m + b, pat, rep) == m + ReplaceAll(b, pat, rep)
  {
    var r := ReplaceAll(b, pat, rep);
    ConsTail(m, b);
    ReplaceAllNotAtHead(m[0], m[1..] + b, pat, rep);
    ReplaceAllAvoid(m[1..], b, pat, rep);
    ConsTail(m, r);
  }

  /** Any other root-relative link anywhere in a text, whatever follows it,
      is made absolute on the tutorial's site; the text before and after
      the link is rewritten on its own. */
  lemma OtherLinkPasses(a: string, b: string)
    requires !OccursAt(b, RelativeImagesDir, 0)
    ensures LinkPasses(a + "](/" + b) == LinkPasses(a) + SiteLink + LinkPasses(b)
    ensures Rewrite(a + "](/" + b) == ResolveRefs(LinkPasses(a) + SiteLink + LinkPasses(b))
  {
    var a1, b1 := ReplaceAll(a, ImagesDir, RelativeImagesDir), ReplaceAll(b, ImagesDir, RelativeImagesDir);
    var a2, b2 := ReplaceAll(a1, SvgExt, PngExt), ReplaceAll(b1, SvgExt, PngExt);
    ImagesPassOnOtherLink(a, b);
    SvgPassOnRootLink(a1, b1);
    RootPassOnRootLink(a2, b2);
  }

  lemma ImagesPassOnOtherLink(a: string, b: string)
    requires !OccursAt(b, RelativeImagesDir, 0)
    ensures ReplaceAll(a + "](/" + b, ImagesDir, RelativeImagesDir)
         == ReplaceAll(a, ImagesDir, RelativeImagesDir) + "](/"
            + ReplaceAll(b, ImagesDir, RelativeImagesDir)
  {
    var m := "](/";
    RootLinkShape(a, m, b);
    ReplaceAllCutAtBracket(a, m + b, ImagesDir, RelativeImagesDir);
    ReplaceAllAvoid(m[..2], m[2..] + b, ImagesDir, RelativeImagesDir);
    ImagesDirNotBefore(b);
    ReplaceAllNotAtHead('/', b, ImagesDir, RelativeImagesDir);
    Reassociate(ReplaceAll(a, ImagesDir, RelativeImagesDir), m, ReplaceAll(b, ImagesDir, RelativeImagesDir));
  }

  /** `/` in front of a text not starting with `images/` does not start
      `/images/`. */
  lemma ImagesDirNotBefore(b: string)
    requires !OccursAt(b, RelativeImagesDir, 0)
    ensures !OccursAt(['/'] + b, ImagesDir, 0)
  {
    if 8 <= |['/'] + b| {
      assert (['/'] + b)[1..8] == b[..7];
      assert ImagesDir[1..8] == RelativeImagesDir;
    }
  }

  lemma RootLinkShape(a: string, m: string, b: string)
    requires m == "](/"
    ensures a + m + b == a + (m + b) && (m + b)[0] == ']' && m == RootLink
    ensures m + b == m[..2] + (m[2..] + b) && m[..2] + (m[2..] + ReplaceAll(b, ImagesDir, RelativeImagesDir)) == m + ReplaceAll(b, ImagesDir, RelativeImagesDir)
    ensures m[2..] == ['/'] && ImagesDir[0] !in m[..2] && SvgExt[0] !in m
    ensures ']' !in ImagesDir[1..] && ']' !in SvgExt[1..] && ']' !in RootLink[1..]
  {
    assert ImagesDir[1..] == "images/";
    assert RootLink[1..] == "(/";
  }

  lemma SvgPassOnRootLink(a: string, b: string)
    ensures ReplaceAll(a + "](/" + b, SvgExt, PngExt)
         == ReplaceAll(a, SvgExt, PngExt) + "](/" + ReplaceAll(b, SvgExt, PngExt)
  {
    var m := "](/";
    RootLinkShape(a, m, b);
    ReplaceAllCutAtBracket(a, m + b, SvgExt, PngExt);
    ReplaceAllAvoid(m, b, SvgExt, PngExt);
    Reassociate(ReplaceAll(a, SvgExt, PngExt), m, ReplaceAll(b, SvgExt, PngExt));
  }

  lemma RootPassOnRootLink(a: string, b: string)
    ensures ReplaceAll(a + "](/" + b, RootLink, SiteLink)
         == ReplaceAll(a, RootLink, SiteLink) + SiteLink + ReplaceAll(b, RootLink, SiteLink)
  {
    var m := "](/";
    RootLinkShape(a, m, b);
    ReplaceAllCutAtBracket(a, m + b, RootLink, SiteLink);
    ReplaceAllAtStart(RootLink, SiteLink, b);
    Reassociate(ReplaceAll(a, RootLink, SiteLink), SiteLink, ReplaceAll(b, RootLink, SiteLink));
  }

  /** A root-relative image link loses its leading `/` in the first pass, so
      the third pass no longer sees `](/` and leaves it relative; its `.svg`
      becomes `.png`. */
  lemma ImageLinkStaysRelative(name: string)
    requires '/' !in name && '.' !in name && ']' !in name
    ensures Rewrite("](/images/" + name + ".svg)") == "](images/" + name + ".png)"
  {
    ImagesPassOnImageLink(name);
    SvgPassOnImageLink(name);
    RelativeImageLinkShape(name);
    LatePassesKeep("](images/" + name + ".png)");
  }

  lemma RelativeImageLinkShape(name: string)
    requires ']' !in name
    ensures var y := "](images/" + name + ".png)";
            |y| >= 3 && y[0] == ']' && y[1] == '(' && y[2] == 'i' && ']' !in y[1..]
  {
    var y := "](images/" + name + ".png)";
    assert y[1..] == "(images/" + name + ".png)";
    assert ']' !in "(images/" && ']' !in ".png)";
  }

  /** A link whose target starts with neither `/` nor `!`, and which holds
      no other `]`, passes the last two substitutions unchanged. */
  lemma LatePassesKeep(y: string)
    requires |y| >= 3 && y[0] == ']' && y[1] == '(' && y[2] != '/' && y[2] != '!'
    requires ']' !in y[1..]
    ensures ResolveRefs(ReplaceAll(y, RootLink, SiteLink)) == y
  {
    NotOccursPastHead(y, RootLink);
    ReplaceAllNoOccurrence(y, RootLink, SiteLink);
    NotOccursPastHead(y, RefOpen);
    ResolveRefsNoMarker(y);
  }

  lemma ImagesPassOnImageLink(name: string)
    requires '/' !in name
    ensures ReplaceAll("](/images/" + name + ".svg)", ImagesDir, RelativeImagesDir)
         == "](images/" + name + ".svg)"
  {
    ImageLinkParts(name);
    ReplaceAllOnce("](", ImagesDir, RelativeImagesDir, name + ".svg)");
  }

  lemma ImageLinkParts(name: string)
    requires '/' !in name
    ensures "](/images/" + name + ".svg)" == "](" + ImagesDir + (name + ".svg)")
    ensures "](images/" + name + ".svg)" == "](" + RelativeImagesDir + (name + ".svg)")
    ensures '/' !in "](" && '/' !in name + ".svg)"
  {
    assert '/' !in ".svg)";
  }

  lemma SvgPassOnImageLink(name: string)
    requires '.' !in name
    ensures ReplaceAll("](images/" + name + ".svg)", SvgExt, PngExt) == "](images/" + name + ".png)"
  {
    var a := "](images/" + name;
    SvgLinkParts(name);
    ReplaceAllOnce(a, SvgExt, PngExt, ")");
  }

  lemma SvgLinkParts(name: string)
    requires '.' !in name
    ensures "](images/" + name + ".svg)" == ("](images/" + name) + SvgExt + ")"
    ensures "](images/" + name + ".png)" == ("](images/" + name) + PngExt + ")"
    ensures '.' !in "](images/" + name
  {
    assert '.' !in "](images/";
  }

  /** A single occurrence, with the pattern's first character nowhere
      else, is replaced. */
  lemma ReplaceAllOnce(a: string, pat: string, rep: string, tail: string)
    requires |pat| > 0 && pat[0] !in a && pat[0] !in tail
    ensures ReplaceAll(a + pat + tail, pat, rep) == a + rep + tail
  {
    assert a + pat + tail == a + (pat + tail);
    ReplaceAllAvoid(a, pat + tail, pat, rep);
    ReplaceAllAtStart(pat, rep, tail);
    NotOccursMissing(tail, pat, pat[0]);
    ReplaceAllNoOccurrence(tail, pat, rep);
  }

  /** Any other root-relative link is made absolute on the tutorial's
      site. */
  lemma OtherLinkBecomesAbsolute(path: string)
    requires !Occurs("/" + path + ")", ImagesDir) && !Occurs(path + ")", SvgExt) && ']' !in path
    ensures Rewrite("](/" + path + ")") == SiteLink + path + ")"
  {
    var s := "](/" + path + ")";
    OtherLinkKeptByImagePasses(path);
    OtherLinkAbsolutized(path);
    SiteLinkTail();
    assert SiteLink[2] == 'h';
    LinkKeptByRefPass(SiteLink, path + ")");
    assert SiteLink + (path + ")") == SiteLink + path + ")";
  }

  /** A link opening that is not `](!` and holds no other `]`, followed by
      text without `]`, is left alone by the reference pass. */
  lemma LinkKeptByRefPass(a: string, rest: string)
    requires |a| >= 3 && a[2] != '!' && ']' !in a[1..] && ']' !in rest
    ensures ResolveRefs(a + rest) == a + rest
  {
    var z := a + rest;
    var t := a[1..] + rest;
    assert z[2] == a[2];
    ResolveRefsCopy(z);
    assert z[1..] == t + [];
    ResolveRefsAvoid(t, []);
    assert z == [z[0]] + t;
  }

  lemma OtherLinkKeptByImagePasses(path: string)
    requires !Occurs("/" + path + ")", ImagesDir) && !Occurs(path + ")", SvgExt)
    ensures ReplaceAll(ReplaceAll("](/" + path + ")", ImagesDir, RelativeImagesDir), SvgExt, PngExt)
         == "](/" + path + ")"
  {
    var s := "](/" + path + ")";
    assert s == "](" + ("/" + path + ")");
    ReplaceAllAvoid("](", "/" + path + ")", ImagesDir, RelativeImagesDir);
    ReplaceAllNoOccurrence("/" + path + ")", ImagesDir, RelativeImagesDir);
    assert s == "](/" + (path + ")");
    ReplaceAllAvoid("](/", path + ")", SvgExt, PngExt);
    ReplaceAllNoOccurrence(path + ")", SvgExt, PngExt);
  }

  lemma OtherLinkAbsolutized(path: string)
    requires ']' !in path
    ensures ReplaceAll("](/" + path + ")", RootLink, SiteLink) == SiteLink + (path + ")")
  {
    assert "](/" + path + ")" == RootLink + (path + ")");
    ReplaceAllAtStart(RootLink, SiteLink, path + ")");
    NotOccursMissing(path + ")", RootLink, ']');
    ReplaceAllNoOccurrence(path + ")", RootLink, SiteLink);
  }

  /** A reference `](!dirs/name)` resolves to the anchor of `name` alone. */
  lemma ChapterRefResolves(dirs: string, name: string, rest: string)
    requires '/' !in name && ')' !in dirs && ')' !in name
    ensures ResolveRefs(RefOpen + dirs + "/" + name + ")" + rest)
         == "](#" + Normalise(name) + ")" + ResolveRefs(rest)
  {
    var target := dirs + "/" + name;
    assert RefOpen + dirs + "/" + name + ")" + rest == RefOpen + target + ")" + rest;
    ResolveRefsHere(target, rest);
    AnchorOfPath(dirs, name);
  }

  /** Text ending in a chapter reference `](!/name)`, and otherwise free of
      the patterns, keeps everything but the reference, which becomes the
      anchor of `name`. */
  lemma RewriteTrailingRef(a: string, name: string)
    requires !Occurs(a + "](!/" + name + ")", ImagesDir) && !Occurs(a + "](!/" + name + ")", SvgExt)
    requires ']' !in a && ']' !in name && ')' !in name && '/' !in name
    ensures Rewrite(a + "](!/" + name + ")") == a + "](#" + Normalise(name) + ")"
  {
    var t := "](!/" + name + ")";
    var s := a + t;
    assert a + "](!/" + name + ")" == s;
    ReplaceAllNoOccurrence(s, ImagesDir, RelativeImagesDir);
    ReplaceAllNoOccurrence(s, SvgExt, PngExt);
    RootLinkPassSkipsRef(a, name);
    RefPassOnTrailingRef(a, name);
  }

  lemma RefPassOnTrailingRef(a: string, name: string)
    requires ']' !in a && ')' !in name && '/' !in name
    ensures ResolveRefs(a + ("](!/" + name + ")")) == a + "](#" + Normalise(name) + ")"
  {
    var target := "/" + name;
    TrailingRefParts(name);
    ResolveRefsAvoid(a, "](!/" + name + ")");
    ResolveRefsHere(target, "");
    AnchorOfRootPath(name);
  }

  lemma TrailingRefParts(name: string)
    requires ')' !in name
    ensures "](!/" + name + ")" == RefOpen + ("/" + name) + ")" + ""
    ensures 0 < |"/" + name| && ')' !in "/" + name
  {
    assert ')' !in "/";
  }

  /** A target `/name` resolves to the anchor of `name`. */
  lemma AnchorOfRootPath(name: string)
    requires '/' !in name
    ensures Anchor("/" + name) == Normalise(name)
  {
    assert "/" + name == "" + "/" + name;
    AnchorOfPath("", name);
  }

  /** The third pass keeps a chapter-reference opening `](!` anywhere in a
      text, whatever follows it; the text on either side of it is
      rewritten on its own. */
  lemma RootPassOnRefOpening(a: string, b: string)
    ensures ReplaceAll(a + "](!" + b, RootLink, SiteLink)
         == ReplaceAll(a, RootLink, SiteLink) + "](!" + ReplaceAll(b, RootLink, SiteLink)
  {
    var m := "](!";
    RefOpeningShape(a, m, b);
    ReplaceAllCutAtBracket(a, m + b, RootLink, SiteLink);
    ReplaceAllKeepsOpening(m, b, RootLink, SiteLink);
    Reassociate(ReplaceAll(a, RootLink, SiteLink), m, ReplaceAll(b, RootLink, SiteLink));
  }

  lemma RefOpeningShape(a: string, m: string, b: string)
    requires m == "](!"
    ensures a + m + b == a + (m + b) && (m + b)[0] == ']' && ']' !in RootLink[1..]
    ensures !OccursAt(m + b, RootLink, 0) && RootLink[0] !in m[1..]
  {
    assert (m + b)[2] == m[2];
    assert RootLink[1..] == "(/";
    assert m[1..] == "(!";
  }

  lemma RootLinkPassSkipsRef(a: string, name: string)
    requires ']' !in a && ']' !in name
    ensures ReplaceAll(a + ("](!/" + name + ")"), RootLink, SiteLink) == a + ("](!/" + name + ")")
  {
    var t := "](!/" + name + ")";
    ReplaceAllAvoid(a, t, RootLink, SiteLink);
    assert t[2] == '!';
    assert t[1..] == "(!/" + name + ")";
    NotOccursPastHead(t, RootLink);
    ReplaceAllNoOccurrence(t, RootLink, SiteLink);
  }

  /** For example, `](!/2_Setup)` resolves to `](#2-setup)`. */
  lemma SetupAnchorExample(target: string)
    requires target == "/2_Setup"
    ensures Anchor(target) == "2-setup"
  {
    var name := target[1..];
    assert name == "2_Setup";
    assert target == "" + "/" + name;
    AnchorOfPath("", name);
    NormaliseIs(name, "2-setup");
  }

  /** For example, `](!/path/to/Some_Chapter)` resolves to
      `](#some-chapter)`. */
  lemma SomeChapterExample(target: string)
    requires target == "/path/to/Some_Chapter"
    ensures Anchor(target) == "some-chapter"
  {
    var dirs, name := target[..8], target[9..];
    assert target == dirs + "/" + name;
    assert name == "Some_Chapter";
    AnchorOfPath(dirs, name);
    SomeChapterNormalised(name);
  }

  lemma SomeChapterNormalised(name: string)
    requires name == "Some_Chapter"
    ensures Normalise(name) == "some-chapter"
  {
    NormaliseIs(name, "some-chapter");
  }

  /** `](!)` has an empty target and is not a reference: it is copied. */
  lemma EmptyTargetKept(t: string)
    ensures ResolveRefs(RefOpen + ")" + t) == RefOpen + ")" + ResolveRefs(t)
  {
    var s := RefOpen + ")" + t;
    assert s[3..][0] == ')';
    ResolveRefsCopy(s);
    assert s[1..] == "(!)" + t;
    ResolveRefsAvoid("(!)", t);
  }
}
