/** The naming convention of content entries, `<ordering-token>[_<word>]*`:
    the stem, with underscores turned into spaces, is split on single
    spaces; the first token is the ordering token and the remaining tokens,
    rejoined with spaces, are the title (build_ebook_v2.py, lines 188-189
    and 198). */
module Naming {
  import opened Strings

  /** The stem with every underscore turned into a space. */
  function Spaced(stem: string): string {
    ReplaceChar(stem, '_', ' ')
  }

  /** The `title_tokens` of an entry. */
  function TitleTokens(stem: string): (r: seq<string>)
    ensures |r| >= 1
  {
    Split(Spaced(stem), ' ')
  }

  /** The ordering token: the longest prefix of the stem that holds neither
      an underscore nor a space. */
  function OrderingToken(stem: string): (tok: string)
    ensures |tok| <= |stem| && tok == stem[..|tok|]
    ensures forall i :: 0 <= i < |tok| ==> tok[i] != '_' && tok[i] != ' '
    ensures |tok| < |stem| ==> stem[|tok|] == '_' || stem[|tok|] == ' '
  {
    var u := Spaced(stem);
    var k := FirstIndex(u, ' ');
    ReplaceCharAt(stem, '_', ' ');
    assert forall i :: 0 <= i < k ==> u[..k][i] == u[i];
    assert u[..k] == stem[..k];
    TitleTokens(stem)[0]
  }

  /** The display title of a file entry. */
  function Title(stem: string): string {
    Join(TitleTokens(stem)[1..], ' ')
  }

  /** The sort prefix of a child entry: its parent's prefix, then its own
      ordering token, then a dot. */
  function ChildPrefix(parentPrefix: string, stem: string): (p: string)
    ensures |p| > |parentPrefix| && p[..|parentPrefix|] == parentPrefix
    ensures p[|p| - 1] == '.'
  {
    parentPrefix + OrderingToken(stem) + "."
  }

  /** The title is everything after the first separator of the stem, with
      underscores shown as spaces; a stem with no separator has an empty
      title. Rejoining with single spaces keeps doubled separators, so
      nothing of the stem but the ordering token and one separator is lost. */
  lemma TitleIsRemainder(stem: string)
    ensures |OrderingToken(stem)| == |stem| ==> Title(stem) == ""
    ensures |OrderingToken(stem)| < |stem| ==>
              Title(stem) == Spaced(stem[|OrderingToken(stem)| + 1..])
    ensures |OrderingToken(stem)| < |stem| ==>
              Spaced(stem) == OrderingToken(stem) + " " + Title(stem)
  {
    var u := Spaced(stem);
    var k := FirstIndex(u, ' ');
    TokenIsFirstPart(stem);
    JoinTail(u, ' ');
    assert Title(stem) == Join(Split(u, ' ')[1..], ' ');
    if k < |u| {
      SpacedSuffix(stem, k + 1);
      assert u == u[..k] + " " + u[k + 1..];
    }
  }

  /** The ordering token is the spaced stem up to its first space. */
  lemma TokenIsFirstPart(stem: string)
    ensures OrderingToken(stem) == Spaced(stem)[..FirstIndex(Spaced(stem), ' ')]
    ensures |OrderingToken(stem)| == FirstIndex(Spaced(stem), ' ')
  {
    assert OrderingToken(stem) == Split(Spaced(stem), ' ')[0];
  }

  /** Turning underscores into spaces commutes with taking a suffix. */
  lemma SpacedSuffix(stem: string, i: nat)
    requires i <= |stem|
    ensures Spaced(stem)[i..] == Spaced(stem[i..])
  {
    ReplaceCharAt(stem, '_', ' ');
    ReplaceCharAt(stem[i..], '_', ' ');
  }

  /** An entry named by its ordering token alone has that token as its
      ordering token and an empty title. */
  lemma BareTokenHasEmptyTitle(token: string)
    requires '_' !in token && ' ' !in token
    ensures OrderingToken(token) == token
    ensures Title(token) == ""
  {
    TitleIsRemainder(token);
  }

  /** A stem made of an ordering token, a separator and a remainder has that
      token as its ordering token and the remainder as its title. */
  lemma TokenThenRemainder(token: string, sep: char, rest: string)
    requires '_' !in token && ' ' !in token
    requires sep == '_' || sep == ' '
    ensures OrderingToken(token + [sep] + rest) == token
    ensures Title(token + [sep] + rest) == Spaced(rest)
  {
    var stem := token + [sep] + rest;
    var tok := OrderingToken(stem);
    assert stem[|token|] == sep;
    assert |tok| == |token|;
    assert stem[..|token|] == token;
    TitleIsRemainder(stem);
    assert stem[|token| + 1..] == rest;
  }

  /** A stem part without underscores is shown as it is. */
  lemma SpacedNoUnderscore(s: string)
    requires '_' !in s
    ensures Spaced(s) == s
  {
    ReplaceCharAt(s, '_', ' ');
  }

  /** Turning underscores into spaces distributes over concatenation. */
  lemma SpacedConcat(a: string, b: string)
    ensures Spaced(a + b) == Spaced(a) + Spaced(b)
  {
    ReplaceCharConcat(a, b, '_', ' ');
  }

  /** An entry named `<token>_<word1>_<word2>` has title `"<word1> <word2>"`
      (underscores inside the last part become spaces as well). */
  lemma TwoWordTitle(token: string, word1: string, word2: string)
    requires '_' !in token && ' ' !in token
    requires '_' !in word1
    ensures OrderingToken(token + "_" + word1 + "_" + word2) == token
    ensures Title(token + "_" + word1 + "_" + word2) == word1 + " " + Spaced(word2)
  {
    var rest := word1 + "_" + word2;
    assert token + "_" + word1 + "_" + word2 == token + ['_'] + rest;
    TokenThenRemainder(token, '_', rest);
    SpacedConcat(word1 + "_", word2);
    SpacedConcat(word1, "_");
    ReplaceCharAt(word1, '_', ' ');
    assert Spaced(word1) == word1;
  }
}
