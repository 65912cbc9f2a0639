/** A worked example of the whole assembly: a root holding
    `1_Introduction.md`, which refers to the chapter `/2_Setup`, and a
    directory `2_Setup` holding `1_Install.md`. The document has the
    introduction first, its reference resolved to the anchor of the last
    path segment, then the install chapter. */
module Scenario {
  import opened Strings
  import opened Naming
  import opened Walk
  import opened Ordering
  import opened Rewriting
  import opened Assembly

  /** The content tree of the example (stems without their `.md`). */
  predicate IsExampleTree(root: seq<Entry>) {
    root == [File("1_Introduction", "Hello [there](!/2_Setup)"),
             Dir("2_Setup", [File("1_Install", "Install steps.")])]
  }

  /** The assembled document of the example tree. */
  lemma ExampleDocument(root: seq<Entry>)
    requires IsExampleTree(root)
    ensures Document(SortByPrefix(Fragments(root, 0, "")))
         == Heading("Introduction") + "Hello [there](#2-setup)" + "\n\n"
            + Heading("Install") + "Install steps." + "\n\n"
  {
    var intro := Fragment(root[0].content, 0, "1.", "Introduction");
    var install := Fragment(root[1].children[0].content, 1, "2.1.", "Install");
    ExampleFragments(root);
    ExampleDocumentOf(intro, install);
  }

  lemma ExampleDocumentOf(intro: Fragment, install: Fragment)
    requires intro == Fragment("Hello [there](!/2_Setup)", 0, "1.", "Introduction")
    requires install == Fragment("Install steps.", 1, "2.1.", "Install")
    ensures Document(SortByPrefix([intro, install]))
         == Heading("Introduction") + "Hello [there](#2-setup)" + "\n\n"
            + Heading("Install") + "Install steps." + "\n\n"
  {
    PrefixOrder(intro.prefix, install.prefix);
    SortOfTwo(intro, install);
    DocumentOfTwo(intro, install);
    IntroSection(intro);
    InstallSection(install);
  }

  lemma PrefixOrder(p: string, q: string)
    requires p == "1." && q == "2.1."
    ensures LexLe(p, q)
  {
  }

  /** Two fragments already in prefix order stay in that order. */
  lemma SortOfTwo(f: Fragment, g: Fragment)
    requires LexLe(f.prefix, g.prefix)
    ensures SortByPrefix([f, g]) == [f, g]
  {
    SortedIsFixed([f, g]);
  }

  lemma DocumentOfTwo(f: Fragment, g: Fragment)
    ensures Document([f, g]) == Section(f) + Section(g)
  {
    DocumentFirst([f, g]);
    DocumentFirst([g]);
    assert [f, g][1..] == [g];
    assert [g][1..] == [];
  }

  /** The walk of the example tree finds the introduction at depth 0 and the
      install chapter at depth 1, below the prefix of `2_Setup`. */
  lemma ExampleFragments(root: seq<Entry>)
    requires IsExampleTree(root)
    ensures Fragments(root, 0, "")
         == [Fragment(root[0].content, 0, "1.", "Introduction"),
             Fragment(root[1].children[0].content, 1, "2.1.", "Install")]
  {
    var s1, c1, s2, s3, c3 := root[0].stem, root[0].content, root[1].stem,
                              root[1].children[0].stem, root[1].children[0].content;
    assert root == [File(s1, c1), Dir(s2, [File(s3, c3)])];
    WalkOfTwo(s1, c1, s2, s3, c3);
    ExampleNames(s1, s2, s3);
  }

  /** The walk of a file followed by a directory holding one file. */
  lemma WalkOfTwo(s1: string, c1: string, s2: string, s3: string, c3: string)
    ensures Fragments([File(s1, c1), Dir(s2, [File(s3, c3)])], 0, "")
         == [Fragment(c1, 0, ChildPrefix("", s1), Title(s1)),
             Fragment(c3, 1, ChildPrefix(ChildPrefix("", s2), s3), Title(s3))]
  {
    var root := [File(s1, c1), Dir(s2, [File(s3, c3)])];
    var inner := [File(s3, c3)];
    var p2 := ChildPrefix("", s2);
    assert inner[1..] == [];
    assert Fragments(inner, 1, p2) == EntryFragments(File(s3, c3), 1, p2);
    assert EntryFragments(Dir(s2, inner), 0, "") == Fragments(inner, 1, p2);
    assert root[1..] == [Dir(s2, inner)];
    assert root[1..][1..] == [];
    assert Fragments(root[1..], 0, "") == EntryFragments(Dir(s2, inner), 0, "");
  }

  /** The three stems of the example tree, taken apart. */
  lemma ExampleNames(s1: string, s2: string, s3: string)
    requires s1 == "1_Introduction" && s2 == "2_Setup" && s3 == "1_Install"
    ensures ChildPrefix("", s1) == "1." && Title(s1) == "Introduction"
    ensures ChildPrefix("", s2) == "2."
    ensures ChildPrefix("2.", s3) == "2.1." && Title(s3) == "Install"
  {
    NameParts("", s1, 1);
    NameParts("", s2, 1);
    NameParts("2.", s3, 1);
  }

  /** A stem `<token>_<word>` whose token holds no separator and whose word
      holds no underscore. */
  lemma NameParts(parentPrefix: string, stem: string, k: nat)
    requires k < |stem| && stem[k] == '_'
    requires '_' !in stem[..k] && ' ' !in stem[..k] && '_' !in stem[k + 1..]
    ensures ChildPrefix(parentPrefix, stem) == parentPrefix + stem[..k] + "."
    ensures Title(stem) == stem[k + 1..]
  {
    assert stem == stem[..k] + ['_'] + stem[k + 1..];
    TokenThenRemainder(stem[..k], '_', stem[k + 1..]);
    SpacedNoUnderscore(stem[k + 1..]);
  }

  /** The introduction's reference becomes an in-page link. */
  lemma IntroSection(f: Fragment)
    requires f.title == "Introduction" && f.content == "Hello [there](!/2_Setup)"
    ensures Section(f) == Heading(f.title) + "Hello [there](#2-setup)" + "\n\n"
  {
    var b, name := f.content[..12], f.content[16..23];
    IntroPieces(f);
    TrailingRefSection(f, Heading(f.title) + b, name);
    NormaliseIs(name, "2-setup");
    IntroLink(Heading(f.title), b, Normalise(name));
  }

  /** The introduction's text is its heading and `Hello [there`, then a
      reference to `/2_Setup`. */
  lemma IntroPieces(f: Fragment)
    requires f.title == "Introduction" && f.content == "Hello [there](!/2_Setup)"
    ensures var b, name := f.content[..12], f.content[16..23];
            Heading(f.title) + f.content == (Heading(f.title) + b) + "](!/" + name + ")"
            && b == "Hello [there" && name == "2_Setup"
            && 'g' !in Heading(f.title) + b && 'v' !in Heading(f.title) + b
            && ']' !in Heading(f.title) + b
            && 'g' !in name && 'v' !in name && ']' !in name && ')' !in name && '/' !in name
  {
    var c := f.content;
    var b, name := c[..12], c[16..23];
    IntroParts(c);
    IntroTitleChars(f.title);
    HeadLacks(b, 'g');
    HeadLacks(b, 'v');
    HeadLacks(b, ']');
    NameChars(name);
  }

  lemma IntroParts(c: string)
    requires c == "Hello [there](!/2_Setup)"
    ensures c == c[..12] + "](!/" + c[16..23] + ")"
    ensures c[..12] == "Hello [there" && c[16..23] == "2_Setup"
  {
  }

  lemma IntroTitleChars(title: string)
    requires title == "Introduction"
    ensures 'g' !in Heading(title) && 'v' !in Heading(title) && ']' !in Heading(title)
  {
  }

  lemma HeadLacks(b: string, c: char)
    requires b == "Hello [there"
    requires c == 'g' || c == 'v' || c == ']'
    ensures c !in b
  {
  }

  lemma NameChars(name: string)
    requires name == "2_Setup"
    ensures 'g' !in name && 'v' !in name && ']' !in name && ')' !in name && '/' !in name
  {
  }

  lemma IntroLink(h: string, b: string, anchor: string)
    requires b == "Hello [there" && anchor == "2-setup"
    ensures h + b + "](#" + anchor + ")" + "\n\n" == h + "Hello [there](#2-setup)" + "\n\n"
  {
    assert b + "](#" + anchor + ")" == "Hello [there](#2-setup)";
  }

  /** A section whose text ends in a chapter reference to `/name` and holds
      no `g`, `v` or other `]`. */
  lemma TrailingRefSection(f: Fragment, a: string, name: string)
    requires Heading(f.title) + f.content == a + "](!/" + name + ")"
    requires 'g' !in a && 'v' !in a && ']' !in a
    requires 'g' !in name && 'v' !in name && ']' !in name && ')' !in name && '/' !in name
    ensures Section(f) == a + "](#" + Normalise(name) + ")" + "\n\n"
  {
    var text := a + "](!/" + name + ")";
    NotOccursMissing(text, ImagesDir, 'g');
    NotOccursMissing(text, SvgExt, 'v');
    RewriteTrailingRef(a, name);
  }

  /** The install chapter holds none of the patterns and is kept as it is. */
  lemma InstallSection(f: Fragment)
    requires f.title == "Install" && f.content == "Install steps."
    ensures Section(f) == Heading(f.title) + f.content + "\n\n"
  {
    InstallChars(f.title, f.content);
    PlainText(Heading(f.title) + f.content);
    SectionUnchanged(f);
  }

  lemma InstallChars(title: string, content: string)
    requires title == "Install" && content == "Install steps."
    ensures '/' !in Heading(title) + content && 'v' !in Heading(title) + content
    ensures ']' !in Heading(title) + content
  {
  }

  /** Text without `/`, `v` and `]` holds none of the four patterns. */
  lemma PlainText(text: string)
    requires '/' !in text && 'v' !in text && ']' !in text
    ensures !Occurs(text, ImagesDir) && !Occurs(text, SvgExt)
    ensures !Occurs(text, RootLink) && !Occurs(text, RefOpen)
  {
    NotOccursMissing(text, ImagesDir, '/');
    NotOccursMissing(text, SvgExt, 'v');
    NotOccursMissing(text, RootLink, ']');
    NotOccursMissing(text, RefOpen, ']');
  }
}
