/** `generate_markdown_from_sources` (build_ebook_v2.py, lines 142-169):
    walk the content tree, sort the fragments by prefix, and join them into
    one Markdown document, each as a heading and its content passed through
    the four substitutions and followed by a blank line. The returned string
    stands for the file the source writes. */
module Assembly {
  import opened Strings
  import opened Walk
  import opened Ordering
  import opened Rewriting

  /** The heading a fragment's title becomes. */
  function Heading(title: string): string {
    "# " + title + "\n\n"
  }

  /** What one fragment adds to the document. The heading is put in front of
      the content before the substitutions run, so they apply to the title
      as well. */
  function Section(f: Fragment): string {
    Rewrite(Heading(f.title) + f.content) + "\n\n"
  }

  /** `g` applied to every element of `xs`, in order. */
  function Map<X, Y>(g: X -> Y, xs: seq<X>): (r: seq<Y>)
    ensures |r| == |xs|
    ensures forall i :: 0 <= i < |xs| ==> r[i] == g(xs[i])
  {
    if xs == [] then [] else Map(g, xs[..|xs| - 1]) + [g(xs[|xs| - 1])]
  }

  /** The strings of `ss` run together, as `+=` builds them up. */
  function Concat(ss: seq<string>): string {
    if ss == [] then "" else Concat(ss[..|ss| - 1]) + ss[|ss| - 1]
  }

  /** The document made of the sections of `fs`, in order. */
  function Document(fs: seq<Fragment>): string {
    Concat(Map(Section, fs))
  }

  lemma {:induction false} MapAppend<X, Y>(g: X -> Y, a: seq<X>, b: seq<X>)
    ensures Map(g, a + b) == Map(g, a) + Map(g, b)
    decreases |b|
  {
    if b == [] {
      assert a + b == a;
    } else {
      var c := a + b;
      assert c[..|c| - 1] == a + b[..|b| - 1];
      MapAppend(g, a, b[..|b| - 1]);
    }
  }

  lemma {:induction false} ConcatAppend(a: seq<string>, b: seq<string>)
    ensures Concat(a + b) == Concat(a) + Concat(b)
    decreases |b|
  {
    if b == [] {
      assert a + b == a;
    } else {
      var c := a + b;
      assert c[..|c| - 1] == a + b[..|b| - 1];
      ConcatAppend(a, b[..|b| - 1]);
    }
  }

  /** The document of a concatenation is the concatenation of the documents. */
  lemma DocumentAppend(a: seq<Fragment>, b: seq<Fragment>)
    ensures Document(a + b) == Document(a) + Document(b)
  {
    MapAppend(Section, a, b);
    ConcatAppend(Map(Section, a), Map(Section, b));
  }

  /** The document starts with the first fragment's section. */
  lemma DocumentFirst(fs: seq<Fragment>)
    requires fs != []
    ensures Document(fs) == Section(fs[0]) + Document(fs[1..])
  {
    assert fs == [fs[0]] + fs[1..];
    DocumentAppend([fs[0]], fs[1..]);
    assert Map(Section, [fs[0]]) == [Section(fs[0])];
    assert Concat([Section(fs[0])]) == Section(fs[0]);
  }

  /** A section whose heading and content hold none of the four patterns is
      the heading, the content and a blank line, unchanged. */
  lemma SectionUnchanged(f: Fragment)
    requires var text := Heading(f.title) + f.content;
             !Occurs(text, ImagesDir) && !Occurs(text, SvgExt)
             && !Occurs(text, RootLink) && !Occurs(text, RefOpen)
    ensures Section(f) == "# " + f.title + "\n\n" + f.content + "\n\n"
  {
    RewriteUnchanged(Heading(f.title) + f.content);
  }

  /** Every section starts with `# ` and ends with a blank line: nothing
      in it can turn the heading mark into a match. */
  lemma SectionShape(f: Fragment)
    ensures |Section(f)| >= 4
    ensures Section(f)[..2] == "# " && Section(f)[|Section(f)| - 2..] == "\n\n"
  {
    var rest := f.title + "\n\n" + f.content;
    var text := "# " + rest;
    assert Heading(f.title) + f.content == text;
    ReplaceAllAvoid("# ", rest, ImagesDir, RelativeImagesDir);
    var r1 := ReplaceAll(rest, ImagesDir, RelativeImagesDir);
    ReplaceAllAvoid("# ", r1, SvgExt, PngExt);
    var r2 := ReplaceAll(r1, SvgExt, PngExt);
    ReplaceAllAvoid("# ", r2, RootLink, SiteLink);
    var r3 := ReplaceAll(r2, RootLink, SiteLink);
    ResolveRefsAvoid("# ", r3);
    assert Rewrite(text) == "# " + ResolveRefs(r3);
  }

  /** `generate_markdown_from_sources`: the walk from the root at depth 0
      with an empty prefix, the stable sort by prefix, and the loop that
      appends each fragment's rewritten section to the document. */
  method GenerateMarkdownFromSources(root: seq<Entry>) returns (markdown: string)
    ensures markdown == Document(SortByPrefix(Fragments(root, 0, "")))
  {
    var mdFiles := ProcessFilesInDirectory(root, 0, "", null);
    assert mdFiles.items == Fragments(root, 0, "");
    var sorted := SortByPrefix(mdFiles.items);
    markdown := "";
    for i := 0 to |sorted|
      invariant markdown == Document(sorted[..i])
    {
      var entry := sorted[i];
      var content := "# " + entry.title + "\n\n" + entry.content;
      content := ReplaceAll(content, ImagesDir, RelativeImagesDir);
      content := ReplaceAll(content, SvgExt, PngExt);
      content := ReplaceAll(content, RootLink, SiteLink);
      content := ResolveRefs(content);
      assert "# " + entry.title + "\n\n" + entry.content == Heading(entry.title) + entry.content;
      assert content + "\n\n" == Section(entry);
      markdown := markdown + content + "\n\n";
      DocumentStep(sorted, i);
    }
    assert sorted[..|sorted|] == sorted;
  }

  /** One more fragment adds its section at the end. */
  lemma DocumentStep(fs: seq<Fragment>, i: nat)
    requires i < |fs|
    ensures Document(fs[..i + 1]) == Document(fs[..i]) + Section(fs[i])
  {
    assert fs[..i + 1][..i] == fs[..i];
  }

  /** The document holds one section per file of the tree, in prefix order;
      files sharing a prefix appear in the order the walk found them. */
  lemma DocumentOfTree(root: seq<Entry>)
    ensures var fs := SortByPrefix(Fragments(root, 0, ""));
            |fs| == |Leaves(root)| && multiset(fs) == multiset(Fragments(root, 0, ""))
            && SortedByPrefix(fs)
            && forall p :: WithPrefix(fs, p) == WithPrefix(Fragments(root, 0, ""), p)
  {
    var ws := Fragments(root, 0, "");
    FragmentsFollowPaths(root, 0, "");
    SortPermutes(ws);
    SortSorts(ws);
    forall p ensures WithPrefix(SortByPrefix(ws), p) == WithPrefix(ws, p) {
      SortStable(ws, p);
    }
    assert |SortByPrefix(ws)| == |multiset(SortByPrefix(ws))| == |multiset(ws)| == |ws|;
  }

  /** When no two files share a prefix, the document does not depend on the
      order in which the directories list their entries. */
  lemma DocumentIgnoresListingOrder(s: seq<Fragment>, t: seq<Fragment>)
    requires multiset(s) == multiset(t) && DistinctPrefixes(s)
    ensures Document(SortByPrefix(s)) == Document(SortByPrefix(t))
  {
    SortIgnoresInputOrder(s, t);
  }
}
