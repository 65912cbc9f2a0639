/** The chapter fragments and the depth-first directory walk that collects
    them (`VTEMarkdownFile` and `_process_files_in_directory` of
    build_ebook_v2.py). The content tree is given in memory: an entry's stem
    is taken as given and the children of a directory are listed in
    whatever order the file system reports them. */
module Walk {
  import opened Naming

  /** One discovered content file: its text, the number of directories
      between the walk root and the file, its sort prefix and its title. */
  datatype Fragment = Fragment(content: string, depth: int, prefix: string, title: string)

  /** An entry of the content tree. */
  datatype Entry =
    | File(stem: string, content: string)
    | Dir(stem: string, children: seq<Entry>)

  /** The fragments a walk of `listing` appends, in the order it appends
      them. */
  function Fragments(listing: seq<Entry>, depth: int, parentPrefix: string): seq<Fragment>
    decreases listing
  {
    if listing == [] then []
    else EntryFragments(listing[0], depth, parentPrefix) + Fragments(listing[1..], depth, parentPrefix)
  }

  /** The fragments one entry of a directory at `depth` contributes: a file
      yields one, a directory only passes `depth + 1` and its own prefix on
      to its children. */
  function EntryFragments(entry: Entry, depth: int, parentPrefix: string): seq<Fragment>
    decreases entry
  {
    var prefix := ChildPrefix(parentPrefix, entry.stem);
    match entry
    case File(stem, content) => [Fragment(content, depth, prefix, Title(stem))]
    case Dir(_, children) => Fragments(children, depth + 1, prefix)
  }

  /** Walking a listing piece by piece appends what walking it at once does. */
  lemma {:induction false} FragmentsAppend(a: seq<Entry>, b: seq<Entry>, depth: int, parentPrefix: string)
    ensures Fragments(a + b, depth, parentPrefix)
         == Fragments(a, depth, parentPrefix) + Fragments(b, depth, parentPrefix)
    decreases a
  {
    if a == [] {
      assert a + b == b;
    } else {
      assert (a + b)[0] == a[0];
      assert (a + b)[1..] == a[1..] + b;
      FragmentsAppend(a[1..], b, depth, parentPrefix);
    }
  }

  /** One more entry of the listing contributes its own fragments. */
  lemma FragmentsStep(listing: seq<Entry>, i: nat, depth: int, parentPrefix: string)
    requires i < |listing|
    ensures Fragments(listing[..i + 1], depth, parentPrefix)
         == Fragments(listing[..i], depth, parentPrefix) + EntryFragments(listing[i], depth, parentPrefix)
  {
    assert listing[..i + 1] == listing[..i] + [listing[i]];
    assert Fragments([listing[i]], depth, parentPrefix) == EntryFragments(listing[i], depth, parentPrefix);
    FragmentsAppend(listing[..i], [listing[i]], depth, parentPrefix);
  }

  // ---------------------------------------------------------------------
  // An independent description of the walk: list the files of the tree,
  // each with the stems of the directories that enclose it, and derive
  // every fragment from its file's path.

  /** A file of the tree together with the stems of its enclosing
      directories, outermost first. */
  datatype Leaf = Leaf(dirs: seq<string>, stem: string, content: string)

  /** Every file of the tree, once each, in depth-first listing order. */
  function Leaves(listing: seq<Entry>): seq<Leaf>
    decreases listing
  {
    if listing == [] then [] else EntryLeaves(listing[0]) + Leaves(listing[1..])
  }

  /** The files at or below one entry. */
  function EntryLeaves(entry: Entry): seq<Leaf>
    decreases entry
  {
    match entry
    case File(stem, content) => [Leaf([], stem, content)]
    case Dir(stem, children) => Nest(stem, Leaves(children))
  }

  /** The leaves of a sub-directory seen from its parent. */
  function Nest(dirStem: string, leaves: seq<Leaf>): (r: seq<Leaf>)
    ensures |r| == |leaves|
    ensures forall i :: 0 <= i < |r| ==>
              r[i] == Leaf([dirStem] + leaves[i].dirs, leaves[i].stem, leaves[i].content)
  {
    if leaves == [] then []
    else [Leaf([dirStem] + leaves[0].dirs, leaves[0].stem, leaves[0].content)] + Nest(dirStem, leaves[1..])
  }

  /** The prefix reached from `parentPrefix` by descending through entries
      with the given stems. */
  function PathPrefix(parentPrefix: string, stems: seq<string>): string
    decreases |stems|
  {
    if stems == [] then parentPrefix
    else PathPrefix(ChildPrefix(parentPrefix, stems[0]), stems[1..])
  }

  /** The fragment a file at the given path yields. */
  function FragmentOf(leaf: Leaf, depth: int, parentPrefix: string): Fragment {
    Fragment(leaf.content, depth + |leaf.dirs|,
             PathPrefix(parentPrefix, leaf.dirs + [leaf.stem]), Title(leaf.stem))
  }

  /** The walk yields exactly one fragment per file of the tree, in listing
      order; each fragment carries its file's content and title, a depth of
      the starting depth plus the number of enclosing directories, and the
      prefix chaining the ordering tokens along its path. */
  lemma {:induction false} FragmentsFollowPaths(listing: seq<Entry>, depth: int, parentPrefix: string)
    ensures |Fragments(listing, depth, parentPrefix)| == |Leaves(listing)|
    ensures forall i :: 0 <= i < |Leaves(listing)| ==>
              Fragments(listing, depth, parentPrefix)[i] == FragmentOf(Leaves(listing)[i], depth, parentPrefix)
    decreases listing
  {
    if listing != [] {
      FragmentsFollowPaths(listing[1..], depth, parentPrefix);
      EntryFollowsPaths(listing[0], depth, parentPrefix);
      var head, rest := EntryFragments(listing[0], depth, parentPrefix), Fragments(listing[1..], depth, parentPrefix);
      var headLeaves, restLeaves := EntryLeaves(listing[0]), Leaves(listing[1..]);
      forall i | 0 <= i < |headLeaves| + |restLeaves|
        ensures (head + rest)[i] == FragmentOf((headLeaves + restLeaves)[i], depth, parentPrefix)
      {
        if i >= |head| {
          assert (head + rest)[i] == rest[i - |head|];
          assert (headLeaves + restLeaves)[i] == restLeaves[i - |head|];
        }
      }
    }
  }

  /** `FragmentsFollowPaths` for the entries below one entry. */
  lemma {:induction false} EntryFollowsPaths(entry: Entry, depth: int, parentPrefix: string)
    ensures |EntryFragments(entry, depth, parentPrefix)| == |EntryLeaves(entry)|
    ensures forall i :: 0 <= i < |EntryLeaves(entry)| ==>
              EntryFragments(entry, depth, parentPrefix)[i] == FragmentOf(EntryLeaves(entry)[i], depth, parentPrefix)
    decreases entry
  {
    var prefix := ChildPrefix(parentPrefix, entry.stem);
    match entry
    case File(stem, content) =>
      assert [] + [stem] == [stem];
      assert PathPrefix(parentPrefix, [stem]) == prefix;
    case Dir(stem, children) =>
      FragmentsFollowPaths(children, depth + 1, prefix);
      var inner := Leaves(children);
      forall i | 0 <= i < |inner|
        ensures FragmentOf(inner[i], depth + 1, prefix)
             == FragmentOf(Nest(stem, inner)[i], depth, parentPrefix)
      {
        NestedFragment(stem, inner[i], depth, parentPrefix);
      }
  }

  /** A file seen from inside a directory and from its parent yields the
      same fragment. */
  lemma NestedFragment(dirStem: string, leaf: Leaf, depth: int, parentPrefix: string)
    ensures FragmentOf(leaf, depth + 1, ChildPrefix(parentPrefix, dirStem))
         == FragmentOf(Leaf([dirStem] + leaf.dirs, leaf.stem, leaf.content), depth, parentPrefix)
  {
    var path := [dirStem] + leaf.dirs + [leaf.stem];
    assert ([dirStem] + leaf.dirs) + [leaf.stem] == path;
    assert path[1..] == leaf.dirs + [leaf.stem];
  }

  /** Every fragment's prefix starts with the walk's starting prefix, is
      strictly longer and ends with a dot; no fragment is shallower than the
      starting depth. */
  lemma {:induction false} FragmentsExtendPrefix(listing: seq<Entry>, depth: int, parentPrefix: string)
    ensures forall f :: f in Fragments(listing, depth, parentPrefix) ==>
              |f.prefix| > |parentPrefix| && f.prefix[..|parentPrefix|] == parentPrefix
              && f.prefix[|f.prefix| - 1] == '.' && f.depth >= depth
    decreases listing
  {
    if listing != [] {
      FragmentsExtendPrefix(listing[1..], depth, parentPrefix);
      var prefix := ChildPrefix(parentPrefix, listing[0].stem);
      match listing[0]
      case File(stem, content) =>
      case Dir(stem, children) =>
        FragmentsExtendPrefix(children, depth + 1, prefix);
        forall f | f in Fragments(children, depth + 1, prefix)
          ensures f.prefix[..|parentPrefix|] == parentPrefix
        {
          assert f.prefix[..|parentPrefix|] == f.prefix[..|prefix|][..|parentPrefix|];
        }
    }
  }

  /** The Python list the walk appends to. */
  class FragmentList {
    var items: seq<Fragment>

    constructor ()
      ensures items == []
    {
      items := [];
    }

    method Append(f: Fragment)
      modifies this
      ensures items == old(items) + [f]
    {
      items := items + [f];
    }
  }

  /** `_process_files_in_directory`: walks `listing` depth first, appending
      one fragment per file to `markdownFiles`, or to a fresh list when none
      is given, and returns that list. What the list held before is kept,
      unchanged and in order. */
  method ProcessFilesInDirectory(listing: seq<Entry>, currentDepth: int, parentPrefix: string,
                                 markdownFiles: FragmentList?)
    returns (result: FragmentList)
    modifies markdownFiles
    ensures markdownFiles != null ==> result == markdownFiles
    ensures markdownFiles == null ==> fresh(result)
    ensures result.items
         == (if markdownFiles == null then [] else old(markdownFiles.items))
            + Fragments(listing, currentDepth, parentPrefix)
    decreases listing
  {
    if markdownFiles == null {
      result := new FragmentList();
    } else {
      result := markdownFiles;
    }
    ghost var start := result.items;
    for i := 0 to |listing|
      invariant result.items == start + Fragments(listing[..i], currentDepth, parentPrefix)
    {
      var entry := listing[i];
      var prefix := ChildPrefix(parentPrefix, entry.stem);
      ghost var before := result.items;
      match entry {
        case Dir(_, children) =>
          var _ := ProcessFilesInDirectory(children, currentDepth + 1, prefix, result);
        case File(stem, content) =>
          var title := Title(stem);
          result.Append(Fragment(content, currentDepth, prefix, title));
      }
      assert result.items == before + EntryFragments(entry, currentDepth, parentPrefix);
      FragmentsStep(listing, i, currentDepth, parentPrefix);
    }
    assert listing[..|listing|] == listing;
  }
}
