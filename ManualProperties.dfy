/** What the callback sequence of `process_manual` looks like: how many calls
    of each callback there are, which `section_start` call is told it is the
    last, the order of the sections and the order of the item paths.  The
    shape of the sequence is proved for any list of blocks first, then for
    the blocks of a manual tree. */
module ManualProperties {
  import opened Stems
  import opened Listings
  import opened Manual

  /** The values `f` picks out of each invocation of `t`, in call order. */
  function Collect<T>(f: Event -> seq<T>, t: seq<Event>): seq<T>
    decreases |t|
  {
    if t == [] then [] else f(t[0]) + Collect(f, t[1..])
  }

  function FlagOf(e: Event): seq<bool>
  {
    if e.SectionStart? then [e.isLast] else []
  }

  function HeadingOf(e: Event): seq<Event>
  {
    if e.SectionName? then [e] else []
  }

  function PathOf(e: Event): seq<seq<string>>
  {
    if e.ProcessFile? then [e.path] else []
  }

  function EndOf(e: Event): seq<Event>
  {
    if e.SectionEnd? then [e] else []
  }

  /** The flags passed to `section_start`, in call order. */
  function StartFlags(t: seq<Event>): seq<bool>
  {
    Collect(FlagOf, t)
  }

  /** The `section_name` calls, in call order. */
  function Headings(t: seq<Event>): seq<Event>
  {
    Collect(HeadingOf, t)
  }

  /** The paths passed to `process_file`, in call order. */
  function FilePaths(t: seq<Event>): seq<seq<string>>
  {
    Collect(PathOf, t)
  }

  /** The `section_end` calls. */
  function Ends(t: seq<Event>): seq<Event>
  {
    Collect(EndOf, t)
  }

  lemma {:induction false} CollectConcat<T>(f: Event -> seq<T>, t: seq<Event>, u: seq<Event>)
    ensures Collect(f, t + u) == Collect(f, t) + Collect(f, u)
    decreases |t|
  {
    if t == [] {
      assert t + u == u;
    } else {
      CollectConcat(f, t[1..], u);
      assert (t + u)[1..] == t[1..] + u;
    }
  }

  lemma CollectOne<T>(f: Event -> seq<T>, e: Event)
    ensures Collect(f, [e]) == f(e)
  {
    assert [e][1..] == [];
  }

  /** A projection that ignores `process_file` calls sees nothing of a run of them. */
  lemma {:induction false} CollectFiles<T>(f: Event -> seq<T>, t: seq<Event>)
    requires forall j :: 0 <= j < |t| ==> t[j].ProcessFile?
    requires forall e: Event :: e.ProcessFile? ==> f(e) == []
    ensures Collect(f, t) == []
    decreases |t|
  {
    if t != [] {
      CollectFiles(f, t[1..]);
    }
  }

  /** A block as `process_manual` builds it: a `section_name` call and
      `process_file` calls only. */
  ghost predicate Shaped(b: Block)
  {
    b.heading.SectionName? && forall j :: 0 <= j < |b.files| ==> b.files[j].ProcessFile?
  }

  ghost predicate AllShaped(bs: seq<Block>)
  {
    forall k :: 0 <= k < |bs| ==> Shaped(bs[k])
  }

  /** What a projection that ignores item calls sees of one block. */
  lemma BlockSeen<T>(f: Event -> seq<T>, b: Block, isLast: bool)
    requires Shaped(b)
    requires forall e: Event :: e.ProcessFile? ==> f(e) == []
    ensures Collect(f, BlockTrace(b, isLast)) == f(SectionStart(isLast)) + f(b.heading) + f(SectionEnd)
  {
    var head := [SectionStart(isLast), b.heading];
    CollectFiles(f, b.files);
    CollectConcat(f, head, b.files);
    CollectConcat(f, head + b.files, [SectionEnd]);
    assert head == [SectionStart(isLast)] + [b.heading];
    CollectConcat(f, [SectionStart(isLast)], [b.heading]);
    CollectOne(f, SectionStart(isLast));
    CollectOne(f, b.heading);
    CollectOne(f, SectionEnd);
  }

  /** A projection that ignores item calls sees one value per block, in block order. */
  lemma {:induction false} BlocksSeen<T>(f: Event -> seq<T>, bs: seq<Block>, n: nat, g: nat -> T)
    requires n <= |bs| && AllShaped(bs)
    requires forall e: Event :: e.ProcessFile? ==> f(e) == []
    requires forall k :: 0 <= k < |bs| ==> f(SectionStart(k == |bs| - 1)) + f(bs[k].heading) + f(SectionEnd) == [g(k)]
    ensures |Collect(f, BlocksTrace(bs, n))| == n
    ensures forall k :: 0 <= k < n ==> Collect(f, BlocksTrace(bs, n))[k] == g(k)
  {
    if n > 0 {
      var before := BlocksTrace(bs, n - 1);
      var block := BlockTrace(bs[n - 1], n - 1 == |bs| - 1);
      BlocksSeen(f, bs, n - 1, g);
      BlockSeen(f, bs[n - 1], n - 1 == |bs| - 1);
      CollectConcat(f, before, block);
      var last := n - 1 == |bs| - 1;
      assert f(SectionStart(last)) + f(bs[n - 1].heading) + f(SectionEnd) == [g(n - 1)];
      var seen := Collect(f, before);
      assert Collect(f, BlocksTrace(bs, n)) == seen + [g(n - 1)];
    }
  }

  /** Exactly the last block's `section_start` call is told it is the last. */
  lemma BlocksFlags(bs: seq<Block>)
    requires AllShaped(bs)
    ensures |StartFlags(BlocksTrace(bs, |bs|))| == |bs|
    ensures forall k :: 0 <= k < |bs| ==> (StartFlags(BlocksTrace(bs, |bs|))[k] <==> k == |bs| - 1)
  {
    BlocksSeen(FlagOf, bs, |bs|, k => k == |bs| - 1);
  }

  /** The `section_name` calls are the blocks' headings, in block order. */
  lemma BlocksHeadings(bs: seq<Block>)
    requires AllShaped(bs)
    ensures |Headings(BlocksTrace(bs, |bs|))| == |bs|
    ensures forall k :: 0 <= k < |bs| ==> Headings(BlocksTrace(bs, |bs|))[k] == bs[k].heading
  {
    BlocksSeen(HeadingOf, bs, |bs|, (k: nat) => if k < |bs| then bs[k].heading else SectionEnd);
  }

  /** One `section_end` call per block. */
  lemma BlocksEnds(bs: seq<Block>)
    requires AllShaped(bs)
    ensures |Ends(BlocksTrace(bs, |bs|))| == |bs|
    ensures forall k :: 0 <= k < |bs| ==> Ends(BlocksTrace(bs, |bs|))[k] == SectionEnd
  {
    BlocksSeen(EndOf, bs, |bs|, k => SectionEnd);
  }

  /** The item paths of one block are those of its `process_file` calls. */
  lemma BlockPaths(b: Block, isLast: bool)
    requires Shaped(b)
    ensures FilePaths(BlockTrace(b, isLast)) == FilePaths(b.files)
  {
    var head := [SectionStart(isLast), b.heading];
    CollectConcat(PathOf, head, b.files);
    CollectConcat(PathOf, head + b.files, [SectionEnd]);
    assert head == [SectionStart(isLast)] + [b.heading];
    CollectConcat(PathOf, [SectionStart(isLast)], [b.heading]);
    CollectOne(PathOf, SectionStart(isLast));
    CollectOne(PathOf, b.heading);
    CollectOne(PathOf, SectionEnd);
  }

  /** The number of `process_file` calls in the first `n` blocks. */
  function FileCount(bs: seq<Block>, n: nat): nat
    requires n <= |bs|
  {
    if n == 0 then 0 else FileCount(bs, n - 1) + |bs[n - 1].files|
  }

  lemma {:induction false} FilePathsCount(t: seq<Event>)
    requires forall j :: 0 <= j < |t| ==> t[j].ProcessFile?
    ensures |FilePaths(t)| == |t|
    decreases |t|
  {
    if t != [] {
      FilePathsCount(t[1..]);
    }
  }

  /** One `process_file` call per item of every block. */
  lemma {:induction false} BlocksPathCount(bs: seq<Block>, n: nat)
    requires n <= |bs| && AllShaped(bs)
    ensures |FilePaths(BlocksTrace(bs, n))| == FileCount(bs, n)
  {
    if n > 0 {
      BlocksPathCount(bs, n - 1);
      BlockPaths(bs[n - 1], n - 1 == |bs| - 1);
      FilePathsCount(bs[n - 1].files);
      CollectConcat(PathOf, BlocksTrace(bs, n - 1), BlockTrace(bs[n - 1], n - 1 == |bs| - 1));
    }
  }

  /** Strict lexicographic order on names. */
  predicate LexLt(a: string, b: string)
  {
    LexLe(a, b) && a != b
  }

  /** The order of two item paths `[section, item]` below the manual root:
      component by component. */
  predicate PathLt(p: seq<string>, q: seq<string>)
  {
    |p| == 2 && |q| == 2 && (LexLt(p[0], q[0]) || (p[0] == q[0] && LexLt(p[1], q[1])))
  }

  /** Strictly ascending item paths. */
  ghost predicate Ascending(ps: seq<seq<string>>)
  {
    forall i, j :: 0 <= i < j < |ps| ==> PathLt(ps[i], ps[j])
  }

  lemma LexLeLtTrans(a: string, b: string, c: string)
    requires LexLe(a, b) && LexLt(b, c)
    ensures LexLt(a, c)
  {
    LexLeTrans(a, b, c);
    if a == c {
      LexLeAntisym(b, c);
    }
  }

  /** Sorted with distinct names is strictly ascending. */
  lemma StrictlySorted(s: seq<DirEntry>)
    requires SortedByName(s) && DistinctNames(s)
    ensures forall i, j :: 0 <= i < j < |s| ==> LexLt(s[i].name, s[j].name)
  {
  }

  /** The item paths of a block all lie in the section `name`, ascending. */
  ghost predicate PathsIn(b: Block, name: string)
  {
    Ascending(FilePaths(b.files)) && forall p :: p in FilePaths(b.files) ==> |p| == 2 && p[0] == name
  }

  /** Blocks of strictly ascending sections, each with ascending item
      paths: the item paths of all blocks together are strictly ascending. */
  lemma {:induction false} BlocksAscending(bs: seq<Block>, names: seq<string>, n: nat)
    requires n <= |bs| == |names| && AllShaped(bs)
    requires forall k :: 0 <= k < |bs| ==> PathsIn(bs[k], names[k])
    requires forall i, j :: 0 <= i < j < |names| ==> LexLt(names[i], names[j])
    ensures Ascending(FilePaths(BlocksTrace(bs, n)))
    ensures forall p :: p in FilePaths(BlocksTrace(bs, n)) ==> |p| == 2 && LexLe(p[0], names[n - 1])
  {
    if n > 0 {
      var a := FilePaths(BlocksTrace(bs, n - 1));
      var b := FilePaths(bs[n - 1].files);
      var name := names[n - 1];
      BlocksAscending(bs, names, n - 1);
      BlockPaths(bs[n - 1], n - 1 == |bs| - 1);
      CollectConcat(PathOf, BlocksTrace(bs, n - 1), BlockTrace(bs[n - 1], n - 1 == |bs| - 1));
      var ps := a + b;
      assert FilePaths(BlocksTrace(bs, n)) == ps;
      assert PathsIn(bs[n - 1], name);
      if n > 1 {
        forall p | p in a ensures LexLt(p[0], name) {
          LexLeLtTrans(p[0], names[n - 2], name);
        }
      }
      forall i, j | 0 <= i < j < |ps| ensures PathLt(ps[i], ps[j]) {
        if j < |a| {
          assert ps[i] == a[i] && ps[j] == a[j];
        } else if i >= |a| {
          assert ps[i] == b[i - |a|] && ps[j] == b[j - |a|];
        } else {
          assert ps[i] == a[i] && ps[j] == b[j - |a|];
          assert ps[i] in a && ps[j] in b;
        }
      }
      LexLeRefl(name);
      forall p | p in ps ensures |p| == 2 && LexLe(p[0], name) {
        if p in a {
          assert n > 1;
          LexLeTrans(p[0], names[n - 2], name);
        }
      }
    }
  }

  // The blocks of a manual tree.

  /** The blocks of a sequence of sections, in that order. */
  ghost function SectionBlocks(secs: seq<DirEntry>): (bs: seq<Block>)
    requires forall k :: 0 <= k < |secs| ==> ValidSection(secs[k])
    ensures |bs| == |secs|
  {
    seq(|secs|, k requires 0 <= k < |secs| => SectionBlock(secs[k]))
  }

  lemma {:induction false} SectionsAsBlocks(secs: seq<DirEntry>, bs: seq<Block>, n: nat)
    requires n <= |secs| == |bs|
    requires forall k :: 0 <= k < |secs| ==> ValidSection(secs[k]) && bs[k] == SectionBlock(secs[k])
    ensures SectionsTrace(secs, n) == BlocksTrace(bs, n)
  {
    if n > 0 {
      SectionsAsBlocks(secs, bs, n - 1);
    }
  }

  lemma SectionBlockShaped(d: DirEntry)
    requires ValidSection(d)
    ensures Shaped(SectionBlock(d))
    ensures |SectionBlock(d).files| == |d.children|
  {
    ArrangedMembers(d.children);
  }

  /** The tree's trace is the trace of the blocks of its sections in sorted order. */
  lemma ManualBlocks(root: seq<DirEntry>)
    requires ValidManual(root)
    ensures |Arranged(root)| == |root| && forall k :: 0 <= k < |root| ==> ValidSection(Arranged(root)[k])
    ensures AllShaped(SectionBlocks(Arranged(root)))
    ensures ManualTrace(root) == BlocksTrace(SectionBlocks(Arranged(root)), |root|)
  {
    SortedSectionsValid(root);
    var secs := Arranged(root);
    SectionsAsBlocks(secs, SectionBlocks(secs), |root|);
    forall k | 0 <= k < |secs| ensures Shaped(SectionBlocks(secs)[k]) {
      SectionBlockShaped(secs[k]);
    }
  }

  /** The flag passed to `section_start` is true on exactly one call: the
      call for the last section in sorted order. */
  lemma LastSectionFlag(root: seq<DirEntry>)
    requires ValidManual(root)
    ensures |StartFlags(ManualTrace(root))| == |root|
    ensures forall k :: 0 <= k < |root| ==> (StartFlags(ManualTrace(root))[k] <==> k == |root| - 1)
  {
    ManualBlocks(root);
    BlocksFlags(SectionBlocks(Arranged(root)));
  }

  /** The `section_name` calls of the sections of `root` in sorted order. */
  ghost function SortedHeadings(root: seq<DirEntry>): seq<Event>
    requires ValidManual(root)
  {
    SortedSectionsValid(root);
    seq(|root|, k requires 0 <= k < |root| => Heading(Arranged(root)[k]))
  }

  /** The sections are named in ascending order of their names: the k-th
      `section_name` call carries the decoded title of the k-th smallest
      section and the kind of its first character. */
  lemma SectionOrder(root: seq<DirEntry>)
    requires ValidManual(root)
    ensures SortedByName(Arranged(root)) && multiset(Arranged(root)) == multiset(root)
    ensures |Arranged(root)| == |root| && forall k :: 0 <= k < |root| ==> ValidSection(Arranged(root)[k])
    ensures Headings(ManualTrace(root)) == SortedHeadings(root)
  {
    ManualBlocks(root);
    var bs := SectionBlocks(Arranged(root));
    BlocksHeadings(bs);
  }

  /** The number of items in all sections of a listing. */
  function TotalItems(secs: seq<DirEntry>): nat
  {
    if secs == [] then 0 else TotalItems(secs[..|secs| - 1]) + |secs[|secs| - 1].children|
  }

  lemma {:induction false} TotalItemsConcat(s: seq<DirEntry>, t: seq<DirEntry>)
    ensures TotalItems(s + t) == TotalItems(s) + TotalItems(t)
    decreases |t|
  {
    if t == [] {
      assert s + t == s;
    } else {
      TotalItemsConcat(s, t[..|t| - 1]);
      assert (s + t)[..|s + t| - 1] == s + t[..|t| - 1];
    }
  }

  lemma TotalItemsRemove(t: seq<DirEntry>, m: nat)
    requires m < |t|
    ensures TotalItems(t) == TotalItems(t[..m] + t[m + 1..]) + |t[m].children|
  {
    assert t == t[..m] + [t[m]] + t[m + 1..];
    TotalItemsConcat(t[..m] + [t[m]], t[m + 1..]);
    TotalItemsConcat(t[..m], [t[m]]);
    TotalItemsConcat(t[..m], t[m + 1..]);
    assert [t[m]][..0] == [];
  }

  lemma MultisetRemove(s: seq<DirEntry>, t: seq<DirEntry>, m: nat)
    requires |s| > 0 && m < |t| && t[m] == s[|s| - 1] && multiset(s) == multiset(t)
    ensures multiset(t[..m] + t[m + 1..]) == multiset(s[..|s| - 1])
  {
    var x := t[m];
    assert s == s[..|s| - 1] + [x];
    assert t == t[..m] + [x] + t[m + 1..];
    assert multiset(t) == multiset(t[..m]) + multiset{x} + multiset(t[m + 1..]);
    assert multiset(t[..m] + t[m + 1..]) == multiset(t[..m]) + multiset(t[m + 1..]);
    assert multiset(s) == multiset(s[..|s| - 1]) + multiset{x};
    assert multiset(t[..m] + t[m + 1..]) == multiset(t) - multiset{x};
  }

  /** Rearranging the sections does not change how many items there are. */
  lemma {:induction false} TotalItemsPermutation(s: seq<DirEntry>, t: seq<DirEntry>)
    requires multiset(s) == multiset(t)
    ensures TotalItems(s) == TotalItems(t)
    decreases |s|
  {
    if s == [] {
      assert |t| == |multiset(t)| == 0;
    } else {
      var x := s[|s| - 1];
      assert x in multiset(t);
      var m :| 0 <= m < |t| && t[m] == x;
      MultisetRemove(s, t, m);
      TotalItemsPermutation(s[..|s| - 1], t[..m] + t[m + 1..]);
      TotalItemsRemove(t, m);
    }
  }

  lemma {:induction false} SectionsFileCount(secs: seq<DirEntry>, n: nat)
    requires n <= |secs| && forall k :: 0 <= k < |secs| ==> ValidSection(secs[k])
    ensures FileCount(SectionBlocks(secs), n) == TotalItems(secs[..n])
  {
    if n > 0 {
      SectionsFileCount(secs, n - 1);
      SectionBlockShaped(secs[n - 1]);
      assert secs[..n][..n - 1] == secs[..n - 1];
    }
  }

  /** With N sections there are N `section_start`, N `section_name` and N
      `section_end` calls and one `process_file` call per item. */
  lemma TraceCounts(root: seq<DirEntry>)
    requires ValidManual(root)
    ensures |StartFlags(ManualTrace(root))| == |root|
    ensures |Headings(ManualTrace(root))| == |root|
    ensures |Ends(ManualTrace(root))| == |root|
    ensures |FilePaths(ManualTrace(root))| == TotalItems(root)
  {
    ManualBlocks(root);
    var secs := Arranged(root);
    var bs := SectionBlocks(secs);
    BlocksFlags(bs);
    BlocksHeadings(bs);
    BlocksEnds(bs);
    BlocksPathCount(bs, |bs|);
    SectionsFileCount(secs, |secs|);
    assert secs[..|secs|] == secs;
    TotalItemsPermutation(secs, root);
  }

  /** The item calls of a section pass the paths `[section, item]`, one per
      item, in the order of the items. */
  lemma {:induction false} ItemsPaths(dir: DirEntry, items: seq<DirEntry>)
    requires forall c :: c in items ==> ValidItem(c)
    ensures FilePaths(ItemsTrace(dir, items)) == seq(|items|, k requires 0 <= k < |items| => [dir.name, items[k].name])
    decreases |items|
  {
    if items != [] {
      assert forall c :: c in items[1..] ==> c in items;
      ItemsPaths(dir, items[1..]);
      assert ItemsTrace(dir, items)[1..] == ItemsTrace(dir, items[1..]);
    }
  }

  /** The `process_file` calls of a section: one per item of its listing,
      each with the item's undecorated display name, its path and the kind of
      its first character; every item of the listing gets such a call. */
  lemma ItemCalls(d: DirEntry)
    requires ValidSection(d)
    ensures |Files(d)| == |d.children|
    ensures forall k :: 0 <= k < |Files(d)| ==>
      Arranged(d.children)[k] in d.children &&
      Files(d)[k] == ProcessFile(Remainder(Arranged(d.children)[k].stem),
        [d.name, Arranged(d.children)[k].name], FromChar(Arranged(d.children)[k].stem[0]))
    ensures forall c :: c in d.children ==>
      (exists k :: 0 <= k < |Files(d)| &&
        Files(d)[k] == ProcessFile(Remainder(c.stem), [d.name, c.name], FromChar(c.stem[0])))
  {
    var items := Arranged(d.children);
    ArrangedMembers(d.children);
    forall k | 0 <= k < |items| ensures items[k] in d.children {
      assert items[k] in items;
    }
    forall c | c in d.children
      ensures exists k ::
          0 <= k < |Files(d)| &&
          Files(d)[k] == ProcessFile(Remainder(c.stem), [d.name, c.name], FromChar(c.stem[0]))
    {
      assert c in items;
      var k :| 0 <= k < |items| && items[k] == c;
      assert Files(d)[k] == ItemEvent(d, c);
    }
  }

  /** The items of a section are visited in strictly ascending order. */
  lemma SectionPathsIn(d: DirEntry)
    requires ValidSection(d)
    ensures PathsIn(SectionBlock(d), d.name)
  {
    var items := Arranged(d.children);
    ArrangedMembers(d.children);
    DistinctNamesPermutation(d.children, items);
    StrictlySorted(items);
    ItemsPaths(d, items);
  }

  /** Sections are visited in ascending order of their paths, and the items
      of each section in ascending order of theirs: the paths passed to
      `process_file` are strictly ascending over the whole run. */
  lemma ItemPathsAscending(root: seq<DirEntry>)
    requires ValidManual(root)
    ensures Ascending(FilePaths(ManualTrace(root)))
  {
    ManualBlocks(root);
    var secs := Arranged(root);
    var bs := SectionBlocks(secs);
    var names := seq(|secs|, k requires 0 <= k < |secs| => secs[k].name);
    DistinctNamesPermutation(root, secs);
    StrictlySorted(secs);
    forall k | 0 <= k < |bs| ensures PathsIn(bs[k], names[k]) {
      SectionPathsIn(secs[k]);
    }
    BlocksAscending(bs, names, |bs|);
  }

  /** Callbacks that only append text chosen from their arguments. */
  ghost predicate AppendOnly(cb: Callbacks, text: Event -> string)
  {
    forall acc, e :: Step(cb, acc, e) == acc + text(e)
  }

  /** The text appended for the invocations of `t`, in order. */
  function Rendered(text: Event -> string, t: seq<Event>): string
    decreases |t|
  {
    if t == [] then [] else Rendered(text, t[..|t| - 1]) + text(t[|t| - 1])
  }

  /** With appending callbacks the output is `start_string` followed by what
      the callbacks append, in call order. */
  lemma {:induction false} OutputIsStartThenAppends(cb: Callbacks, text: Event -> string, start: string, t: seq<Event>)
    requires AppendOnly(cb, text)
    ensures Replay(cb, start, t) == start + Rendered(text, t)
    decreases |t|
  {
    if t != [] {
      var init, e := t[..|t| - 1], t[|t| - 1];
      OutputIsStartThenAppends(cb, text, start, init);
      var r := Replay(cb, start, init);
      assert Replay(cb, start, t) == Step(cb, r, e);
      assert Step(cb, r, e) == r + text(e);
      assert Rendered(text, t) == Rendered(text, init) + text(e);
      AppendAssoc(start, Rendered(text, init), text(e));
    }
  }

  // A worked run.

  function ExampleRoot(): seq<DirEntry>
  {
    [DirEntry("A_one", "A_one", [DirEntry("1_alpha.md", "1_alpha", []), DirEntry("2_beta.md", "2_beta", [])]),
     DirEntry("B_two", "B_two", [])]
  }

  /** Two entries already in order are their own sorted arrangement. */
  lemma PairArranged(s: seq<DirEntry>)
    requires |s| == 2 && LexLe(s[0].name, s[1].name) && s[0].name != s[1].name
    ensures SortedByName(s) && DistinctNames(s) && Arranged(s) == s
  {
    ArrangedIdentity(s);
  }

  lemma ExampleItemStems()
    ensures StemChars("1_alpha") == ("alpha", Regular)
    ensures StemChars("2_beta") == ("beta", Regular)
  {
    assert NextValue("1_alpha") == ('1', "_alpha");
    assert "_alpha"[1..] == "alpha";
    assert NextValue("2_beta") == ('2', "_beta");
    assert "_beta"[1..] == "beta";
  }

  lemma ExampleFirstHeading()
    ensures HasTitle("A_one") && SectionDisplayName("A_one") == "One" && FromChar('A') == Regular
  {
    assert NextValue("A_one") == ('A', "_one");
    assert "_one"[1..] == "one";
    assert Remainder("A_one") == "one";
  }

  lemma ExampleFirstItems()
    ensures var one := ExampleRoot()[0];
      (forall c :: c in one.children ==> ValidItem(c)) && DistinctNames(one.children) &&
      Files(one) == [ProcessFile("alpha", ["A_one", "1_alpha.md"], Regular),
        ProcessFile("beta", ["A_one", "2_beta.md"], Regular)]
  {
    var one := ExampleRoot()[0];
    var items := one.children;
    ExampleItemStems();
    assert LexLe("1_alpha.md", "2_beta.md");
    PairArranged(items);
    assert ItemEvent(one, items[0]) == ProcessFile("alpha", ["A_one", "1_alpha.md"], Regular);
    assert ItemEvent(one, items[1]) == ProcessFile("beta", ["A_one", "2_beta.md"], Regular);
    assert Files(one) == [ItemEvent(one, items[0]), ItemEvent(one, items[1])];
  }

  lemma ExampleFirstSection()
    ensures ValidSection(ExampleRoot()[0])
    ensures SectionBlock(ExampleRoot()[0]) == Block(SectionName("One", Regular),
      [ProcessFile("alpha", ["A_one", "1_alpha.md"], Regular),
       ProcessFile("beta", ["A_one", "2_beta.md"], Regular)])
  {
    ExampleFirstHeading();
    ExampleFirstItems();
  }

  lemma ExampleSecondSection()
    ensures ValidSection(ExampleRoot()[1])
    ensures SectionBlock(ExampleRoot()[1]) == Block(SectionName("Two", Regular), [])
  {
    var two := ExampleRoot()[1];
    assert Remainder("B_two") == "two" by {
      assert NextValue("B_two") == ('B', "_two");
      assert "_two"[1..] == "two";
    }
    ArrangedIdentity(two.children);
    assert SectionDisplayName("B_two") == "Two";
  }

  lemma ExampleRootArranged()
    ensures ValidManual(ExampleRoot()) && Arranged(ExampleRoot()) == ExampleRoot()
  {
    var root := ExampleRoot();
    ExampleFirstSection();
    ExampleSecondSection();
    assert LexLe("A_one", "B_two");
    PairArranged(root);
    assert forall d :: d in root ==> d == root[0] || d == root[1];
  }

  lemma TwoSections(secs: seq<DirEntry>)
    requires |secs| == 2 && ValidSection(secs[0]) && ValidSection(secs[1])
    ensures SectionsTrace(secs, 2) == BlockTrace(SectionBlock(secs[0]), false) + BlockTrace(SectionBlock(secs[1]), true)
  {
    SectionsTraceSnoc(secs, 0);
    SectionsTraceSnoc(secs, 1);
    assert [] + BlockTrace(SectionBlock(secs[0]), false) == BlockTrace(SectionBlock(secs[0]), false);
  }

  lemma ExampleBlockTraces()
    ensures ValidSection(ExampleRoot()[0]) && ValidSection(ExampleRoot()[1])
    ensures BlockTrace(SectionBlock(ExampleRoot()[0]), false) == [SectionStart(false), SectionName("One", Regular),
      ProcessFile("alpha", ["A_one", "1_alpha.md"], Regular),
      ProcessFile("beta", ["A_one", "2_beta.md"], Regular), SectionEnd]
    ensures BlockTrace(SectionBlock(ExampleRoot()[1]), true) == [SectionStart(true), SectionName("Two", Regular), SectionEnd]
  {
    ExampleFirstSection();
    ExampleSecondSection();
  }

  /** Two sections, `A_one` holding two items and `B_two` holding none.  The
      kind character of each stem is consumed, so the sections are named
      "One" and "Two"; only the second is flagged as last. */
  lemma ExampleRun()
    ensures ValidManual(ExampleRoot())
    ensures ManualTrace(ExampleRoot()) == [SectionStart(false), SectionName("One", Regular),
      ProcessFile("alpha", ["A_one", "1_alpha.md"], Regular),
      ProcessFile("beta", ["A_one", "2_beta.md"], Regular),
      SectionEnd, SectionStart(true), SectionName("Two", Regular), SectionEnd]
  {
    var root := ExampleRoot();
    ExampleRootArranged();
    ExampleBlockTraces();
    SortedSectionsValid(root);
    TwoSections(root);
  }
}
