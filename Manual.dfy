/** `process_manual`: one pass over the sorted sections of the manual tree and
    the sorted items of each, driving four caller-supplied callbacks that all
    write into one output string. */
module Manual {
  import opened Stems
  import opened Listings

  /** One callback invocation, with the arguments it receives.  The path of
      an item is given by its components below the manual root. */
  datatype Event =
    | SectionStart(isLast: bool)
    | SectionName(name: string, kind: ManualItem)
    | ProcessFile(name: string, path: seq<string>, kind: ManualItem)
    | SectionEnd

  /** The four callbacks.  Each receives the output string built so far and
      gives back the string after its call. */
  datatype Callbacks = Callbacks(
    sectionStart: (string, bool) -> string,
    sectionName: (string, string, ManualItem) -> string,
    processFile: (string, string, seq<string>, ManualItem) -> string,
    sectionEnd: string -> string)

  /** The effect of one callback invocation on the output string. */
  function Step(cb: Callbacks, acc: string, e: Event): string
  {
    match e
    case SectionStart(isLast) => cb.sectionStart(acc, isLast)
    case SectionName(name, kind) => cb.sectionName(acc, name, kind)
    case ProcessFile(name, path, kind) => cb.processFile(acc, name, path, kind)
    case SectionEnd => cb.sectionEnd(acc)
  }

  /** The output string after the invocations of `t`, in order, starting from `acc`. */
  function Replay(cb: Callbacks, acc: string, t: seq<Event>): string
    decreases |t|
  {
    if t == [] then acc else Step(cb, Replay(cb, acc, t[..|t| - 1]), t[|t| - 1])
  }

  /** An entry the source can decode as an item: its stem is not empty. */
  predicate ValidItem(e: DirEntry)
  {
    |e.stem| > 0
  }

  /** A section directory the source can process without panicking. */
  ghost predicate ValidSection(d: DirEntry)
  {
    HasTitle(d.stem) && DistinctNames(d.children) && forall c :: c in d.children ==> ValidItem(c)
  }

  /** A manual root the source can process without panicking: at least one
      section (otherwise `dirs.len() - 1` underflows), every section valid. */
  ghost predicate ValidManual(root: seq<DirEntry>)
  {
    |root| > 0 && DistinctNames(root) && forall d :: d in root ==> ValidSection(d)
  }

  /** The `process_file` call for one item of section `dir`. */
  function ItemEvent(dir: DirEntry, item: DirEntry): Event
    requires ValidItem(item)
  {
    var (chars, kind) := StemChars(item.stem);
    ProcessFile(chars, [dir.name, item.name], kind)
  }

  /** The `process_file` calls for the items of `dir`, in the given order. */
  function ItemsTrace(dir: DirEntry, items: seq<DirEntry>): seq<Event>
    requires forall c :: c in items ==> ValidItem(c)
  {
    seq(|items|, k requires 0 <= k < |items| => ItemEvent(dir, items[k]))
  }

  /** The calls that make up one section, once its name and its items have
      been decoded: the `section_name` call and the `process_file` calls. */
  datatype Block = Block(heading: Event, files: seq<Event>)

  /** All calls for one section: start, name, the items in order, end. */
  function BlockTrace(b: Block, isLast: bool): seq<Event>
  {
    [SectionStart(isLast), b.heading] + b.files + [SectionEnd]
  }

  /** The calls for the first `n` blocks of `bs`; only the very last block
      is flagged as last. */
  function BlocksTrace(bs: seq<Block>, n: nat): seq<Event>
    requires n <= |bs|
  {
    if n == 0 then [] else BlocksTrace(bs, n - 1) + BlockTrace(bs[n - 1], n - 1 == |bs| - 1)
  }

  /** The `section_name` call of a section. */
  function Heading(dir: DirEntry): Event
    requires HasTitle(dir.stem)
  {
    SectionName(SectionDisplayName(dir.stem), FromChar(dir.stem[0]))
  }

  /** The `process_file` calls of a section: its listing sorted by name. */
  ghost function Files(dir: DirEntry): seq<Event>
    requires forall c :: c in dir.children ==> ValidItem(c)
  {
    ArrangedMembers(dir.children);
    ItemsTrace(dir, Arranged(dir.children))
  }

  ghost function SectionBlock(dir: DirEntry): Block
    requires ValidSection(dir)
  {
    Block(Heading(dir), Files(dir))
  }

  /** All calls for the first `n` sections of `secs`; only the very last
      section is flagged as last. */
  ghost function SectionsTrace(secs: seq<DirEntry>, n: nat): seq<Event>
    requires n <= |secs| && forall k :: 0 <= k < |secs| ==> ValidSection(secs[k])
  {
    if n == 0 then [] else SectionsTrace(secs, n - 1) + BlockTrace(SectionBlock(secs[n - 1]), n - 1 == |secs| - 1)
  }

  lemma SortedSectionsValid(root: seq<DirEntry>)
    requires ValidManual(root)
    ensures |Arranged(root)| == |root|
    ensures forall k :: 0 <= k < |Arranged(root)| ==> ValidSection(Arranged(root)[k])
  {
    ArrangedMembers(root);
    forall k | 0 <= k < |Arranged(root)| ensures ValidSection(Arranged(root)[k]) {
      assert Arranged(root)[k] in root;
    }
  }

  /** Every callback invocation of `process_manual` over the tree `root`, in order. */
  ghost function ManualTrace(root: seq<DirEntry>): seq<Event>
    requires ValidManual(root)
  {
    SortedSectionsValid(root);
    SectionsTrace(Arranged(root), |root|)
  }

  lemma SectionsTraceSnoc(secs: seq<DirEntry>, i: nat)
    requires i < |secs| && forall k :: 0 <= k < |secs| ==> ValidSection(secs[k])
    ensures SectionsTrace(secs, i + 1) == SectionsTrace(secs, i) + BlockTrace(SectionBlock(secs[i]), i == |secs| - 1)
  {
  }

  lemma AppendAssoc<T>(a: seq<T>, b: seq<T>, c: seq<T>)
    ensures a + b + c == a + (b + c)
  {
  }

  /** Replaying two traces one after the other is replaying their concatenation. */
  lemma {:induction false} ReplayConcat(cb: Callbacks, acc: string, t: seq<Event>, u: seq<Event>)
    ensures Replay(cb, acc, t + u) == Replay(cb, Replay(cb, acc, t), u)
    decreases |u|
  {
    if u == [] {
      assert t + u == t;
    } else {
      var v := u[..|u| - 1];
      ReplayConcat(cb, acc, t, v);
      assert (t + u)[..|t + u| - 1] == t + v;
    }
  }

  lemma ReplayPair(cb: Callbacks, acc: string, t: seq<Event>)
    requires |t| == 2
    ensures Replay(cb, acc, t) == Step(cb, Step(cb, acc, t[0]), t[1])
  {
    ReplaySnoc(cb, acc, [], t[0]);
    ReplaySnoc(cb, acc, [t[0]], t[1]);
    assert [] + [t[0]] == [t[0]];
    assert [t[0]] + [t[1]] == t;
  }

  lemma ReplaySnoc(cb: Callbacks, acc: string, t: seq<Event>, e: Event)
    ensures Replay(cb, acc, t + [e]) == Step(cb, Replay(cb, acc, t), e)
  {
    assert (t + [e])[..|t|] == t;
  }

  lemma ItemsTraceSnoc(dir: DirEntry, items: seq<DirEntry>, item: DirEntry)
    requires forall c :: c in items ==> ValidItem(c)
    requires ValidItem(item)
    ensures ItemsTrace(dir, items + [item]) == ItemsTrace(dir, items) + [ItemEvent(dir, item)]
  {
  }

  /** The `for path in paths` loop: one `process_file` call per item, in the
      order of the sorted listing, starting from the output `output0`. */
  method ProcessItems(cb: Callbacks, output0: string, dir: DirEntry, paths: seq<DirEntry>)
    returns (output: string, events: seq<Event>)
    requires forall c :: c in paths ==> ValidItem(c)
    ensures events == ItemsTrace(dir, paths)
    ensures output == Replay(cb, output0, events)
  {
    output, events := output0, [];
    for n := 0 to |paths|
      invariant events == ItemsTrace(dir, paths[..n])
      invariant output == Replay(cb, output0, events)
    {
      var path := paths[n];
      assert path in paths;
      var (chars, item) := StemChars(path.stem);
      var e := ProcessFile(chars, [dir.name, path.name], item);
      assert e == ItemEvent(dir, path);
      ItemsTraceSnoc(dir, paths[..n], path);
      assert paths[..n + 1] == paths[..n] + [path];
      ReplaySnoc(cb, output0, events, e);
      output := cb.processFile(output, chars, [dir.name, path.name], item);
      events := events + [e];
    }
    assert paths[..|paths|] == paths;
  }

  /** The decoding of a section name: `stem_chars` and the name-building loop. */
  method DecodeHeading(dir: DirEntry) returns (name: string, kind: ManualItem)
    requires HasTitle(dir.stem)
    ensures SectionName(name, kind) == Heading(dir)
  {
    var (chars, item) := StemChars(dir.stem);
    name := DecodeSectionName(chars);
    kind := item;
  }

  /** The body of the loop over the sections: start, name, the items, end. */
  method ProcessSection(cb: Callbacks, output0: string, dir: DirEntry, isLast: bool)
    returns (output: string, events: seq<Event>)
    requires ValidSection(dir)
    ensures events == BlockTrace(SectionBlock(dir), isLast)
    ensures output == Replay(cb, output0, events)
  {
    output := cb.sectionStart(output0, isLast);
    var name, kind := DecodeHeading(dir);
    output := cb.sectionName(output, name, kind);
    events := [SectionStart(isLast), SectionName(name, kind)];
    ReplayPair(cb, output0, events);

    var paths := CollectSorted(dir.children);
    ArrangedMembers(dir.children);
    var middle, itemEvents := ProcessItems(cb, output, dir, paths[..]);
    assert itemEvents == Files(dir);
    ReplayConcat(cb, output0, events, itemEvents);
    events := events + itemEvents;

    ReplaySnoc(cb, output0, events, SectionEnd);
    output := cb.sectionEnd(middle);
    events := events + [SectionEnd];
  }

  /** The loop over the sorted sections; only the last one is flagged as last. */
  method ProcessSections(cb: Callbacks, start: string, dirs: seq<DirEntry>)
    returns (output: string, trace: seq<Event>)
    requires forall k :: 0 <= k < |dirs| ==> ValidSection(dirs[k])
    ensures trace == SectionsTrace(dirs, |dirs|)
    ensures output == Replay(cb, start, trace)
  {
    output := start;
    trace := [];
    var lastIndex := |dirs| - 1;
    for i := 0 to |dirs|
      invariant trace == SectionsTrace(dirs, i)
      invariant output == Replay(cb, start, trace)
    {
      var events;
      output, events := ProcessSection(cb, output, dirs[i], i == lastIndex);
      ReplayConcat(cb, start, trace, events);
      SectionsTraceSnoc(dirs, i);
      trace := trace + events;
    }
  }

  /** `process_manual` with the directory tree given as `root`.  The
      callbacks are applied to the output string in the order of the events
      in `trace`, which the method also returns. */
  method ProcessManual(start: string, cb: Callbacks, root: seq<DirEntry>)
    returns (output: string, trace: seq<Event>)
    requires ValidManual(root)
    ensures trace == ManualTrace(root)
    ensures output == Replay(cb, start, trace)
  {
    var dirs := CollectSorted(root);
    SortedSectionsValid(root);
    output, trace := ProcessSections(cb, start, dirs[..]);
  }
}
