# Manual assembly of hill_vacuum_shared, modelled in Dafny

This project models how `process_manual` in `src/lib.rs` assembles the
HillVacuum manual. The function starts an output string from
`start_string`, lists the section directories of the manual tree and sorts
them. For each section, in sorted order, it calls four callbacks:

- `section_start`, with a flag telling whether this is the last section;
- `section_name`, with the decoded section title and its kind;
- `process_file`, once per item of the section's sorted listing, with the
  item's display name, its path and its kind;
- `section_end`.

The project also models the stem convention these calls rely on: the first
character of a stem is the kind character, and the name starts at the
first alphabetic character after it. It also models the
`iterate_slice_in_triplets!` loop macro.

Modules:

- `Stems`: `ManualItem`, `From<char>`, `stem_chars`, `next_value`, the
  section-name loop and the two display names.
- `Listings`: directory entries and the lexicographic order on names. It
  has a reference sort, the in-place sort of a collected listing, and the
  proof that a listing with distinct names has exactly one sorted
  arrangement.
- `Manual`: the callback events and the trace `process_manual` produces. It
  has the imperative model of `process_manual`: the section loop, the item
  loop, and a string accumulator threaded through the callbacks.
- `ManualProperties`: what the trace looks like. This covers call counts,
  the last-section flag, section order, item paths and item calls, the
  output as start text plus appended text, and a worked run.
- `Triplets`: the `iterate_slice_in_triplets!` loop.

The directory tree is an input value. A `DirEntry` has a name, a stem and
its child entries. The path passed to `process_file` is represented by its
two components below the manual root, `[section name, item name]`. The
callbacks form a `Callbacks` value of four functions. Each takes the
output string so far and returns the new one. `ProcessManual` returns the
final string and also the sequence of invocations (`Event`s) it made.

Two details of the code:

- The kind character is compared case-sensitively, so `s`, `t` and `x` give
  `Regular`.
- The first character of a section stem is always consumed as its kind
  character, so the section `A_one` is titled `One`, not `A one`
  (`Stems.SectionExample`, `ManualProperties.ExampleRun`).

The panics of the source are preconditions:

- every stem is non-empty;
- a section stem has an alphabetic character after position 0;
- the manual has at least one section.

A further precondition is that sibling entries have distinct names, as
directory entries do.

## Model

| member | source | states |
|---|---|---|
| Stems.FromChar | src/lib.rs:234-248 | `S` or `T` gives Tool, exactly `X` gives Texture, every other character gives Regular (three iff clauses) |
| Stems.LowerCaseIsRegular | src/lib.rs:236-247 | the comparison is case-sensitive: `s`, `t`, `x` give Regular |
| Stems.NextValue | src/lib.rs:33-34 | on a non-empty sequence, the value and the rest put back together give the sequence |
| Stems.ToAsciiUppercase | src/lib.rs:272 | only `a`..`z` change, each to the capital 32 code points lower, and being a letter is preserved |
| Stems.SkipNonAlphabeticSpec | src/lib.rs:256 | the result is a suffix, everything dropped is non-alphabetic, and the result is empty or starts with a letter |
| Stems.StemCharsSpec | src/lib.rs:252-257 | the kind comes from the first character alone; the remainder is a suffix after it, with only non-alphabetic characters skipped, empty or starting with a letter |
| Stems.HasTitleIff | src/lib.rs:271-272 | a section stem can be decoded without a panic exactly when it has an alphabetic character after position 0 |
| Stems.DecodeSectionName | src/lib.rs:271-282 | the loop builds a name as long as the remainder: the first character upper-cased, every later `_` a space, every other character copied |
| Stems.SectionTitleSpec | src/lib.rs:271-282 | the title is as long as the remainder, its first character is upper-cased, it copies the rest with `_` turned into a space, and no `_` is left after position 0 |
| Stems.SectionVersusItem | src/lib.rs:271-301 | a section name and an item name from the same stem have the same length and differ only in the capital and the underscores |
| Stems.KindExamples | src/lib.rs:234-257 | `Sfoo`, `Tbar` and `Xtex` decode to `foo`/Tool, `bar`/Tool and `tex`/Texture |
| Stems.SectionExample | src/lib.rs:252-282 | the section stem `A_one` is titled `One` |
| Stems.ItemExample | src/lib.rs:252-301 | the stem `1_my_item` gives the item name `my_item` and the section title `My item` |
| Listings.LexLeRefl | src/lib.rs:264 | the order used to sort is reflexive |
| Listings.LexLeTotal | src/lib.rs:264 | any two names are comparable |
| Listings.LexLeAntisym | src/lib.rs:264 | names ordered both ways are equal |
| Listings.LexLeTrans | src/lib.rs:264 | the order is transitive |
| Listings.SortByNameSorted | src/lib.rs:264 | the reference sort gives a sorted permutation |
| Listings.Arranged | src/lib.rs:264 | the sorted arrangement of a listing is sorted and has the same entries with the same multiplicities |
| Listings.ArrangedMembers | src/lib.rs:264 | the sorted arrangement has the listing's length and exactly its entries |
| Listings.SortedUnique | src/lib.rs:264 | two sorted permutations of a listing with distinct names are equal, so which sort is used does not matter |
| Listings.ArrangedIdentity | src/lib.rs:264 | a listing already in order is its own sorted arrangement |
| Listings.SiftLeft | src/lib.rs:264 | one insertion step: the first `i + 1` entries are in order afterwards, the entries after them are untouched, and the array holds the same entries |
| Listings.SortInPlace | src/lib.rs:290 | sorting the collected vector in place leaves it sorted by name and a permutation of what it held |
| Listings.CollectSorted | src/lib.rs:260-264 | collecting a listing into a new vector and sorting it yields exactly its sorted arrangement |
| Manual.ProcessItems | src/lib.rs:292-302 | the item loop makes one `process_file` call per item, in the listing's order, with the item's remainder, its path and its kind, and the output is those calls applied in order |
| Manual.DecodeHeading | src/lib.rs:271-284 | the `section_name` arguments are the decoded title of the section stem and the kind of its first character |
| Manual.ProcessSection | src/lib.rs:269-304 | a section produces `section_start(is_last)`, `section_name`, its items in sorted order, `section_end`, and the output is those calls applied in that order |
| Manual.ProcessSections | src/lib.rs:265-305 | the section loop concatenates the sections' calls in order; only the section at index `len - 1` is flagged as last |
| Manual.ProcessManual | src/lib.rs:218-308 | the whole run makes exactly the calls of the sections in sorted order, and the output is `start_string` with those calls applied in order |
| Manual.ReplayConcat | src/lib.rs:259-307 | threading the string through two call sequences in turn is threading it through their concatenation |
| ManualProperties.LastSectionFlag | src/lib.rs:265-269 | there is one `section_start` per section, and its flag is true exactly on the call for the last section in sorted order |
| ManualProperties.SectionOrder | src/lib.rs:264-284 | sections are named in ascending order of their names: the k-th `section_name` call is the heading of the k-th section of the sorted arrangement |
| ManualProperties.TraceCounts | src/lib.rs:267-305 | with N sections there are N start, N name and N end calls, and one `process_file` call per item of the whole tree |
| ManualProperties.TotalItemsPermutation | src/lib.rs:264 | reordering the sections does not change how many items there are |
| ManualProperties.ItemCalls | src/lib.rs:286-302 | a section has one `process_file` call per item; each carries an item's undecorated remainder, its path and the kind of its first character, and every item of the listing gets such a call |
| ManualProperties.ItemPathsAscending | src/lib.rs:260-302 | the paths passed to `process_file` are strictly ascending across the whole run (section first, then item) |
| ManualProperties.OutputIsStartThenAppends | src/lib.rs:259-307 | with callbacks that only append, the output is `start_string` followed by their text in call order |
| ManualProperties.TwoSections | src/lib.rs:267-305 | two sections give the first section's calls, flagged not last, followed by the second's, flagged last |
| ManualProperties.ExampleRun | src/lib.rs:218-308 | sections `A_one` (items `1_alpha.md`, `2_beta.md`) and `B_two` give exactly: start(false), name "One", items "alpha" and "beta", end, start(true), name "Two", end |
| Triplets.IterateSliceInTriplets | src/lib.rs:48-57 | with `max >= 2` the body runs exactly `max` times, for `k = 0 .. max - 1` in order, with `i = (k + max - 2) % max` and `j = (k + max - 1) % max` |
| Triplets.TripletCyclic | src/lib.rs:48-57 | on each run `i` and `j` are the two indices before `k`, counted cyclically: below `max`, `i + 1` and `j + 1` are the next ones modulo `max`, and the wrap-round at `k = 0` and `k = 1` is explicit |
| Triplets.TripletShift | src/lib.rs:53-55 | each run's `i` is the previous run's `j`, and its `j` the previous `k` |

## Left out

- Filesystem access: `read_dir` of `docs/manual/` and of each section, and
  the `unwrap` of each I/O result. The directory tree is an input value,
  and an I/O failure (a panic) is not modelled.
- OS-string handling: `file_stem().unwrap().to_str().unwrap()`. The stem is
  a field of each entry, and a missing or non-UTF-8 stem is not modelled.
- Paths: a path is its two components below the manual root. The vectors
  are sorted by whole path. For siblings this is the order of their last
  component, which is the order the model sorts by.
- `char::is_alphabetic`: modelled as the ASCII letters only. Other Unicode
  letters count as non-alphabetic here.
- What the callbacks emit: they are functions of the string so far and
  their arguments. Their internal state, their markup and effects other
  than on the string are not modelled. `Manual.Callbacks` fixes each
  callback's behaviour for the whole run.
- `sort_unstable`: its algorithm is not modelled. The model sorts by
  insertion with adjacent swaps. `Listings.SortedUnique` shows that every
  sort gives the same result when names are distinct, so stability does
  not matter.
- Manual.ValidManual: a manual with no sections is excluded, because
  `dirs.len() - 1` underflows there. Sibling entries are required to have
  distinct names.
- The control-flow macros `return_if_none`, `return_if_no_match`,
  `return_if_err`, `continue_if_none`, `continue_if_err`,
  `continue_if_no_match` and `match_or_panic` are left out. They are
  syntax for early exits with no logic of their own.
- The constants `TEXTURE_HEIGHT_RANGE` and `FILE_EXTENSION` are left out.
  They are plain values that nothing in the modelled code uses.
- Triplets.IterateSliceInTriplets: the body is left empty. A body that
  assigns `i`, `j` or `k`, or that leaves via `break`, `continue` or
  `return`, is not modelled. Neither is the repeated evaluation of the
  `$max` expression. `max` is a natural number, and the usize underflow
  of `$max - 2` for a slice shorter than two is excluded by the
  precondition.
