# luther-redfa core in Dafny

A model of the foundation of the `luther-redfa` regular-expression-to-DFA compiler.

- **Inclusive character ranges** (`Range`): order-normalizing construction and the adjacency-aware `coalesce`.
- **Boolean partition sets** (`PartitionSet`): a subset of an ordered alphabet, stored as a minimal ascending sequence of (lower bound, value) segments.
  - Operations: membership, union, complement, the full set, the "complement is empty" test, lifting to a partition map with arbitrary values, collecting from ranges, and iterating back out as maximal ranges.
- **Regex context**: an append-only arena of `RegexKind` nodes, with `empty` and `class` factories and the `kind` projection.

The alphabet is the integers `0..=0x10FFFF`. `Decrement` returns the predecessor, and `None` at 0.

The modules follow the crate's structure:

| file | module | models |
|---|---|---|
| `alphabet.dfy` | `Alphabet` | the alphabet capability: the order and `decrement` |
| `ranges.dfy` | `Ranges` | `Range::{new, coalesce}`, plus separated range lists (what iteration yields) |
| `partition.dfy` | `Partition` | `PartitionMap` as a segment sequence: the validity invariant, `get`, minimization, `new`, `from_partition_map_to_bool` |
| `partition_set.dfy` | `PartitionSets` | `PartitionSet` and its operations, `FromIterator<Range>`, range iteration |
| `regex.dfy` | `Regex` | `Class`, `RegexKind`, `RegexContext::{new, empty, class}`, `Regex::kind` |

A partition map is valid when all three hold:
- its first bound is the alphabet minimum;
- its bounds strictly increase;
- no two consecutive segments carry equal values.

`Partition.Canonical` proves that two valid maps with the same `Get` are structurally equal. So the derived `PartialEq` on sets coincides with set equality, and the algebraic laws hold as plain `==`.

The doc comments at regex.rs:15-20 promise ≈-canonical form, but the factories allocate a fresh node per call (regex.rs:42, 58). The model follows the code:
- `empty()` and `class()` allocate a fresh node on every call. No interning or sharing is modelled.
- `coalesce` is modelled as written, including the two defects listed under "## Findings".

## Model

| member | source | states |
|---|---|---|
| Ranges.New | luther-redfa/src/regex.rs:176-188 | the endpoints are put in order; `{start, end} == {a, b}`; ordered input is stored unchanged; the range holds exactly the letters between the two arguments |
| Ranges.Arrange | luther-redfa/src/regex.rs:205-209 | the anchor is the operand with the smaller start, `self` on a tie; the pair is the two operands |
| Ranges.Coalesce | luther-redfa/src/regex.rs:204-221 | as written: succeeds iff the ranges overlap or touch and do not both start at the alphabet minimum; the merged range starts at the earlier start and ends at the later-starting range's end (`other`'s on a tie); on failure it returns `(self, other)` in argument order |
| Ranges.CoalesceCoversIff | luther-redfa/src/regex.rs:214-215 | a merged range covers exactly the letters of both operands iff the compared range (`other` on a tie) does not end before the anchor |
| Ranges.CoalesceOrderIndependent | luther-redfa/src/regex.rs:205-220 | with distinct starts, success and the merged range do not depend on argument order; a failure returns the operands in the order given |
| Ranges.CoalesceTieDependsOnOrder | luther-redfa/src/regex.rs:205-215 | on equal starts the receiver anchors, so `[3,5]` with `[3,10]` gives `[3,10]` but `[3,10]` with `[3,5]` gives `[3,5]`: the result depends on argument order |
| Ranges.CoalesceAgreesWithMerge | luther-redfa/src/regex.rs:204-221 | away from the two defects, the literal `Coalesce` equals the corrected `Merge` |
| Ranges.CoalesceDropsNestedTail | luther-redfa/src/regex.rs:214-215 | counterexample: `[1,10]` coalesced with `[3,5]` gives `[1,5]`, dropping 7, while `Merge` gives `[1,10]` |
| Ranges.CoalesceMissesOverlapAtMinimum | luther-redfa/src/regex.rs:211-213 | counterexample: the overlapping `[0,5]` and `[0,3]` are returned apart, while `Merge` merges them |
| Ranges.Merge | luther-redfa/src/regex.rs:204-221 | corrected merge: succeeds iff the ranges overlap or touch; the result covers exactly the letters of both; a failure returns both operands |
| Ranges.MergeApartHasGap | luther-redfa/src/regex.rs:204-221 | when `Merge` fails, some letter lies strictly between the two ranges and in neither |
| Ranges.MergeSymmetric | luther-redfa/src/regex.rs:205-209 | the corrected merge is independent of argument order |
| Ranges.SeparatedNotMergeable | luther-redfa/src/regex.rs:131-134 | no two ranges of a separated list can be merged by either `Merge` or `Coalesce` |
| Ranges.SeparatedUnique | luther-redfa/src/regex.rs:131-139 | a separated range list is determined by the letters it covers |
| Partition.GetInSegment | luther-redfa/src/partition/set.rs:36-38 | a lookup reads the value of the segment that holds the letter, whichever index holds it |
| Partition.Get | luther-redfa/src/partition/set.rs:36-38 | `get` is total on valid maps and returns the value of a segment holding the letter |
| Partition.Canonical | luther-redfa/src/partition/set.rs:24-27 | two valid maps that agree on every letter are structurally equal |
| Partition.Normalize | luther-redfa/src/partition/set.rs:44-48 | the result is valid and minimal from the same first bound and value; already-minimal input is returned unchanged |
| Partition.NormalizeGet | luther-redfa/src/partition/set.rs:44-48 | minimizing changes the value of no letter |
| Partition.NewMap | luther-redfa/src/partition/set.rs:30-34 | `PartitionMap::new(range, in, out)` is valid and maps letters inside the range to `in` and all others to `out` |
| Partition.FromBoolMap | luther-redfa/src/partition/set.rs:56-61 | the lifted map is valid, reads `in` where the Boolean map is true and `out` elsewhere, over the same bounds when `in != out` |
| PartitionSets.Contains | luther-redfa/src/partition/set.rs:36-38 | membership is the value of the unique segment holding the letter |
| PartitionSets.EmptySet | luther-redfa/src/partition/set.rs:64-73 | the starting set of collection is valid and has no member |
| PartitionSets.FullSingleton | luther-redfa/src/partition/set.rs:30-34 | the full set is valid and contains every letter |
| PartitionSets.IsComplementEmpty | luther-redfa/src/partition/set.rs:40-42 | true iff every letter is a member |
| PartitionSets.ZipOrGet | luther-redfa/src/partition/set.rs:44-48 | merging the two segment sequences gives every letter the disjunction of its two values |
| PartitionSets.Union | luther-redfa/src/partition/set.rs:44-48 | the union is valid (minimal); a letter is a member iff it is in either operand |
| PartitionSets.Complement | luther-redfa/src/partition/set.rs:50-54 | the complement is valid; every membership flips; the segment bounds are unchanged |
| PartitionSets.IntoMap | luther-redfa/src/partition/set.rs:56-61 | the lifted map is valid; it gives `in` to members and `out` to the rest, over the set's bounds when `in != out` |
| PartitionSets.FromRanges | luther-redfa/src/partition/set.rs:64-73 | the collected set is valid; a letter is a member iff some input range holds it |
| PartitionSets.RangesOfCovers | luther-redfa/src/partition/set.rs:75-96 | the ranges read off a segment sequence cover exactly its true letters |
| PartitionSets.IntoRanges | luther-redfa/src/partition/set.rs:75-96 | iteration yields increasing, disjoint, unmergeable ranges covering exactly the members |
| PartitionSets.SameMembersEqual | luther-redfa/src/partition/set.rs:24-27 | two sets with the same members are structurally equal |
| PartitionSets.UnionCommutative | luther-redfa/src/partition/set.rs:44-48 | `a ∪ b == b ∪ a` |
| PartitionSets.UnionAssociative | luther-redfa/src/partition/set.rs:44-48 | `(a ∪ b) ∪ c == a ∪ (b ∪ c)` |
| PartitionSets.UnionComplementIsFull | luther-redfa/src/partition/set.rs:40-54 | `s ∪ complement(s)` has an empty complement and equals the full set |
| PartitionSets.ComplementInvolutive | luther-redfa/src/partition/set.rs:50-54 | complementing twice gives back the same set |
| PartitionSets.FullSingletonUnique | luther-redfa/src/partition/set.rs:30-42 | a set's complement is empty iff the set is the full set |
| PartitionSets.FromNoRanges | luther-redfa/src/partition/set.rs:64-73 | collecting no range gives the empty set: no ranges on iteration, complement not empty, its complement full |
| PartitionSets.FromRangesDependsOnCoverage | luther-redfa/src/partition/set.rs:64-73 | range lists that cover the same letters collect to equal sets |
| PartitionSets.FromRangesOrderIndependent | luther-redfa/src/partition/set.rs:64-73 | reordering the input ranges gives an equal set |
| PartitionSets.IntoRangesRoundTrip | luther-redfa/src/partition/set.rs:64-96 | collecting a set's own ranges rebuilds the set |
| PartitionSets.FromRangesRoundTrip | luther-redfa/src/partition/set.rs:64-96 | iterating the set collected from separated ranges yields exactly those ranges |
| PartitionSets.IntoRangesNotMergeable | luther-redfa/src/partition/set.rs:75-96 | no two yielded ranges can be merged |
| PartitionSets.UnionMergesTouchingRanges | luther-redfa/src/partition/set.rs:44-48 | `[b,c] ∪ [c,d]` iterates as `[b,d]` and `[b,c] ∪ [d,e]` as `[b,e]` |
| Regex.ClassFromRanges | luther-redfa/src/regex.rs:142-151 | a class collected from ranges is valid and holds exactly the covered letters |
| Regex.ClassRanges | luther-redfa/src/regex.rs:130-139 | a class's ranges are increasing, non-overlapping, with adjacent ones combined, covering exactly its letters |
| Regex.NewContext | luther-redfa/src/regex.rs:29-34 | a new context owns no node |
| Regex.Kind | luther-redfa/src/regex.rs:94-98 | a handle's kind is a node of its context |
| Regex.EmptyRegex | luther-redfa/src/regex.rs:36-44 | appends exactly one node, keeping earlier ones; the handle is fresh and its kind is `Empty` |
| Regex.ClassRegex | luther-redfa/src/regex.rs:46-60 | appends exactly one node, keeping earlier ones; the handle is fresh; its kind is a class holding exactly the covered letters |
| Regex.KindStable | luther-redfa/src/regex.rs:24-26 | growing a context keeps earlier handles valid, with the same kind |
| Regex.ExtendsTransitive | luther-redfa/src/regex.rs:24-26 | the arena only grows across successive factory calls |
| Regex.EmptyThenClass | luther-redfa/src/regex.rs:235-251 | `empty` then `class` in a new context gives two nodes: an `Empty` and a `Class` under distinct handles |
| Regex.ClassRoundTripsSimpleRanges | luther-redfa/src/regex.rs:253-264 | a class built from `[a,c]` and `[g,h]` reads back exactly those ranges |
| Regex.ClassRoundTrip | luther-redfa/src/regex.rs:131-151 | separated ranges round-trip unchanged through a class |
| Regex.EmptyClassMatchesNothing | luther-redfa/src/regex.rs:46-51 | a class from no ranges has no member and no ranges |

## Left out

- The `typed_arena` allocator, references and lifetimes: the arena is a sequence, a handle is an index, and ownership is the `Owns` predicate.
- `concat`, `repetition`, `alteration`, `and`, `complement` factories: they are unimplemented stubs (regex.rs:62-80). Their kinds exist only as operand-less constructors.
- Interning and ≈-canonical form: the code allocates a fresh node on every call, so no shared handles are claimed.
- Regex matching semantics: the crate has no matcher.
- `Debug`, `Hash` and `PartialOrd` derives, and the `&Range == Range` convenience impl: Dafny datatype equality plays the role of `PartialEq`.
- `Range::start` and `Range::end`: they return the stored endpoints, which are the `start` and `end` fields of the model's `Span`.
- The `Ranges` and `PartitionSetRangeIter` iterator structs: iteration is modelled as the whole sequence it yields (`IntoRanges`, `ClassRanges`).
- The `Alphabet` trait: alphabet.rs is not part of this model. `Alphabet.Decrement` stands in for its `decrement`.
- The `char` alphabet and its surrogate gap: the alphabet is a bounded integer range.
- `PartitionMap` algorithms: partition/map.rs is not part of this model. `get`, `new`, `union`, `complement`, `is_complement_empty`, `from_partition_map_to_bool`, range iteration and collection are specified on the segment-sequence model.
  - Collection is the left fold of union with one-range sets, starting from the empty set.
- Partition.FromBoolMap: when `in == out` the model re-minimizes to a single segment, so the map stays minimal; `from_partition_map_to_bool` in partition/map.rs is not modelled.
- PartitionSets.IntoMap: the set's bounds are mirrored only when `in != out`; when `in == out` minimality forces the result to collapse to a single segment, as for `Partition.FromBoolMap`.

## Findings

| source | as written | input that shows it | evidently intended | confidence | as-written member | corrected member |
|---|---|---|---|---|---|---|
| luther-redfa/src/regex.rs:214-215 | the merged range is `New(anchor.start, comp.end)` | `[1,10].coalesce([3,5])` gives `[1,5]`, losing 6..10 | end at the larger of the two ends, covering both ranges | not executed; high | Ranges.CoalesceDropsNestedTail | Ranges.Merge |
| luther-redfa/src/regex.rs:211-213 | a merge requires `comp.start.decrement()` to exist | `[0,5].coalesce([0,3])` fails although the ranges overlap | overlapping ranges merge even at the alphabet minimum | not executed; high | Ranges.CoalesceMissesOverlapAtMinimum | Ranges.Merge |

The literal `Coalesce` is kept as the model of the code. The corrected `Merge` is what the rest of the model uses to state that iterated ranges cannot be merged (`Ranges.SeparatedNotMergeable`, `PartitionSets.IntoRangesNotMergeable`).
