/**
  Boolean partition sets (`PartitionSet` in luther-redfa/src/partition/set.rs):
  a subset of the alphabet, held as a partition map to `bool`.
 */
module PartitionSets {
  import opened Alphabet
  import opened Ranges
  import opened Partition

  datatype PartitionSet = PartitionSet(partition: PartitionMap<bool>)

  /** The partition map invariant, read on the underlying map. */
  predicate ValidSet(s: PartitionSet) {
    Valid(s.partition)
  }

  /** `PartitionSet::contains`: the value of the segment holding `u`. */
  function Contains(s: PartitionSet, u: Letter): (b: bool)
    requires ValidSet(s)
    ensures forall i :: 0 <= i < |s.partition.segments| && InSegment(s.partition.segments, i, u) ==>
              b == s.partition.segments[i].value
  {
    var segs := s.partition.segments;
    forall i | 0 <= i < |segs| && InSegment(segs, i, u)
      ensures Get(s.partition, u) == segs[i].value
    {
      GetInSegment(segs, i, u);
    }
    Get(s.partition, u)
  }

  /** The set with no member: the starting point of collecting ranges. */
  function EmptySet(): (s: PartitionSet)
    ensures ValidSet(s)
    ensures forall u: Letter :: !Contains(s, u)
  {
    var s := PartitionSet(PartitionMap([Segment(MinLetter, false)]));
    forall u: Letter
      ensures !Contains(s, u)
    {
      GetInSegment(s.partition.segments, 0, u);
    }
    s
  }

  /** `PartitionSet::full_singlton`: the whole alphabet, `true` inside an unbounded range. */
  function FullSingleton(): (s: PartitionSet)
    ensures ValidSet(s)
    ensures forall u: Letter :: Contains(s, u)
  {
    PartitionSet(NewMap(Span(MinLetter, MaxLetter), true, false))
  }

  /** Helper: no segment is `false` exactly when every letter is a member. */
  lemma AllSegmentsTrue(s: PartitionSet)
    requires ValidSet(s)
    ensures (forall i | 0 <= i < |s.partition.segments| :: s.partition.segments[i].value)
            <==> forall u: Letter :: Contains(s, u)
  {
    var segs := s.partition.segments;
    if forall u: Letter :: Contains(s, u) {
      forall i | 0 <= i < |segs|
        ensures segs[i].value
      {
        assert Contains(s, segs[i].lower);
      }
    }
  }

  /** `PartitionSet::is_complement_empty`: holds exactly when every letter is a member. */
  function IsComplementEmpty(s: PartitionSet): (r: bool)
    requires ValidSet(s)
    ensures r <==> forall u: Letter :: Contains(s, u)
  {
    var segs := s.partition.segments;
    AllSegmentsTrue(s);
    forall i | 0 <= i < |segs| :: segs[i].value
  }

  /**
    Walks two ascending segment sequences from a common first bound, cutting
    at every bound of either and or-ing the two values on each piece.
   */
  function ZipOr(xs: seq<Segment<bool>>, ys: seq<Segment<bool>>): (r: seq<Segment<bool>>)
    requires |xs| > 0 && |ys| > 0 && xs[0].lower == ys[0].lower
    requires Ascending(xs) && Ascending(ys)
    ensures |r| > 0 && r[0].lower == xs[0].lower && Ascending(r)
    decreases |xs| + |ys|
  {
    var head := Segment(xs[0].lower, xs[0].value || ys[0].value);
    if |xs| == 1 && |ys| == 1 then
      [head]
    else if |ys| == 1 || (|xs| > 1 && xs[1].lower < ys[1].lower) then
      [head] + ZipOr(xs[1..], [Segment(xs[1].lower, ys[0].value)] + ys[1..])
    else if |xs| == 1 || ys[1].lower < xs[1].lower then
      [head] + ZipOr([Segment(ys[1].lower, xs[0].value)] + xs[1..], ys[1..])
    else
      [head] + ZipOr(xs[1..], ys[1..])
  }

  /** Every letter past the common first bound reads the disjunction of the two inputs. */
  lemma {:induction false} ZipOrGet(xs: seq<Segment<bool>>, ys: seq<Segment<bool>>, u: Letter)
    requires |xs| > 0 && |ys| > 0 && xs[0].lower == ys[0].lower
    requires Ascending(xs) && Ascending(ys)
    requires xs[0].lower <= u
    ensures GetIn(ZipOr(xs, ys), u) == (GetIn(xs, u) || GetIn(ys, u))
    decreases |xs| + |ys|
  {
    var head := Segment(xs[0].lower, xs[0].value || ys[0].value);
    if |xs| == 1 && |ys| == 1 {
    } else if |ys| == 1 || (|xs| > 1 && xs[1].lower < ys[1].lower) {
      var ys' := [Segment(xs[1].lower, ys[0].value)] + ys[1..];
      var rest := ZipOr(xs[1..], ys');
      GetInCons(head, rest, u);
      if xs[1].lower <= u {
        ZipOrGet(xs[1..], ys', u);
        GetInCons(ys'[0], ys[1..], u);
        assert ys == [ys[0]] + ys[1..];
        GetInCons(ys[0], ys[1..], u);
      }
    } else if |xs| == 1 || ys[1].lower < xs[1].lower {
      var xs' := [Segment(ys[1].lower, xs[0].value)] + xs[1..];
      var rest := ZipOr(xs', ys[1..]);
      GetInCons(head, rest, u);
      if ys[1].lower <= u {
        ZipOrGet(xs', ys[1..], u);
        GetInCons(xs'[0], xs[1..], u);
        assert xs == [xs[0]] + xs[1..];
        GetInCons(xs[0], xs[1..], u);
      }
    } else {
      var rest := ZipOr(xs[1..], ys[1..]);
      GetInCons(head, rest, u);
      if xs[1].lower <= u {
        ZipOrGet(xs[1..], ys[1..], u);
      }
    }
  }

  /** `PartitionSet::union`: the pointwise disjunction, re-minimized. */
  function Union(a: PartitionSet, b: PartitionSet): (r: PartitionSet)
    requires ValidSet(a) && ValidSet(b)
    ensures ValidSet(r)
    ensures forall u: Letter :: Contains(r, u) == (Contains(a, u) || Contains(b, u))
  {
    var zipped := ZipOr(a.partition.segments, b.partition.segments);
    var r := PartitionSet(PartitionMap(Normalize(zipped)));
    forall u: Letter
      ensures Contains(r, u) == (Contains(a, u) || Contains(b, u))
    {
      NormalizeGet(zipped, u);
      ZipOrGet(a.partition.segments, b.partition.segments, u);
    }
    r
  }

  /** `PartitionSet::complement`: every membership flips and the bounds stay put. */
  function Complement(s: PartitionSet): (r: PartitionSet)
    requires ValidSet(s)
    ensures ValidSet(r)
    ensures forall u: Letter :: Contains(r, u) == !Contains(s, u)
    ensures |r.partition.segments| == |s.partition.segments|
    ensures forall i :: 0 <= i < |s.partition.segments| ==>
              r.partition.segments[i].lower == s.partition.segments[i].lower
  {
    PartitionSet(FromBoolMap(s.partition, false, true))
  }

  /**
    `PartitionSet::into_map`: the partition map giving `inside` to members and
    `outside` to the rest, over the set's own bounds when the two differ.
   */
  function IntoMap<V(==)>(s: PartitionSet, inside: V, outside: V): (m: PartitionMap<V>)
    requires ValidSet(s)
    ensures Valid(m)
    ensures forall u: Letter :: Get(m, u) == if Contains(s, u) then inside else outside
    ensures inside != outside ==>
              |m.segments| == |s.partition.segments| &&
              forall i :: 0 <= i < |m.segments| ==> m.segments[i].lower == s.partition.segments[i].lower
  {
    FromBoolMap(s.partition, inside, outside)
  }

  /**
    Collecting ranges into a set (`FromIterator<Range>`): starting from the
    empty set, each range in turn is united with the accumulated set.
   */
  function FromRanges(rs: seq<Range>): (s: PartitionSet)
    ensures ValidSet(s)
    ensures forall u: Letter :: Contains(s, u) <==> Covers(rs, u)
    decreases |rs|
  {
    if |rs| == 0 then
      EmptySet()
    else
      var prefix, last := rs[..|rs| - 1], rs[|rs| - 1];
      var s := Union(FromRanges(prefix), PartitionSet(NewMap(last, true, false)));
      forall u: Letter
        ensures Contains(s, u) <==> Covers(rs, u)
      {
        assert rs == prefix + [last];
        CoversSnoc(prefix, last, u);
      }
      s
  }

  /**
    The maximal runs of `true` segments as ranges: each `true` segment ends
    just before the next bound, or at the top of the alphabet.
   */
  function RangesOf(s: seq<Segment<bool>>): (rs: seq<Range>)
    requires |s| > 0 && Ascending(s) && Minimal(s)
    ensures Separated(rs)
    ensures forall i :: 0 <= i < |rs| ==> s[0].lower <= rs[i].start
    ensures forall i :: 0 <= i < |rs| ==> !s[0].value ==> s[0].lower < rs[i].start
    decreases |s|
  {
    var end := if |s| > 1 then s[1].lower - 1 else MaxLetter;
    var rest := if |s| > 1 then RangesOf(s[1..]) else [];
    if s[0].value then [Span(s[0].lower, end)] + rest else rest
  }

  /** The ranges of a segment sequence cover exactly its `true` letters. */
  lemma {:induction false} RangesOfCovers(s: seq<Segment<bool>>, u: Letter)
    requires |s| > 0 && Ascending(s) && Minimal(s) && s[0].lower <= u
    ensures Covers(RangesOf(s), u) <==> GetIn(s, u)
    decreases |s|
  {
    var end := if |s| > 1 then s[1].lower - 1 else MaxLetter;
    var rest := if |s| > 1 then RangesOf(s[1..]) else [];
    if |s| > 1 && s[1].lower <= u {
      RangesOfCovers(s[1..], u);
    } else if |s| > 1 {
      assert !Covers(rest, u);
    }
    if s[0].value {
      CoversCons(Span(s[0].lower, end), rest, u);
    }
  }

  /**
    Iterating a set (`PartitionSetRangeIter`): increasing, disjoint ranges with
    nothing left to merge, covering exactly the members.
   */
  function IntoRanges(s: PartitionSet): (rs: seq<Range>)
    requires ValidSet(s)
    ensures Separated(rs)
    ensures forall u: Letter :: Covers(rs, u) <==> Contains(s, u)
  {
    var rs := RangesOf(s.partition.segments);
    forall u: Letter
      ensures Covers(rs, u) <==> Contains(s, u)
    {
      RangesOfCovers(s.partition.segments, u);
    }
    rs
  }

  /** Two sets with the same members are structurally equal. */
  lemma SameMembersEqual(a: PartitionSet, b: PartitionSet)
    requires ValidSet(a) && ValidSet(b)
    requires forall u: Letter :: Contains(a, u) == Contains(b, u)
    ensures a == b
  {
    forall u: Letter
      ensures Get(a.partition, u) == Get(b.partition, u)
    {
      assert Contains(a, u) == Contains(b, u);
    }
    Canonical(a.partition, b.partition);
  }

  /** Union is commutative, as a structural equality. */
  lemma UnionCommutative(a: PartitionSet, b: PartitionSet)
    requires ValidSet(a) && ValidSet(b)
    ensures Union(a, b) == Union(b, a)
  {
    SameMembersEqual(Union(a, b), Union(b, a));
  }

  /** Union is associative, as a structural equality. */
  lemma UnionAssociative(a: PartitionSet, b: PartitionSet, c: PartitionSet)
    requires ValidSet(a) && ValidSet(b) && ValidSet(c)
    ensures Union(Union(a, b), c) == Union(a, Union(b, c))
  {
    SameMembersEqual(Union(Union(a, b), c), Union(a, Union(b, c)));
  }

  /** A set united with its complement is the full set. */
  lemma UnionComplementIsFull(s: PartitionSet)
    requires ValidSet(s)
    ensures IsComplementEmpty(Union(s, Complement(s)))
    ensures Union(s, Complement(s)) == FullSingleton()
  {
    SameMembersEqual(Union(s, Complement(s)), FullSingleton());
  }

  /** Complementing twice gives back the same set. */
  lemma ComplementInvolutive(s: PartitionSet)
    requires ValidSet(s)
    ensures Complement(Complement(s)) == s
  {
    SameMembersEqual(Complement(Complement(s)), s);
  }

  /** The full set is the only set whose complement is empty. */
  lemma FullSingletonUnique(s: PartitionSet)
    requires ValidSet(s)
    ensures IsComplementEmpty(s) <==> s == FullSingleton()
  {
    if IsComplementEmpty(s) {
      SameMembersEqual(s, FullSingleton());
    }
  }

  /** Collecting no range gives the empty set: no ranges, and its complement is everything. */
  lemma FromNoRanges()
    ensures FromRanges([]) == EmptySet()
    ensures !IsComplementEmpty(FromRanges([]))
    ensures IntoRanges(FromRanges([])) == []
    ensures IsComplementEmpty(Complement(FromRanges([])))
  {
    var s := FromRanges([]);
    assert !Contains(s, MinLetter);
    SeparatedUnique(IntoRanges(s), []);
  }

  /** The set collected from ranges depends only on the letters they cover. */
  lemma FromRangesDependsOnCoverage(rs: seq<Range>, ts: seq<Range>)
    requires forall u: Letter :: Covers(rs, u) <==> Covers(ts, u)
    ensures FromRanges(rs) == FromRanges(ts)
  {
    SameMembersEqual(FromRanges(rs), FromRanges(ts));
  }

  /** Reordering the input ranges does not change the collected set. */
  lemma FromRangesOrderIndependent(rs: seq<Range>, ts: seq<Range>)
    requires multiset(rs) == multiset(ts)
    ensures FromRanges(rs) == FromRanges(ts)
  {
    forall u: Letter
      ensures Covers(rs, u) ==> Covers(ts, u)
      ensures Covers(ts, u) ==> Covers(rs, u)
    {
      if Covers(rs, u) {
        var k :| 0 <= k < |rs| && InRange(rs[k], u);
        assert rs[k] in multiset(ts);
        var j :| 0 <= j < |ts| && ts[j] == rs[k];
      }
      if Covers(ts, u) {
        var k :| 0 <= k < |ts| && InRange(ts[k], u);
        assert ts[k] in multiset(rs);
        var j :| 0 <= j < |rs| && rs[j] == ts[k];
      }
    }
    FromRangesDependsOnCoverage(rs, ts);
  }

  /** Iterating a set and collecting the ranges back rebuilds the same set. */
  lemma IntoRangesRoundTrip(s: PartitionSet)
    requires ValidSet(s)
    ensures FromRanges(IntoRanges(s)) == s
  {
    SameMembersEqual(FromRanges(IntoRanges(s)), s);
  }

  /** Collecting separated ranges and iterating the set yields exactly those ranges. */
  lemma FromRangesRoundTrip(rs: seq<Range>)
    requires Separated(rs)
    ensures IntoRanges(FromRanges(rs)) == rs
  {
    SeparatedUnique(IntoRanges(FromRanges(rs)), rs);
  }

  /** No two ranges a set yields can be merged. */
  lemma IntoRangesNotMergeable(s: PartitionSet, i: nat, j: nat)
    requires ValidSet(s) && i < |IntoRanges(s)| && j < |IntoRanges(s)| && i != j
    ensures Merge(IntoRanges(s)[i], IntoRanges(s)[j]).Apart?
    ensures Coalesce(IntoRanges(s)[i], IntoRanges(s)[j]).Apart?
  {
    SeparatedNotMergeable(IntoRanges(s), i, j);
  }

  /** Union merges overlapping and adjacent ranges: [b, c] with [c, d], and [b, c] with [d, e]. */
  lemma UnionMergesTouchingRanges()
    ensures IntoRanges(Union(FromRanges([New('b' as int, 'c' as int)]), FromRanges([New('c' as int, 'd' as int)])))
            == [Span('b' as int, 'd' as int)]
    ensures IntoRanges(Union(FromRanges([New('b' as int, 'c' as int)]), FromRanges([New('d' as int, 'e' as int)])))
            == [Span('b' as int, 'e' as int)]
  {
    var bd: Range := Span('b' as int, 'd' as int);
    var be: Range := Span('b' as int, 'e' as int);
    forall u: Letter
      ensures Covers([New('b' as int, 'c' as int)], u) || Covers([New('c' as int, 'd' as int)], u) <==> Covers([bd], u)
      ensures Covers([New('b' as int, 'c' as int)], u) || Covers([New('d' as int, 'e' as int)], u) <==> Covers([be], u)
    {
      CoversCons(New('b' as int, 'c' as int), [], u);
      CoversCons(New('c' as int, 'd' as int), [], u);
      CoversCons(New('d' as int, 'e' as int), [], u);
      CoversCons(bd, [], u);
      CoversCons(be, [], u);
    }
    SameMembersEqual(Union(FromRanges([New('b' as int, 'c' as int)]), FromRanges([New('c' as int, 'd' as int)])),
                     FromRanges([bd]));
    SameMembersEqual(Union(FromRanges([New('b' as int, 'c' as int)]), FromRanges([New('d' as int, 'e' as int)])),
                     FromRanges([be]));
    FromRangesRoundTrip([bd]);
    FromRangesRoundTrip([be]);
  }
}
