/**
  Inclusive character ranges and their adjacency-aware merge
  (`Range` in luther-redfa/src/regex.rs).
 */
module Ranges {
  import opened Alphabet

  datatype Span = Span(start: Letter, end: Letter)

  /** A range always has its endpoints in order: `New` is its only constructor. */
  type Range = s: Span | s.start <= s.end witness Span(MinLetter, MinLetter)

  /** `u` lies inside the inclusive range `r`. */
  predicate InRange(r: Range, u: Letter) {
    r.start <= u <= r.end
  }

  /** Builds a range, swapping the endpoints when they are given reversed. */
  function New(a: Letter, b: Letter): (r: Range)
    ensures {r.start, r.end} == {a, b}
    ensures a <= b ==> r == Span(a, b)
    ensures forall u: Letter :: InRange(r, u) <==> (a <= u <= b || b <= u <= a)
  {
    if b < a then Span(b, a) else Span(a, b)
  }

  /**
    Chooses the merge anchor (first) and the compared range (second): the
    anchor is the range that starts no later, the receiver `r` on a tie.
   */
  function Arrange(r: Range, other: Range): (p: (Range, Range))
    ensures p.0.start <= p.1.start
    ensures p == (r, other) || p == (other, r)
    ensures r.start <= other.start ==> p == (r, other)
    ensures other.start < r.start ==> p == (other, r)
  {
    if r.start <= other.start then (r, other) else (other, r)
  }

  /** Two ranges overlap or touch: no letter lies strictly between them. */
  predicate Touch(a: Range, b: Range) {
    a.start <= b.end + 1 && b.start <= a.end + 1
  }

  /** The outcome of a merge attempt: one range, or both operands back. */
  datatype Coalesced = Merged(range: Range) | Apart(first: Range, second: Range)

  /**
    `Range::coalesce` as written: the later-starting range is merged into the
    anchor when its start has a predecessor that is not past the anchor's end,
    and the merged range then ends where the later-starting range ends.
   */
  function Coalesce(r: Range, other: Range): (c: Coalesced)
    ensures c.Apart? ==> c.first == r && c.second == other
    ensures c.Merged? <==> Touch(r, other) && !(r.start == MinLetter && other.start == MinLetter)
    ensures c.Merged? ==>
              c.range.start == (if r.start <= other.start then r.start else other.start) &&
              c.range.end == (if other.start < r.start then r.end else other.end)
  {
    var (anchor, comp) := Arrange(r, other);
    match Decrement(comp.start)
    case Some(p) =>
      if p <= anchor.end then Merged(New(anchor.start, comp.end)) else Apart(r, other)
    case None => Apart(r, other)
  }

  /**
    The merge the crate evidently intends: two ranges merge exactly when they
    overlap or are adjacent, and the merged range covers both of them.
   */
  function Merge(r: Range, other: Range): (c: Coalesced)
    ensures c.Merged? <==> Touch(r, other)
    ensures c.Merged? ==> forall u: Letter :: InRange(c.range, u) <==> InRange(r, u) || InRange(other, u)
    ensures c.Apart? ==> c.first == r && c.second == other
  {
    var (anchor, comp) := Arrange(r, other);
    if comp.start <= anchor.end + 1 then
      Merged(Span(anchor.start, if anchor.end < comp.end then comp.end else anchor.end))
    else
      Apart(r, other)
  }

  /** When `Merge` fails, a letter lies strictly between the two ranges and in neither. */
  lemma MergeApartHasGap(a: Range, b: Range)
    requires Merge(a, b).Apart?
    ensures exists g: Letter :: !InRange(a, g) && !InRange(b, g) &&
                                (a.end < g < b.start || b.end < g < a.start)
  {
    if a.end < b.start {
      var g: Letter := a.end + 1;
      assert !InRange(a, g) && !InRange(b, g);
    } else {
      var g: Letter := b.end + 1;
      assert !InRange(a, g) && !InRange(b, g);
    }
  }

  /** The corrected merge does not depend on argument order. */
  lemma MergeSymmetric(a: Range, b: Range)
    ensures Merge(a, b).Merged? <==> Merge(b, a).Merged?
    ensures Merge(a, b).Merged? ==> Merge(a, b).range == Merge(b, a).range
  {
    if Merge(a, b).Merged? {
      var r, r' := Merge(a, b).range, Merge(b, a).range;
      assert r.start == r'.start by {
        assert InRange(r, r.start) && InRange(r', r'.start);
      }
      assert r.end == r'.end by {
        assert InRange(r, r.end) && InRange(r', r'.end);
      }
    }
  }

  /**
    A successful `Coalesce` ends where the compared range ends, so it covers
    exactly both operands iff the compared range (`other` on a tie) does not
    end before the anchor.
   */
  lemma CoalesceCoversIff(a: Range, b: Range)
    requires Coalesce(a, b).Merged?
    ensures (forall u: Letter :: InRange(Coalesce(a, b).range, u) <==> InRange(a, u) || InRange(b, u))
            <==> (if b.start < a.start then b.end <= a.end else a.end <= b.end)
  {
    var r := Coalesce(a, b).range;
    if b.start < a.start {
      if a.end < b.end {
        assert InRange(b, b.end) && !InRange(r, b.end);
      }
    } else if b.end < a.end {
      assert InRange(a, a.end) && !InRange(r, a.end);
    }
  }

  /**
    Outside the two defects above (later-starting range nested in the anchor,
    both starting at the bottom), the literal `Coalesce` agrees with `Merge`.
   */
  lemma CoalesceAgreesWithMerge(a: Range, b: Range)
    requires !(a.start == MinLetter && b.start == MinLetter)
    requires if b.start < a.start then b.end <= a.end else a.end <= b.end
    ensures Coalesce(a, b) == Merge(a, b)
  {
    if Coalesce(a, b).Merged? {
      var r, r' := Coalesce(a, b).range, Merge(a, b).range;
      assert r.start == r'.start by {
        assert InRange(r, r.start) && InRange(r', r'.start);
      }
      assert r.end == r'.end by {
        assert InRange(r, r.end) && InRange(r', r'.end);
      }
    }
  }

  /**
    When the starts differ the anchor does not depend on argument order, and
    neither does the merged range; on a failure the operands come back in the
    order they were given.
   */
  lemma CoalesceOrderIndependent(a: Range, b: Range)
    requires a.start != b.start
    ensures Coalesce(a, b).Merged? <==> Coalesce(b, a).Merged?
    ensures Coalesce(a, b).Merged? ==> Coalesce(a, b).range == Coalesce(b, a).range
    ensures Coalesce(a, b).Apart? ==> Coalesce(a, b) == Apart(a, b) && Coalesce(b, a) == Apart(b, a)
  {
  }

  /** Defect: [1, 10] coalesced with the nested [3, 5] yields [1, 5], dropping 6..10. */
  lemma CoalesceDropsNestedTail()
    ensures Coalesce(Span(1, 10), Span(3, 5)) == Merged(Span(1, 5))
    ensures InRange(Span(1, 10), 7) && !InRange(Coalesce(Span(1, 10), Span(3, 5)).range, 7)
    ensures Merge(Span(1, 10), Span(3, 5)) == Merged(Span(1, 10))
  {
    var m := Merge(Span(1, 10), Span(3, 5)).range;
    assert InRange(m, 1) && !InRange(m, 0);
    assert InRange(m, 10) && !InRange(m, 11);
  }

  /**
    On equal starts the receiver is the anchor, so the merged range ends where
    the argument ends and swapping the operands changes the result.
   */
  lemma CoalesceTieDependsOnOrder()
    ensures Coalesce(Span(3, 5), Span(3, 10)) == Merged(Span(3, 10))
    ensures Coalesce(Span(3, 10), Span(3, 5)) == Merged(Span(3, 5))
  {
  }

  /** Defect: [0, 5] and [0, 3] overlap, yet `Coalesce` keeps them apart. */
  lemma CoalesceMissesOverlapAtMinimum()
    ensures Coalesce(Span(0, 5), Span(0, 3)) == Apart(Span(0, 5), Span(0, 3))
    ensures InRange(Span(0, 5), 2) && InRange(Span(0, 3), 2)
    ensures Merge(Span(0, 5), Span(0, 3)).Merged?
  {
  }

  /**
    A list of ranges in increasing order, each separated from every later one
    by at least one letter: sorted, disjoint and with nothing left to merge.
   */
  predicate Separated(rs: seq<Range>) {
    forall i, j :: 0 <= i < j < |rs| ==> rs[i].end + 1 < rs[j].start
  }

  /** `u` lies in one of the ranges of `rs`. */
  predicate Covers(rs: seq<Range>, u: Letter) {
    exists i :: 0 <= i < |rs| && InRange(rs[i], u)
  }

  /** Helper: a list with one more range in front covers that range besides the rest. */
  lemma CoversCons(r: Range, rs: seq<Range>, u: Letter)
    ensures Covers([r] + rs, u) <==> InRange(r, u) || Covers(rs, u)
  {
    if Covers(rs, u) {
      var k :| 0 <= k < |rs| && InRange(rs[k], u);
      assert ([r] + rs)[k + 1] == rs[k];
    }
    if Covers([r] + rs, u) {
      var k :| 0 <= k < |rs| + 1 && InRange(([r] + rs)[k], u);
      if k > 0 {
        assert ([r] + rs)[k] == rs[k - 1];
      }
    }
    assert ([r] + rs)[0] == r;
  }

  /** Helper: a list with one more range at the back covers that range besides the rest. */
  lemma CoversSnoc(rs: seq<Range>, r: Range, u: Letter)
    ensures Covers(rs + [r], u) <==> Covers(rs, u) || InRange(r, u)
  {
    if Covers(rs, u) {
      var k :| 0 <= k < |rs| && InRange(rs[k], u);
      assert (rs + [r])[k] == rs[k];
    }
    if Covers(rs + [r], u) && !InRange(r, u) {
      var k :| 0 <= k < |rs| + 1 && InRange((rs + [r])[k], u);
      assert k < |rs| && (rs + [r])[k] == rs[k];
    }
    if InRange(r, u) {
      assert (rs + [r])[|rs|] == r;
    }
  }

  /** No two ranges of a separated list can be merged, by either merge. */
  lemma SeparatedNotMergeable(rs: seq<Range>, i: nat, j: nat)
    requires Separated(rs) && i < |rs| && j < |rs| && i != j
    ensures Merge(rs[i], rs[j]).Apart?
    ensures Coalesce(rs[i], rs[j]) == Apart(rs[i], rs[j])
  {
  }

  /** A separated list of ranges is determined by the letters it covers. */
  lemma {:induction false} SeparatedUnique(rs: seq<Range>, ts: seq<Range>)
    requires Separated(rs) && Separated(ts)
    requires forall u: Letter :: Covers(rs, u) <==> Covers(ts, u)
    ensures rs == ts
    decreases |rs| + |ts|
  {
    if |rs| == 0 || |ts| == 0 {
      if |rs| > 0 {
        assert Covers(rs, rs[0].start) by { assert InRange(rs[0], rs[0].start); }
      } else if |ts| > 0 {
        assert Covers(ts, ts[0].start) by { assert InRange(ts[0], ts[0].start); }
      }
    } else {
      SameFirstRange(rs, ts);
      SameFirstRange(ts, rs);
      var r0 := rs[0];
      var rs', ts' := rs[1..], ts[1..];
      forall u: Letter
        ensures Covers(rs', u) <==> Covers(ts', u)
      {
        CoversTail(rs, u);
        CoversTail(ts, u);
      }
      SeparatedUnique(rs', ts');
      assert rs == [r0] + rs' && ts == [r0] + ts';
    }
  }

  /** Helper: the first range of `rs` starts no later than that of `ts`, and ends no later on a common start. */
  lemma SameFirstRange(rs: seq<Range>, ts: seq<Range>)
    requires Separated(rs) && Separated(ts) && |rs| > 0 && |ts| > 0
    requires forall u: Letter :: Covers(rs, u) <==> Covers(ts, u)
    ensures rs[0].start <= ts[0].start
    ensures rs[0].start == ts[0].start ==> rs[0].end <= ts[0].end
  {
    var u := ts[0].start;
    assert InRange(ts[0], u);
    assert Covers(rs, u);
    var k :| 0 <= k < |rs| && InRange(rs[k], u);
    assert rs[0].start <= rs[k].start;
    if rs[0].start == ts[0].start && ts[0].end < MaxLetter {
      var v: Letter := ts[0].end + 1;
      forall m | 0 <= m < |ts|
        ensures !InRange(ts[m], v)
      {
      }
      assert !Covers(ts, v);
      assert !InRange(rs[0], v);
    }
  }

  /** Helper: the tail of a separated list covers what the list covers past its first range. */
  lemma CoversTail(rs: seq<Range>, u: Letter)
    requires Separated(rs) && |rs| > 0
    ensures Covers(rs[1..], u) <==> Covers(rs, u) && rs[0].end < u
  {
    if Covers(rs[1..], u) {
      var k :| 0 <= k < |rs| - 1 && InRange(rs[1..][k], u);
      assert InRange(rs[k + 1], u);
    }
    if Covers(rs, u) && rs[0].end < u {
      var k :| 0 <= k < |rs| && InRange(rs[k], u);
      assert k != 0;
      assert InRange(rs[1..][k - 1], u);
    }
  }
}
