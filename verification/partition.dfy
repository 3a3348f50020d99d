/**
  Partition maps: total functions from the alphabet to a value type, stored as
  a minimal ascending sequence of (lower bound, value) segments. A segment's
  value holds from its lower bound up to, but excluding, the next segment's
  lower bound; the last segment reaches the top of the alphabet.
 */
module Partition {
  import opened Alphabet
  import opened Ranges

  datatype Segment<V> = Segment(lower: Letter, value: V)

  datatype PartitionMap<V> = PartitionMap(segments: seq<Segment<V>>)

  /** Lower bounds strictly increase along the sequence. */
  predicate Ascending<V>(s: seq<Segment<V>>) {
    forall i, j :: 0 <= i < j < |s| ==> s[i].lower < s[j].lower
  }

  /** No two consecutive segments carry an equal value. */
  predicate Minimal<V(==)>(s: seq<Segment<V>>) {
    forall i :: 0 < i < |s| ==> s[i - 1].value != s[i].value
  }

  /** A well-formed, minimal segment sequence whose first bound is `lo`. */
  predicate ValidFrom<V(==)>(s: seq<Segment<V>>, lo: Letter) {
    |s| > 0 && s[0].lower == lo && Ascending(s) && Minimal(s)
  }

  /** The invariant of a partition map: it covers the whole alphabet, minimally. */
  predicate Valid<V(==)>(m: PartitionMap<V>) {
    ValidFrom(m.segments, MinLetter)
  }

  /** `u` falls in the `i`th segment of `s`. */
  predicate InSegment<V>(s: seq<Segment<V>>, i: int, u: Letter)
    requires 0 <= i < |s|
  {
    s[i].lower <= u && (i + 1 == |s| || u < s[i + 1].lower)
  }

  /** The value of the segment holding `u` (the first segment for letters below its bound). */
  function GetIn<V>(s: seq<Segment<V>>, u: Letter): V
    requires |s| > 0
    decreases |s|
  {
    if |s| == 1 || u < s[1].lower then s[0].value else GetIn(s[1..], u)
  }

  /** The index of the segment holding `u`. */
  function IndexOf<V>(s: seq<Segment<V>>, u: Letter): (i: nat)
    requires |s| > 0 && Ascending(s) && s[0].lower <= u
    ensures i < |s| && InSegment(s, i, u)
    ensures GetIn(s, u) == s[i].value
    decreases |s|
  {
    if |s| == 1 || u < s[1].lower then 0 else 1 + IndexOf(s[1..], u)
  }

  /** `PartitionMap::get`: the value the map assigns to `u`. */
  function Get<V(==)>(m: PartitionMap<V>, u: Letter): (v: V)
    requires Valid(m)
    ensures exists i :: 0 <= i < |m.segments| && InSegment(m.segments, i, u) && v == m.segments[i].value
  {
    var i := IndexOf(m.segments, u);
    GetIn(m.segments, u)
  }

  /** The segment holding a letter is unique: `GetIn` reads the value of any segment that holds it. */
  lemma {:induction false} GetInSegment<V>(s: seq<Segment<V>>, i: nat, u: Letter)
    requires Ascending(s) && i < |s| && InSegment(s, i, u)
    ensures GetIn(s, u) == s[i].value
    decreases i
  {
    if i > 0 {
      assert s[1].lower <= s[i].lower;
      assert InSegment(s[1..], i - 1, u);
      GetInSegment(s[1..], i - 1, u);
    }
  }

  /** Reading a letter at or past the second bound skips the first segment. */
  lemma GetInCons<V>(h: Segment<V>, t: seq<Segment<V>>, u: Letter)
    ensures GetIn([h] + t, u) == if |t| == 0 || u < t[0].lower then h.value else GetIn(t, u)
  {
    assert ([h] + t)[1..] == t;
  }

  /**
    Two valid segment sequences from the same bound that read the same on
    every letter past it are identical: the representation is canonical.
   */
  lemma {:induction false} CanonicalFrom<V>(xs: seq<Segment<V>>, ys: seq<Segment<V>>, lo: Letter)
    requires ValidFrom(xs, lo) && ValidFrom(ys, lo)
    requires forall u: Letter :: lo <= u ==> GetIn(xs, u) == GetIn(ys, u)
    ensures xs == ys
    decreases |xs|
  {
    assert xs[0].value == GetIn(xs, lo) == GetIn(ys, lo) == ys[0].value;
    if |xs| == 1 && |ys| == 1 {
      assert xs == [xs[0]] && ys == [ys[0]];
    } else {
      var nx := if |xs| > 1 then xs[1].lower else MaxLetter + 1;
      var ny := if |ys| > 1 then ys[1].lower else MaxLetter + 1;
      // The second bound is the first letter whose value differs from the first segment's.
      if nx < ny {
        var u: Letter := nx;
        GetInSegment(xs, 1, u);
        GetInSegment(ys, 0, u);
      } else if ny < nx {
        var u: Letter := ny;
        GetInSegment(ys, 1, u);
        GetInSegment(xs, 0, u);
      }
      assert nx == ny;
      var lo': Letter := nx;
      forall u: Letter | lo' <= u
        ensures GetIn(xs[1..], u) == GetIn(ys[1..], u)
      {
        assert GetIn(xs, u) == GetIn(xs[1..], u);
        assert GetIn(ys, u) == GetIn(ys[1..], u);
      }
      CanonicalFrom(xs[1..], ys[1..], lo');
      assert xs == [xs[0]] + xs[1..] && ys == [ys[0]] + ys[1..];
    }
  }

  /** Structural equality of valid partition maps is equality as functions. */
  lemma Canonical<V>(a: PartitionMap<V>, b: PartitionMap<V>)
    requires Valid(a) && Valid(b)
    requires forall u: Letter :: Get(a, u) == Get(b, u)
    ensures a == b
  {
    forall u: Letter
      ensures GetIn(a.segments, u) == GetIn(b.segments, u)
    {
      assert Get(a, u) == Get(b, u);
    }
    CanonicalFrom(a.segments, b.segments, MinLetter);
  }

  /**
    Collapses runs of equal values into their first segment, the minimality
    step every partition constructor performs.
   */
  function Normalize<V(==)>(s: seq<Segment<V>>): (r: seq<Segment<V>>)
    requires |s| > 0 && Ascending(s)
    ensures ValidFrom(r, s[0].lower)
    ensures r[0].value == s[0].value
    ensures Minimal(s) ==> r == s
    decreases |s|
  {
    if |s| == 1 then s
    else
      var t := Normalize(s[1..]);
      if t[0].value == s[0].value then [s[0]] + t[1..] else [s[0]] + t
  }

  /** Normalizing keeps the value of every letter. */
  lemma {:induction false} NormalizeGet<V>(s: seq<Segment<V>>, u: Letter)
    requires |s| > 0 && Ascending(s) && s[0].lower <= u
    ensures GetIn(Normalize(s), u) == GetIn(s, u)
    decreases |s|
  {
    if |s| > 1 {
      var t := Normalize(s[1..]);
      if u >= s[1].lower {
        NormalizeGet(s[1..], u);
      }
      if t[0].value == s[0].value {
        GetInCons(s[0], t[1..], u);
        if |t| > 1 && t[1].lower <= u {
          assert GetIn(t, u) == GetIn(t[1..], u);
        }
      } else {
        GetInCons(s[0], t, u);
      }
    }
  }

  /** The partition with value `inside` on the range `r` and `outside` elsewhere (`PartitionMap::new`). */
  function NewMap<V(==)>(r: Range, inside: V, outside: V): (m: PartitionMap<V>)
    ensures Valid(m)
    ensures forall u: Letter :: Get(m, u) == if InRange(r, u) then inside else outside
  {
    var below := if r.start == MinLetter then [] else [Segment(MinLetter, outside)];
    var above := if r.end == MaxLetter then [] else [Segment(r.end + 1, outside)];
    var raw := below + [Segment(r.start, inside)] + above;
    var m := PartitionMap(Normalize(raw));
    forall u: Letter
      ensures Get(m, u) == if InRange(r, u) then inside else outside
    {
      NormalizeGet(raw, u);
      var i := if u < r.start then 0 else if u <= r.end then |below| else |below| + 1;
      GetInSegment(raw, i, u);
    }
    m
  }

  /** Replaces every `true` value by `t` and every `false` value by `f`, keeping the bounds. */
  function Relabel<W>(s: seq<Segment<bool>>, t: W, f: W): (r: seq<Segment<W>>)
    ensures |r| == |s|
    ensures forall i :: 0 <= i < |s| ==> r[i] == Segment(s[i].lower, if s[i].value then t else f)
  {
    seq(|s|, i requires 0 <= i < |s| => Segment(s[i].lower, if s[i].value then t else f))
  }

  /** Relabelling keeps the bounds, so every letter reads the relabelled value. */
  lemma RelabelGet<W>(s: seq<Segment<bool>>, t: W, f: W, u: Letter)
    requires |s| > 0 && Ascending(s) && s[0].lower <= u
    ensures Ascending(Relabel(s, t, f))
    ensures GetIn(Relabel(s, t, f), u) == if GetIn(s, u) then t else f
  {
    var r := Relabel(s, t, f);
    var i := IndexOf(s, u);
    GetInSegment(r, i, u);
  }

  /**
    `PartitionMap::from_partition_map_to_bool`: lifts a Boolean partition to
    one whose values are `inside` where it holds and `outside` where it does
    not, over the same bounds when the two values differ.
   */
  function FromBoolMap<V(==)>(m: PartitionMap<bool>, inside: V, outside: V): (r: PartitionMap<V>)
    requires Valid(m)
    ensures Valid(r)
    ensures forall u: Letter :: Get(r, u) == if Get(m, u) then inside else outside
    ensures inside != outside ==>
              |r.segments| == |m.segments| &&
              forall i :: 0 <= i < |m.segments| ==> r.segments[i].lower == m.segments[i].lower
  {
    var raw := Relabel(m.segments, inside, outside);
    forall u: Letter {
      RelabelGet(m.segments, inside, outside, u);
    }
    var r := PartitionMap(Normalize(raw));
    forall u: Letter
      ensures Get(r, u) == if Get(m, u) then inside else outside
    {
      RelabelGet(m.segments, inside, outside, u);
      NormalizeGet(raw, u);
    }
    r
  }
}
