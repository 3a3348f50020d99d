/**
  The regular-expression context (`RegexContext`, `Regex`, `RegexKind` and
  `Class` in luther-redfa/src/regex.rs). The context's arena is an
  append-only sequence of nodes and a `Regex` handle is an index into it.
 */
module Regex {
  import opened Alphabet
  import opened Ranges
  import PartitionSets

  /** A (possibly empty) subset of the alphabet: the operand of a class node. */
  datatype CharClass = CharClass(members: PartitionSets.PartitionSet)

  /** `Class::from_iter`: the class of the letters covered by `rs`. */
  function ClassFromRanges(rs: seq<Range>): (c: CharClass)
    ensures PartitionSets.ValidSet(c.members)
    ensures forall u: Letter :: PartitionSets.Contains(c.members, u) <==> Covers(rs, u)
  {
    CharClass(PartitionSets.FromRanges(rs))
  }

  /**
    `Class::ranges`: the class as increasing, non-overlapping ranges with
    adjacent ones combined, covering exactly its letters.
   */
  function ClassRanges(c: CharClass): (rs: seq<Range>)
    requires PartitionSets.ValidSet(c.members)
    ensures Separated(rs)
    ensures forall u: Letter :: Covers(rs, u) <==> PartitionSets.Contains(c.members, u)
  {
    PartitionSets.IntoRanges(c.members)
  }

  /**
    The kinds of node. Only `Empty` and `Class` can be built; the other
    operators have no factory behaviour yet and carry no operands.
   */
  datatype RegexKind =
    | Empty
    | Class(cls: CharClass)
    | Concat
    | Repetition
    | Alteration
    | And
    | Complement

  /** The arena of nodes a context owns; it only ever grows. */
  datatype RegexContext = RegexContext(arena: seq<RegexKind>)

  /** A handle on a node of a context: its position in the arena. */
  datatype Regex = Regex(node: nat)

  /** `r` was fabricated by `ctx` (the borrow the crate's lifetimes enforce). */
  predicate Owns(ctx: RegexContext, r: Regex) {
    r.node < |ctx.arena|
  }

  /** `ctx'` holds every node of `ctx`, unchanged and in place. */
  predicate Extends(ctx: RegexContext, ctx': RegexContext) {
    |ctx.arena| <= |ctx'.arena| && ctx'.arena[..|ctx.arena|] == ctx.arena
  }

  /** `RegexContext::new`: a context that owns nothing yet. */
  function NewContext(): (ctx: RegexContext)
    ensures forall r: Regex :: !Owns(ctx, r)
  {
    RegexContext([])
  }

  /** `Regex::kind`: the node a handle refers to. */
  function Kind(ctx: RegexContext, r: Regex): (k: RegexKind)
    requires Owns(ctx, r)
    ensures k in ctx.arena
  {
    ctx.arena[r.node]
  }

  /** Allocates one node, returning the grown context and the new node's handle. */
  function Alloc(ctx: RegexContext, k: RegexKind): (res: (RegexContext, Regex))
    ensures Extends(ctx, res.0) && |res.0.arena| == |ctx.arena| + 1
    ensures Owns(res.0, res.1) && Kind(res.0, res.1) == k
    ensures forall r: Regex :: Owns(ctx, r) ==> r != res.1
  {
    var ctx' := RegexContext(ctx.arena + [k]);
    assert ctx'.arena[..|ctx.arena|] == ctx.arena;
    (ctx', Regex(|ctx.arena|))
  }

  /**
    `RegexContext::empty`: a fresh `Empty` node, appended to the arena; every
    call allocates anew.
   */
  function EmptyRegex(ctx: RegexContext): (res: (RegexContext, Regex))
    ensures Extends(ctx, res.0) && |res.0.arena| == |ctx.arena| + 1
    ensures Owns(res.0, res.1) && Kind(res.0, res.1) == Empty
    ensures forall r: Regex :: Owns(ctx, r) ==> r != res.1
  {
    Alloc(ctx, Empty)
  }

  /**
    `RegexContext::class`: a fresh class node whose set collects the given
    ranges; no ranges gives the class that matches nothing.
   */
  function ClassRegex(ctx: RegexContext, rs: seq<Range>): (res: (RegexContext, Regex))
    ensures Extends(ctx, res.0) && |res.0.arena| == |ctx.arena| + 1
    ensures Owns(res.0, res.1) && Kind(res.0, res.1).Class?
    ensures PartitionSets.ValidSet(Kind(res.0, res.1).cls.members)
    ensures forall u: Letter :: PartitionSets.Contains(Kind(res.0, res.1).cls.members, u) <==> Covers(rs, u)
    ensures forall r: Regex :: Owns(ctx, r) ==> r != res.1
  {
    Alloc(ctx, Class(ClassFromRanges(rs)))
  }

  /** Growing a context keeps every handle it issued valid, referring to the same node. */
  lemma KindStable(ctx: RegexContext, ctx': RegexContext, r: Regex)
    requires Extends(ctx, ctx') && Owns(ctx, r)
    ensures Owns(ctx', r)
    ensures Kind(ctx', r) == Kind(ctx, r)
  {
    assert ctx'.arena[..|ctx.arena|][r.node] == ctx'.arena[r.node];
  }

  /** Contexts only grow: extension is transitive across factory calls. */
  lemma ExtendsTransitive(c0: RegexContext, c1: RegexContext, c2: RegexContext)
    requires Extends(c0, c1) && Extends(c1, c2)
    ensures Extends(c0, c2)
  {
    assert c2.arena[..|c1.arena|][..|c0.arena|] == c2.arena[..|c0.arena|];
  }

  /**
    An empty node and then a class node built in a new context: each call
    adds exactly one node, the first handle still reads `Empty`, and the two
    handles differ.
   */
  lemma EmptyThenClass(rs: seq<Range>)
    ensures var (c1, e) := EmptyRegex(NewContext());
            var (c2, k) := ClassRegex(c1, rs);
            |c2.arena| == 2 && Owns(c2, e) && Kind(c2, e) == Empty && Kind(c2, k).Class? && e != k
  {
    var (c1, e) := EmptyRegex(NewContext());
    var (c2, k) := ClassRegex(c1, rs);
    KindStable(c1, c2, e);
  }

  /** A class built from [a, c] and [g, h] reads back exactly those two ranges. */
  lemma ClassRoundTripsSimpleRanges()
    ensures var expected := [New('a' as int, 'c' as int), New('g' as int, 'h' as int)];
            var (ctx, r) := ClassRegex(NewContext(), expected);
            Kind(ctx, r).Class? && ClassRanges(Kind(ctx, r).cls) == expected
  {
    var expected := [New('a' as int, 'c' as int), New('g' as int, 'h' as int)];
    assert Separated(expected);
    PartitionSets.FromRangesRoundTrip(expected);
  }

  /** Separated ranges survive the round trip through a class unchanged. */
  lemma ClassRoundTrip(rs: seq<Range>)
    requires Separated(rs)
    ensures ClassRanges(ClassFromRanges(rs)) == rs
  {
    PartitionSets.FromRangesRoundTrip(rs);
  }

  /** A class built from no ranges matches no letter and has no ranges. */
  lemma EmptyClassMatchesNothing(ctx: RegexContext)
    ensures var (ctx', r) := ClassRegex(ctx, []);
            Kind(ctx', r).Class? &&
            (forall u: Letter :: !PartitionSets.Contains(Kind(ctx', r).cls.members, u)) &&
            ClassRanges(Kind(ctx', r).cls) == []
  {
    PartitionSets.FromNoRanges();
  }
}
