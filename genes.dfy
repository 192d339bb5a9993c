/** The value-level part of the genetic search: genes, the target, how a
    gene vector is scored, how two parents are spliced and how a mask of
    chosen positions rewrites a gene vector. */
module Genes {

  /** One gene: an unsigned 8-bit value (Rust's `u8`). */
  newtype byte = x: int | 0 <= x < 256

  /** The target the population evolves toward: the ASCII bytes of "Hello, World!". */
  const TARGET: seq<byte> := [72, 101, 108, 108, 111, 44, 32, 87, 111, 114, 108, 100, 33]

  function Min(a: int, b: int): (m: int) { if a <= b then a else b }

  /** The number of positions at which `genes` and `target` agree. Positions
      are paired as `zip` pairs them, up to the shorter of the two; the last
      pair is peeled off, as a left fold adds it last. */
  function MatchCount(genes: seq<byte>, target: seq<byte>): (n: nat)
    ensures n <= |genes| && n <= |target|
    decreases |genes|
  {
    var k := Min(|genes|, |target|);
    if k == 0 then 0
    else MatchCount(genes[..k - 1], target[..k - 1]) + (if genes[k - 1] == target[k - 1] then 1 else 0)
  }

  /** The positions at which `genes` and `target` agree: the reference
      definition that `MatchCount` counts. */
  ghost function MatchingPositions(genes: seq<byte>, target: seq<byte>): (positions: set<int>)
  {
    set i | 0 <= i < |genes| && i < |target| && genes[i] == target[i]
  }

  /** The score of a gene vector: how many of its genes already equal the target's. */
  function Fitness(genes: seq<byte>): (n: nat)
    ensures n <= |TARGET|
  {
    MatchCount(genes, TARGET)
  }

  /** The count is exactly the number of agreeing positions. */
  lemma {:induction false} MatchCountIsPositions(genes: seq<byte>, target: seq<byte>)
    ensures MatchCount(genes, target) == |MatchingPositions(genes, target)|
    decreases |genes|
  {
    var k := Min(|genes|, |target|);
    if k == 0 {
      assert MatchingPositions(genes, target) == {};
    } else {
      var g, t := genes[..k - 1], target[..k - 1];
      MatchCountIsPositions(g, t);
      var rest := MatchingPositions(g, t);
      assert k - 1 !in rest;
      if genes[k - 1] == target[k - 1] {
        assert MatchingPositions(genes, target) == rest + {k - 1};
      } else {
        assert MatchingPositions(genes, target) == rest;
      }
    }
  }

  /** For vectors of equal length, a full score means the vectors are equal, and only then. */
  lemma {:induction false} FullMatchIffEqual(genes: seq<byte>, target: seq<byte>)
    requires |genes| == |target|
    ensures MatchCount(genes, target) == |target| <==> genes == target
    decreases |genes|
  {
    var k := |genes|;
    if k > 0 {
      var g, t := genes[..k - 1], target[..k - 1];
      FullMatchIffEqual(g, t);
      if MatchCount(genes, target) == |target| {
        assert MatchCount(g, t) == k - 1 && genes[k - 1] == target[k - 1];
        assert genes == g + [genes[k - 1]] && target == t + [target[k - 1]];
      }
      if genes == target {
        assert g == t;
      }
    }
  }

  /** The count over a vector is the count over a prefix plus the count over the rest. */
  lemma {:induction false} MatchCountSplit(genes: seq<byte>, target: seq<byte>, p: nat)
    requires |genes| == |target| && p <= |genes|
    ensures MatchCount(genes, target) == MatchCount(genes[..p], target[..p]) + MatchCount(genes[p..], target[p..])
    decreases |genes|
  {
    var k := |genes|;
    if p == k {
      assert genes[..p] == genes && target[..p] == target;
      assert MatchCount(genes[p..], target[p..]) == 0;
    } else {
      var g, t := genes[..k - 1], target[..k - 1];
      MatchCountSplit(g, t, p);
      assert g[..p] == genes[..p] && t[..p] == target[..p];
      var gs, ts := genes[p..], target[p..];
      assert gs[..|gs| - 1] == g[p..] && ts[..|ts| - 1] == t[p..];
      assert gs[|gs| - 1] == genes[k - 1] && ts[|ts| - 1] == target[k - 1];
    }
  }

  /** The child of a single-point crossover at `point`: the first `point`
      genes of `parent1` followed by the genes of `parent2` from `point` on,
      with the clamping of `take` and `skip` when a parent is shorter. */
  function CrossoverGenes(parent1: seq<byte>, parent2: seq<byte>, point: nat): (child: seq<byte>)
    ensures point <= |parent1| && point <= |parent2| ==>
      && |child| == |parent2|
      && child[..point] == parent1[..point]
      && child[point..] == parent2[point..]
  {
    parent1[..Min(point, |parent1|)] + parent2[Min(point, |parent2|)..]
  }

  /** Crossing a gene vector with itself gives it back, at every point. */
  lemma CrossoverIdenticalParents(genes: seq<byte>, point: nat)
    ensures CrossoverGenes(genes, genes, point) == genes
  {
  }

  /** The child's score is the first parent's score on the prefix plus the
      second parent's score on the suffix. */
  lemma CrossoverFitness(parent1: seq<byte>, parent2: seq<byte>, point: nat)
    requires |parent1| == |TARGET| && |parent2| == |TARGET| && point <= |TARGET|
    ensures Fitness(CrossoverGenes(parent1, parent2, point))
         == MatchCount(parent1[..point], TARGET[..point]) + MatchCount(parent2[point..], TARGET[point..])
  {
    var child := CrossoverGenes(parent1, parent2, point);
    MatchCountSplit(child, TARGET, point);
  }

  /** Whether a mutation mask chose any position at all. */
  predicate AnyChosen(chosen: seq<bool>)
  {
    exists i :: 0 <= i < |chosen| && chosen[i]
  }

  /** How many positions a mutation mask chose. */
  function ChosenCount(chosen: seq<bool>): (n: nat)
    ensures n <= |chosen|
    ensures n == 0 <==> !AnyChosen(chosen)
  {
    if chosen == [] then 0
    else
      var rest := chosen[..|chosen| - 1];
      assert forall i :: 0 <= i < |rest| ==> rest[i] == chosen[i];
      ChosenCount(rest) + (if chosen[|chosen| - 1] then 1 else 0)
  }

  /** The genes after mutation: each chosen position takes its replacement
      byte, every other position keeps its gene. */
  function Mutated(genes: seq<byte>, chosen: seq<bool>, replacement: seq<byte>): (r: seq<byte>)
    requires |chosen| == |genes| && |replacement| == |genes|
    ensures |r| == |genes|
  {
    seq(|genes|, i requires 0 <= i < |genes| => if chosen[i] then replacement[i] else genes[i])
  }

  /** A mask that chose nothing leaves the genes as they were. */
  lemma MutatedNoneChosen(genes: seq<byte>, chosen: seq<bool>, replacement: seq<byte>)
    requires |chosen| == |genes| && |replacement| == |genes|
    requires !AnyChosen(chosen)
    ensures Mutated(genes, chosen, replacement) == genes
  {
  }

  /** A mutation can move the score by at most the number of positions it chose. */
  lemma {:induction false} MutationFitnessBound(genes: seq<byte>, chosen: seq<bool>, replacement: seq<byte>, target: seq<byte>)
    requires |chosen| == |genes| && |replacement| == |genes| && |target| == |genes|
    ensures MatchCount(Mutated(genes, chosen, replacement), target) <= MatchCount(genes, target) + ChosenCount(chosen)
    ensures MatchCount(genes, target) <= MatchCount(Mutated(genes, chosen, replacement), target) + ChosenCount(chosen)
    decreases |genes|
  {
    var k := |genes|;
    if k > 0 {
      var m := Mutated(genes, chosen, replacement);
      var g, c, r := genes[..k - 1], chosen[..k - 1], replacement[..k - 1];
      MutationFitnessBound(g, c, r, target[..k - 1]);
      assert m[..k - 1] == Mutated(g, c, r);
    }
  }
}
