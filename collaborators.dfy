/**
 * The collaborators whose code is outside this model, given by their
 * contracts only. The sampler's bodies make an arbitrary choice among the
 * draws the contract allows, and the least-busy chooser is a parameter, so
 * whatever is proved about a caller holds for every implementation that
 * keeps the contract, randomised or not.
 */
module Collaborators {
  import opened Common
  import opened Cluster

  function Min(a: int, b: int): int
  {
    if a <= b then a else b
  }

  /**
   * One pass of the randomised sampler over `candidates`: it yields
   * positions of the list in some order, each at most once, until it has
   * `limit` of them or the list is exhausted.
   */
  predicate IsDraw(selected: seq<Node>, limit: int, candidates: seq<Node>)
  {
    && |selected| == (if limit <= 0 then 0 else Min(limit, |candidates|))
    && multiset(selected) <= multiset(candidates)
  }

  /**
   * What a caller relies on in a draw: only candidates, at most `limit`,
   * none repeated when the candidates are not, and at least one whenever
   * there is a candidate to draw.
   */
  lemma DrawFacts(selected: seq<Node>, limit: int, candidates: seq<Node>)
    requires IsDraw(selected, limit, candidates)
    ensures forall n :: n in selected ==> n in candidates
    ensures |selected| <= limit || selected == []
    ensures limit > 0 && candidates != [] ==> selected != []
    ensures Distinct(candidates) ==> Distinct(selected)
  {
    forall n | n in selected
      ensures n in candidates
    {
      assert n in multiset(selected);
    }
    if Distinct(candidates) {
      SubMultisetKeepsDistinct(selected, candidates);
    }
  }

  /**
   * A list followed by a draw: the list is its prefix, the draw its tail,
   * and every element comes from the one or the other.
   */
  lemma DrawAfterPrefix(prefix: seq<Node>, selected: seq<Node>, limit: int, candidates: seq<Node>)
    requires IsDraw(selected, limit, candidates)
    ensures var whole := prefix + selected;
      && |prefix| <= |whole|
      && whole[..|prefix|] == prefix
      && IsDraw(whole[|prefix|..], limit, candidates)
      && forall n :: n in whole ==> n in prefix || n in candidates
  {
    var whole := prefix + selected;
    assert whole[..|prefix|] == prefix && whole[|prefix|..] == selected;
    DrawFacts(selected, limit, candidates);
  }

  /** Each of `draws` is a draw of up to `limit` from `candidates`. */
  ghost predicate AllDraws(draws: seq<seq<Node>>, limit: int, candidates: seq<Node>)
    decreases |draws|
  {
    draws == [] ||
    (AllDraws(draws[..|draws| - 1], limit, candidates) && IsDraw(draws[|draws| - 1], limit, candidates))
  }

  /** One more draw keeps AllDraws. */
  lemma AllDrawsAppend(draws: seq<seq<Node>>, draw: seq<Node>, limit: int, candidates: seq<Node>)
    requires AllDraws(draws, limit, candidates)
    requires IsDraw(draw, limit, candidates)
    ensures AllDraws(draws + [draw], limit, candidates)
  {
    assert (draws + [draw])[..|draws|] == draws;
  }

  /**
   * NodeScheduler.selectNodes over a ResettableRandomizedIterator: up to
   * `limit` of the candidates, drawn without repeats, in a random order.
   */
  method SelectNodes(limit: int, candidates: seq<Node>) returns (selected: seq<Node>)
    ensures IsDraw(selected, limit, candidates)
  {
    var count := if limit <= 0 then 0 else Min(limit, |candidates|);
    assert candidates == candidates[..count] + candidates[count..];
    assert IsDraw(candidates[..count], limit, candidates);
    selected :| IsDraw(selected, limit, candidates);
  }

  /**
   * RandomNodeSelection.pickNodes: the candidate nodes for one split, a
   * fresh draw of at most `minCandidates` nodes from the eligible pool.
   */
  method PickNodes(eligibleNodes: seq<Node>, minCandidates: int, split: Split) returns (candidates: seq<Node>)
    ensures IsDraw(candidates, minCandidates, eligibleNodes)
  {
    candidates := SelectNodes(minCandidates, eligibleNodes);
  }

  /** The node chosen for a split, and whether it treats the split's data as cacheable. */
  datatype InternalNodeInfo = InternalNodeInfo(internalNode: Node, cacheable: bool)

  /**
   * SimpleNodeSelector.chooseLeastBusyNode(split weight, candidates, load
   * measure, ceiling, accounting): no node, or a node with its cacheable
   * flag.
   */
  type LeastBusyChooser = (nat, seq<Node>, WeightMeasure, int, AssignmentStats) -> Option<InternalNodeInfo>

  /** The chooser only ever answers with one of the candidates it is offered. */
  ghost predicate ChoosesAmongCandidates(choose: LeastBusyChooser)
  {
    forall w, candidates, measure, maxWeight, stats ::
      choose(w, candidates, measure, maxWeight, stats).Some? ==>
        choose(w, candidates, measure, maxWeight, stats).value.internalNode in candidates
  }
}
