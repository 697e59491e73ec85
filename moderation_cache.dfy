/**
 * The moderation cache (`ThreadModerationCache`) and its filler
 * `fillThreadModerationCache`: one moderation decision per post node of a
 * thread, computed once so that sorting and rendering can look it up.
 */
module ModerationCache {
  import opened Wrappers
  import opened ThreadModel

  /** A map from thread nodes to their moderation decisions. Keys are node
      values; see the README for why this matches the source's object
      identity for every lookup the engine makes. The sort reads `entries`
      directly (`ThreadSort.Blurred`). */
  class ThreadModerationCache {
    var entries: map<ThreadNode, ModerationDecision>

    constructor ()
      ensures entries == map[]
    {
      entries := map[];
    }

    /** `cache.set(node, decision)`. */
    method Set(node: ThreadNode, decision: ModerationDecision)
      modifies this
      ensures entries == old(entries)[node := decision]
    {
      entries := entries[node := decision];
    }
  }

  /** The decisions `moderatePost(post, opts)` for the post nodes in `s`. */
  function DecisionsFor<O>(s: set<ThreadNode>, moderate: (PostView, O) -> ModerationDecision, opts: O): (d: map<ThreadNode, ModerationDecision>)
    requires forall n :: n in s ==> n.Post?
    ensures d.Keys == s
    ensures forall n :: n in d ==> d[n] == moderate(n.post, opts)
  {
    map n | n in s :: moderate(n.post, opts)
  }

  /** What filling the cache from `node` adds: a decision for every post
      node reachable from it through parents and replies. */
  function Decisions<O>(node: ThreadNode, moderate: (PostView, O) -> ModerationDecision, opts: O): (d: map<ThreadNode, ModerationDecision>)
    ensures d.Keys == PostsOf(node)
    ensures forall n :: n in d ==> d[n] == moderate(n.post, opts)
  {
    DecisionsFor(PostsOf(node), moderate, opts)
  }

  lemma DecisionsForUnion<O>(m: map<ThreadNode, ModerationDecision>, s: set<ThreadNode>, t: set<ThreadNode>,
                             moderate: (PostView, O) -> ModerationDecision, opts: O)
    requires forall n :: n in s + t ==> n.Post?
    ensures m + DecisionsFor(s, moderate, opts) + DecisionsFor(t, moderate, opts)
         == m + DecisionsFor(s + t, moderate, opts)
  {
  }

  lemma PostsOfAllSnoc(ns: seq<ThreadNode>, i: nat)
    requires i < |ns|
    ensures PostsOfAll(ns[..i + 1]) == PostsOfAll(ns[..i]) + PostsOf(ns[i])
    decreases i
  {
    if i > 0 {
      assert ns[..i + 1][1..] == ns[1..][..i];
      assert ns[..i][1..] == ns[1..][..i - 1];
      PostsOfAllSnoc(ns[1..], i - 1);
    }
  }

  /** `fillThreadModerationCache(cache, node, moderationOpts)`, with
      `moderatePost` as the parameter `moderate`. */
  method FillThreadModerationCache<O>(cache: ThreadModerationCache, node: ThreadNode,
                                      moderate: (PostView, O) -> ModerationDecision, opts: O)
    modifies cache
    ensures cache.entries == old(cache.entries) + Decisions(node, moderate, opts)
    decreases node
  {
    if node.Post? {
      cache.Set(node, moderate(node.post, opts));
      ghost var seen := {node};
      assert cache.entries == old(cache.entries) + DecisionsFor(seen, moderate, opts);
      if node.parent.Some? {
        FillThreadModerationCache(cache, node.parent.value, moderate, opts);
        DecisionsForUnion(old(cache.entries), seen, PostsOf(node.parent.value), moderate, opts);
        seen := seen + PostsOf(node.parent.value);
      }
      if node.replies.Replies? {
        FillReplies(cache, node.replies.nodes, moderate, opts);
        DecisionsForUnion(old(cache.entries), seen, PostsOfAll(node.replies.nodes), moderate, opts);
        seen := seen + PostsOfAll(node.replies.nodes);
      }
      assert seen == PostsOf(node);
    }
  }

  /** The `forEach` over a post's replies in `fillThreadModerationCache`. */
  method FillReplies<O>(cache: ThreadModerationCache, rs: seq<ThreadNode>,
                        moderate: (PostView, O) -> ModerationDecision, opts: O)
    modifies cache
    ensures cache.entries == old(cache.entries) + DecisionsFor(PostsOfAll(rs), moderate, opts)
    decreases rs
  {
    ghost var seen := {};
    assert rs[..0] == [];
    for i := 0 to |rs|
      invariant seen == PostsOfAll(rs[..i])
      invariant cache.entries == old(cache.entries) + DecisionsFor(seen, moderate, opts)
    {
      FillThreadModerationCache(cache, rs[i], moderate, opts);
      DecisionsForUnion(old(cache.entries), seen, PostsOf(rs[i]), moderate, opts);
      PostsOfAllSnoc(rs, i);
      seen := seen + PostsOf(rs[i]);
    }
    assert rs[..|rs|] == rs;
  }

  /** Filling the cache again from the same node with the same options
      changes nothing. */
  lemma RefillChangesNothing<O>(m: map<ThreadNode, ModerationDecision>, node: ThreadNode,
                                moderate: (PostView, O) -> ModerationDecision, opts: O)
    ensures m + Decisions(node, moderate, opts) + Decisions(node, moderate, opts)
         == m + Decisions(node, moderate, opts)
  {
  }
}
