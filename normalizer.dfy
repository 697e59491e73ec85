/**
 * The tree normalizer `responseToThreadNodes`: turns the raw nested thread
 * response into `ThreadNode`s, walking up through parents and down through
 * replies, never back towards the node it came from.
 */
module Normalizer {
  import opened Wrappers
  import opened ThreadModel

  /** Which way the walk is going; `Start` is the initial call only. */
  datatype Direction = Up | Down | Start

  /** The post with missing reply, like and repost counts set to zero
      (`post.replyCount ??= 0` and the two lines after it). */
  function DefaultCounts(p: PostView): (q: PostView)
    ensures q.replyCount == Some(p.replyCount.GetOr(0))
    ensures q.likeCount == Some(p.likeCount.GetOr(0))
    ensures q.repostCount == Some(p.repostCount.GetOr(0))
    ensures q.(replyCount := p.replyCount, likeCount := p.likeCount, repostCount := p.repostCount) == p
  {
    p.(replyCount := Some(p.replyCount.GetOr(0)),
       likeCount := Some(p.likeCount.GetOr(0)),
       repostCount := Some(p.repostCount.GetOr(0)))
  }

  /** `t` with every index moved one place on. */
  function Shift(t: seq<nat>): (u: seq<nat>)
    ensures |u| == |t| && forall k :: 0 <= k < |t| ==> u[k] == t[k] + 1
  {
    seq(|t|, k requires 0 <= k < |t| => t[k] + 1)
  }

  /** The indices of the elements of `s` that `drop` does not reject, in
      increasing order: what an order-keeping filter keeps. */
  function KeptIndices<T>(s: seq<T>, drop: T -> bool): seq<nat>
    decreases |s|
  {
    if s == [] then []
    else (if drop(s[0]) then [] else [0]) + Shift(KeptIndices(s[1..], drop))
  }

  /** The kept indices point at elements that `drop` does not reject. */
  lemma {:induction false} KeptIndicesKept<T>(s: seq<T>, drop: T -> bool)
    ensures forall k :: 0 <= k < |KeptIndices(s, drop)| ==>
      KeptIndices(s, drop)[k] < |s| && !drop(s[KeptIndices(s, drop)[k]])
    decreases |s|
  {
    if s != [] {
      var rest := KeptIndices(s[1..], drop);
      KeptIndicesKept(s[1..], drop);
      var head := if drop(s[0]) then [] else [0];
      var ix := head + Shift(rest);
      assert KeptIndices(s, drop) == ix;
      forall k | |head| <= k < |ix| ensures ix[k] < |s| && !drop(s[ix[k]]) {
        var m := rest[k - |head|];
        assert ix[k] == m + 1;
        assert s[1..][m] == s[m + 1];
      }
    }
  }

  /** The kept indices are strictly increasing. */
  lemma {:induction false} KeptIndicesIncrease<T>(s: seq<T>, drop: T -> bool)
    ensures forall k, l :: 0 <= k < l < |KeptIndices(s, drop)| ==> KeptIndices(s, drop)[k] < KeptIndices(s, drop)[l]
    decreases |s|
  {
    if s != [] {
      var rest := KeptIndices(s[1..], drop);
      KeptIndicesIncrease(s[1..], drop);
      var head := if drop(s[0]) then [] else [0];
      var ix := head + Shift(rest);
      assert KeptIndices(s, drop) == ix;
      forall k, l | 0 <= k < l < |ix| ensures ix[k] < ix[l] {
        assert ix[l] == rest[l - |head|] + 1;
        if k >= |head| {
          assert ix[k] == rest[k - |head|] + 1;
        }
      }
    }
  }

  /** Every element that `drop` does not reject has its index kept. */
  lemma {:induction false} KeptIndicesComplete<T>(s: seq<T>, drop: T -> bool)
    ensures forall i :: 0 <= i < |s| && !drop(s[i]) ==> i in KeptIndices(s, drop)
    decreases |s|
  {
    if s != [] {
      var rest := KeptIndices(s[1..], drop);
      KeptIndicesComplete(s[1..], drop);
      var head := if drop(s[0]) then [] else [0];
      var ix := head + Shift(rest);
      assert KeptIndices(s, drop) == ix;
      forall i | 0 <= i < |s| && !drop(s[i]) ensures i in ix {
        if i > 0 {
          assert s[1..][i - 1] == s[i];
          var k :| 0 <= k < |rest| && rest[k] == i - 1;
          assert ix[|head| + k] == i;
        } else {
          assert ix[0] == 0;
        }
      }
    }
  }

  /** Filters that reject elements at the same places keep the same indices. */
  lemma {:induction false} KeptIndicesAgree<S, T>(s: seq<S>, t: seq<T>, f: S -> bool, g: T -> bool)
    requires |s| == |t| && forall i :: 0 <= i < |s| ==> f(s[i]) == g(t[i])
    ensures KeptIndices(s, f) == KeptIndices(t, g)
    decreases |s|
  {
    if s != [] {
      assert forall i :: 0 <= i < |s| - 1 ==> s[1..][i] == s[i + 1] && t[1..][i] == t[i + 1];
      KeptIndicesAgree(s[1..], t[1..], f, g);
    }
  }

  predicate IsBlocked(n: ThreadNode) {
    n.Blocked?
  }

  predicate IsBlockedPost(n: RawThread) {
    n.BlockedPost?
  }

  /** `.filter(node => node.type !== 'blocked')`. */
  function RemoveBlocked(s: seq<ThreadNode>): (r: seq<ThreadNode>)
    ensures |r| <= |s|
    ensures forall x :: x in r <==> x in s && !x.Blocked?
  {
    if s == [] then []
    else (if s[0].Blocked? then [] else [s[0]]) + RemoveBlocked(s[1..])
  }

  /** The filter keeps the non-blocked nodes in their order and with their
      repetitions: its `k`-th node is the one at the `k`-th kept index. */
  lemma {:induction false} RemoveBlockedKeepsOrder(s: seq<ThreadNode>)
    ensures |RemoveBlocked(s)| == |KeptIndices(s, IsBlocked)|
    ensures forall k :: 0 <= k < |KeptIndices(s, IsBlocked)| ==>
      KeptIndices(s, IsBlocked)[k] < |s| && RemoveBlocked(s)[k] == s[KeptIndices(s, IsBlocked)[k]]
    decreases |s|
  {
    KeptIndicesKept(s, IsBlocked);
    if s != [] {
      RemoveBlockedKeepsOrder(s[1..]);
      var head := if s[0].Blocked? then [] else [0];
      var rest := KeptIndices(s[1..], IsBlocked);
      assert KeptIndices(s, IsBlocked) == head + Shift(rest);
      forall k | |head| <= k < |head| + |rest|
        ensures RemoveBlocked(s)[k] == s[(head + Shift(rest))[k]]
      {
        var m := rest[k - |head|];
        assert (head + Shift(rest))[k] == m + 1;
        assert s[1..][m] == s[m + 1];
      }
    }
  }

  /** `responseToThreadNodes(node, depth, direction)`. */
  function ResponseToThreadNodes(raw: RawThread, depth: int, dir: Direction): (r: ThreadNode)
    ensures r.Post? <==> raw.ThreadViewPost? && raw.post.record.isValid
    ensures r.Blocked? <==> raw.BlockedPost?
    ensures r.NotFound? <==> raw.NotFoundPost?
    ensures r.Blocked? ==> raw.BlockedPost? && r.reactKey == raw.uri && r.uri == raw.uri
    ensures r.NotFound? ==> raw.NotFoundPost? && r.reactKey == raw.uri && r.uri == raw.uri
    ensures r.Unknown? ==> r.uri == ""
    ensures !r.Unknown? ==> r.ctx.depth == depth
  {
    match raw
    case ThreadViewPost(post, parent, replies, replyCount) =>
      if post.record.isValid then
        var p := DefaultCounts(post);
        Post(
          p.uri, p.uri, p, p.record,
          if parent.Some? && dir != Down
            then Some(ResponseToThreadNodes(parent.value, depth - 1, Up))
            else None,
          if |replies| > 0 && dir != Up
            then Replies(RemoveBlocked(seq(|replies|, i requires 0 <= i < |replies| =>
                   ResponseToThreadNodes(replies[i], depth + 1, Down))))
            else NoReplies,
          ThreadCtx(depth, depth == 0, dir == Down && |replies| == 0 && Truthy(replyCount), false, false))
      else Unknown("")
    case BlockedPost(uri) => Blocked(uri, uri, DepthOnly(depth))
    case NotFoundPost(uri) => NotFound(uri, uri, DepthOnly(depth))
    case UnknownShape => Unknown("")
  }

  // ---------------------------------------------------------------------
  // Tree-wide invariants of the normalizer's output

  /** No `Blocked` node sits in any `replies` list anywhere in the tree. */
  ghost predicate NoBlockedReplies(n: ThreadNode) {
    n.Post? ==>
      && (n.parent.Some? ==> NoBlockedReplies(n.parent.value))
      && (n.replies.Replies? ==>
            forall i :: 0 <= i < |n.replies.nodes| ==>
              !n.replies.nodes[i].Blocked? && NoBlockedReplies(n.replies.nodes[i]))
  }

  /** Depths follow the links: a parent is one level above its child, each
      reply one level below its parent, and a post is highlighted exactly
      when it is at depth 0. (Unknown nodes carry no context.) */
  ghost predicate DepthsConsistent(n: ThreadNode) {
    n.Post? ==>
      && n.ctx.isHighlightedPost == (n.ctx.depth == 0)
      && (n.parent.Some? ==>
            && (!n.parent.value.Unknown? ==> n.parent.value.ctx.depth == n.ctx.depth - 1)
            && DepthsConsistent(n.parent.value))
      && (n.replies.Replies? ==>
            forall i :: 0 <= i < |n.replies.nodes| ==>
              && (!n.replies.nodes[i].Unknown? ==> n.replies.nodes[i].ctx.depth == n.ctx.depth + 1)
              && DepthsConsistent(n.replies.nodes[i]))
  }

  /** The walk never turns back: a node reached going down has no parent,
      a node reached going up has no replies, only nodes reached going down
      can claim `hasMore`, and no normalized node is a loading placeholder. */
  ghost predicate Directed(n: ThreadNode, dir: Direction) {
    n.Post? ==>
      && (dir == Down ==> n.parent.None?)
      && (dir == Up ==> n.replies.NoReplies?)
      && (n.ctx.hasMore ==> dir == Down)
      && !n.ctx.isParentLoading && !n.ctx.isChildLoading
      && (n.parent.Some? ==> Directed(n.parent.value, Up))
      && (n.replies.Replies? ==>
            forall i :: 0 <= i < |n.replies.nodes| ==> Directed(n.replies.nodes[i], Down))
  }

  /** Every post node in the tree has its three counters set. */
  ghost predicate CountsSet(n: ThreadNode) {
    n.Post? ==>
      && n.post.replyCount.Some? && n.post.likeCount.Some? && n.post.repostCount.Some?
      && (n.parent.Some? ==> CountsSet(n.parent.value))
      && (n.replies.Replies? ==>
            forall i :: 0 <= i < |n.replies.nodes| ==> CountsSet(n.replies.nodes[i]))
  }

  // ---------------------------------------------------------------------
  // Properties of one normalization step

  /** A valid thread-view post becomes a post node keyed by its uri, with its
      counts defaulted to zero, a parent exactly when one exists and the walk
      is not going down, replies exactly when some exist and the walk is not
      going up, and `hasMore` exactly when the walk goes down, no replies
      came back and the raw node's own `replyCount` is nonzero. */
  lemma NormalizedPost(raw: RawThread, depth: int, dir: Direction)
    requires raw.ThreadViewPost? && raw.post.record.isValid
    ensures var r := ResponseToThreadNodes(raw, depth, dir);
      && r.Post? && r.reactKey == raw.post.uri && r.uri == raw.post.uri
      && r.post == DefaultCounts(raw.post) && r.record == raw.post.record
      && (r.parent.Some? <==> raw.parent.Some? && dir != Down)
      && (r.parent.Some? ==> r.parent.value == ResponseToThreadNodes(raw.parent.value, depth - 1, Up))
      && (r.replies.Replies? <==> |raw.replies| > 0 && dir != Up)
      && r.ctx.depth == depth
      && r.ctx.isHighlightedPost == (depth == 0)
      && r.ctx.hasMore == (dir == Down && |raw.replies| == 0 && Truthy(raw.replyCount))
  {
  }

  /** Each reply node comes from some raw reply, normalized one level down,
      and only blocked results are dropped. */
  lemma NormalizedReplies(raw: RawThread, depth: int, dir: Direction)
    requires raw.ThreadViewPost? && raw.post.record.isValid && |raw.replies| > 0 && dir != Up
    ensures var r := ResponseToThreadNodes(raw, depth, dir);
      && r.replies.Replies?
      && (forall x :: x in r.replies.nodes ==>
            exists i :: 0 <= i < |raw.replies| && x == ResponseToThreadNodes(raw.replies[i], depth + 1, Down))
      && (forall i :: 0 <= i < |raw.replies| && !raw.replies[i].BlockedPost? ==>
            ResponseToThreadNodes(raw.replies[i], depth + 1, Down) in r.replies.nodes)
  {
    var mapped := seq(|raw.replies|, i requires 0 <= i < |raw.replies| =>
                    ResponseToThreadNodes(raw.replies[i], depth + 1, Down));
    forall x | x in ResponseToThreadNodes(raw, depth, dir).replies.nodes
      ensures exists i :: 0 <= i < |raw.replies| && x == ResponseToThreadNodes(raw.replies[i], depth + 1, Down)
    {
      assert x in mapped;
      var i :| 0 <= i < |mapped| && mapped[i] == x;
    }
    forall i | 0 <= i < |raw.replies| && !raw.replies[i].BlockedPost?
      ensures ResponseToThreadNodes(raw.replies[i], depth + 1, Down) in ResponseToThreadNodes(raw, depth, dir).replies.nodes
    {
      assert mapped[i] in mapped;
    }
  }

  /** The reply nodes are the normalized raw replies, blocked ones left out,
      in the raw order: the `k`-th reply node comes from the `k`-th raw reply
      that is not a blocked post. */
  lemma NormalizedRepliesInOrder(raw: RawThread, depth: int, dir: Direction)
    requires raw.ThreadViewPost? && raw.post.record.isValid && |raw.replies| > 0 && dir != Up
    ensures var ix := KeptIndices(raw.replies, IsBlockedPost);
      && ResponseToThreadNodes(raw, depth, dir).replies.Replies?
      && |ResponseToThreadNodes(raw, depth, dir).replies.nodes| == |ix|
      && forall k :: 0 <= k < |ix| ==>
           && ix[k] < |raw.replies|
           && ResponseToThreadNodes(raw, depth, dir).replies.nodes[k]
                == ResponseToThreadNodes(raw.replies[ix[k]], depth + 1, Down)
  {
    var mapped := seq(|raw.replies|, i requires 0 <= i < |raw.replies| =>
                    ResponseToThreadNodes(raw.replies[i], depth + 1, Down));
    KeptIndicesAgree(mapped, raw.replies, IsBlocked, IsBlockedPost);
    RemoveBlockedKeepsOrder(mapped);
  }

  // ---------------------------------------------------------------------
  // Tree-wide properties, by induction over the raw response

  lemma {:induction false} NormalizeHasNoBlockedReplies(raw: RawThread, depth: int, dir: Direction)
    ensures NoBlockedReplies(ResponseToThreadNodes(raw, depth, dir))
    decreases raw
  {
    var r := ResponseToThreadNodes(raw, depth, dir);
    if r.Post? {
      if r.parent.Some? {
        NormalizeHasNoBlockedReplies(raw.parent.value, depth - 1, Up);
      }
      if r.replies.Replies? {
        NormalizedReplies(raw, depth, dir);
        forall i | 0 <= i < |r.replies.nodes|
          ensures !r.replies.nodes[i].Blocked? && NoBlockedReplies(r.replies.nodes[i])
        {
          var x := r.replies.nodes[i];
          assert x in r.replies.nodes;
          var k :| 0 <= k < |raw.replies| && x == ResponseToThreadNodes(raw.replies[k], depth + 1, Down);
          NormalizeHasNoBlockedReplies(raw.replies[k], depth + 1, Down);
        }
      }
    }
  }

  lemma {:induction false} NormalizeKeepsDepths(raw: RawThread, depth: int, dir: Direction)
    ensures DepthsConsistent(ResponseToThreadNodes(raw, depth, dir))
    decreases raw
  {
    var r := ResponseToThreadNodes(raw, depth, dir);
    if r.Post? {
      if r.parent.Some? {
        NormalizeKeepsDepths(raw.parent.value, depth - 1, Up);
      }
      if r.replies.Replies? {
        forall k | 0 <= k < |raw.replies|
          ensures DepthsConsistent(ResponseToThreadNodes(raw.replies[k], depth + 1, Down))
        {
          NormalizeKeepsDepths(raw.replies[k], depth + 1, Down);
        }
        RepliesKeepDepths(raw, depth, dir);
      }
    }
  }

  /** The inductive step of `NormalizeKeepsDepths` for the reply list. */
  lemma RepliesKeepDepths(raw: RawThread, depth: int, dir: Direction)
    requires raw.ThreadViewPost? && raw.post.record.isValid && |raw.replies| > 0 && dir != Up
    requires forall k :: 0 <= k < |raw.replies| ==>
               DepthsConsistent(ResponseToThreadNodes(raw.replies[k], depth + 1, Down))
    ensures var ns := ResponseToThreadNodes(raw, depth, dir).replies.nodes;
      forall i :: 0 <= i < |ns| ==>
        && (!ns[i].Unknown? ==> ns[i].ctx.depth == depth + 1)
        && DepthsConsistent(ns[i])
  {
    NormalizedReplies(raw, depth, dir);
    var ns := ResponseToThreadNodes(raw, depth, dir).replies.nodes;
    forall i | 0 <= i < |ns|
      ensures !ns[i].Unknown? ==> ns[i].ctx.depth == depth + 1
      ensures DepthsConsistent(ns[i])
    {
      assert ns[i] in ns;
    }
  }

  lemma {:induction false} NormalizeIsDirected(raw: RawThread, depth: int, dir: Direction)
    ensures Directed(ResponseToThreadNodes(raw, depth, dir), dir)
    decreases raw
  {
    var r := ResponseToThreadNodes(raw, depth, dir);
    if r.Post? {
      if r.parent.Some? {
        NormalizeIsDirected(raw.parent.value, depth - 1, Up);
      }
      if r.replies.Replies? {
        NormalizedReplies(raw, depth, dir);
        forall i | 0 <= i < |r.replies.nodes|
          ensures Directed(r.replies.nodes[i], Down)
        {
          var x := r.replies.nodes[i];
          assert x in r.replies.nodes;
          var k :| 0 <= k < |raw.replies| && x == ResponseToThreadNodes(raw.replies[k], depth + 1, Down);
          NormalizeIsDirected(raw.replies[k], depth + 1, Down);
        }
      }
    }
  }

  lemma {:induction false} NormalizeSetsCounts(raw: RawThread, depth: int, dir: Direction)
    ensures CountsSet(ResponseToThreadNodes(raw, depth, dir))
    decreases raw
  {
    var r := ResponseToThreadNodes(raw, depth, dir);
    if r.Post? {
      if r.parent.Some? {
        NormalizeSetsCounts(raw.parent.value, depth - 1, Up);
      }
      if r.replies.Replies? {
        NormalizedReplies(raw, depth, dir);
        forall i | 0 <= i < |r.replies.nodes|
          ensures CountsSet(r.replies.nodes[i])
        {
          var x := r.replies.nodes[i];
          assert x in r.replies.nodes;
          var k :| 0 <= k < |raw.replies| && x == ResponseToThreadNodes(raw.replies[k], depth + 1, Down);
          NormalizeSetsCounts(raw.replies[k], depth + 1, Down);
        }
      }
    }
  }
}
