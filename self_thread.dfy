/**
 * Self-thread continuation: `findSelfThreadPrematureEnd` and the splice in
 * `getPostThread`. When the requested post's author replied to themselves
 * in a chain that the server cut short, one more page is fetched for the
 * last loaded post of that chain and its replies are attached there.
 * Both work on the raw response, before normalization.
 */
module SelfThread {
  import opened Wrappers
  import opened ThreadModel

  /** How many levels of the self-thread are searched, the root included. */
  const MaxLevels: nat := 10

  // ---------------------------------------------------------------------
  // Locations in the raw reply tree

  /** A path of reply indices from `n` to a descendant. */
  ghost predicate ValidPath(n: RawThread, path: seq<nat>)
    decreases path
  {
    path == [] ||
    (n.ThreadViewPost? && path[0] < |n.replies| && ValidPath(n.replies[path[0]], path[1..]))
  }

  function NodeAt(n: RawThread, path: seq<nat>): RawThread
    requires ValidPath(n, path)
    decreases path
  {
    if path == [] then n else NodeAt(n.replies[path[0]], path[1..])
  }

  lemma {:induction false} PathExtend(n: RawThread, path: seq<nat>, k: nat)
    requires ValidPath(n, path) && NodeAt(n, path).ThreadViewPost? && k < |NodeAt(n, path).replies|
    ensures ValidPath(n, path + [k]) && NodeAt(n, path + [k]) == NodeAt(n, path).replies[k]
    decreases path
  {
    if path != [] {
      assert (path + [k])[1..] == path[1..] + [k];
      PathExtend(n.replies[path[0]], path[1..], k);
    }
  }

  // ---------------------------------------------------------------------
  // The specification of the search

  /** A loaded post that claims replies but came back with none. */
  predicate IsPrematureEnd(n: RawThread) {
    n.ThreadViewPost? && Truthy(n.post.replyCount) && |n.replies| == 0
  }

  /** A thread-view post written by `author`. */
  predicate ByAuthor(author: string, n: RawThread) {
    n.ThreadViewPost? && n.post.author.did == author
  }

  /** `replies.find(r => isThreadViewPost(r) && r.post.author.did === author)`,
      as the index of the first such reply. */
  function FirstReplyBy(author: string, rs: seq<RawThread>): (k: Option<nat>)
    ensures k.Some? ==> k.value < |rs| && ByAuthor(author, rs[k.value])
    ensures k.Some? ==> forall j :: 0 <= j < k.value ==> !ByAuthor(author, rs[j])
    ensures k.None? ==> forall j :: 0 <= j < |rs| ==> !ByAuthor(author, rs[j])
  {
    if rs == [] then None
    else if ByAuthor(author, rs[0]) then Some(0)
    else match FirstReplyBy(author, rs[1..])
      case None => None
      case Some(j) => Some(j + 1)
  }

  /** Every thread-view ancestor up to the first one that is not a thread-view
      post is written by `author`. */
  predicate AncestorsBy(author: string, p: Option<RawThread>)
    decreases p
  {
    p.None? || !p.value.ThreadViewPost? ||
    (p.value.post.author.did == author && AncestorsBy(author, p.value.parent))
  }

  function Prepend(prefix: seq<nat>, e: Option<seq<nat>>): Option<seq<nat>> {
    if e.None? then None else Some(prefix + e.value)
  }

  /** The downward part of the search, from `n`, over at most `levels` levels. */
  function DescendToEnd(author: string, n: RawThread, levels: nat): (e: Option<seq<nat>>)
    requires n.ThreadViewPost?
    ensures e.Some? ==> |e.value| < levels && ValidPath(n, e.value) && IsPrematureEnd(NodeAt(n, e.value))
    decreases levels
  {
    if levels == 0 then None
    else if IsPrematureEnd(n) then Some([])
    else match FirstReplyBy(author, n.replies)
      case None => None
      case Some(k) => Prepend([k], DescendToEnd(author, n.replies[k], levels - 1))
  }

  /** Where `findSelfThreadPrematureEnd(author, root)` stops, as a path. */
  function SelfThreadEnd(author: string, root: RawThread): (e: Option<seq<nat>>)
    requires root.ThreadViewPost?
    ensures e.Some? ==> |e.value| < MaxLevels && ValidPath(root, e.value) && IsPrematureEnd(NodeAt(root, e.value))
    ensures !AncestorsBy(author, root.parent) ==> e.None?
  {
    if AncestorsBy(author, root.parent) then DescendToEnd(author, root, MaxLevels) else None
  }

  /** The independent reference: the chain of posts visited when always
      following the first reply by `author`, at most `levels` posts long. */
  function SameAuthorChain(author: string, n: RawThread, levels: nat): (c: seq<RawThread>)
    requires n.ThreadViewPost?
    ensures |c| <= levels && (levels > 0 ==> |c| > 0 && c[0] == n)
    ensures forall j :: 0 <= j < |c| ==> c[j].ThreadViewPost?
    ensures forall j :: 0 < j < |c| ==> ByAuthor(author, c[j])
    decreases levels
  {
    if levels == 0 then []
    else match FirstReplyBy(author, n.replies)
      case None => [n]
      case Some(k) => [n] + SameAuthorChain(author, n.replies[k], levels - 1)
  }

  /** Some post of the chain `c` is a premature end. */
  ghost predicate HasPrematureEnd(c: seq<RawThread>) {
    exists j :: 0 <= j < |c| && IsPrematureEnd(c[j])
  }

  /** `path` leads from `n` to the first premature end of the chain `c`. */
  ghost predicate LeadsToFirstPrematureEnd(n: RawThread, c: seq<RawThread>, path: seq<nat>) {
    && |path| < |c| && ValidPath(n, path) && NodeAt(n, path) == c[|path|]
    && IsPrematureEnd(c[|path|])
    && forall j :: 0 <= j < |path| ==> !IsPrematureEnd(c[j])
  }

  /** The search finds something exactly when some post of the same-author
      chain is a premature end, and then it is the first such post. */
  lemma {:induction false} DescendFindsFirstPrematureEnd(author: string, n: RawThread, levels: nat)
    requires n.ThreadViewPost?
    ensures DescendToEnd(author, n, levels).Some? <==> HasPrematureEnd(SameAuthorChain(author, n, levels))
    ensures DescendToEnd(author, n, levels).Some? ==>
      LeadsToFirstPrematureEnd(n, SameAuthorChain(author, n, levels), DescendToEnd(author, n, levels).value)
    decreases levels
  {
    var c := SameAuthorChain(author, n, levels);
    var e := DescendToEnd(author, n, levels);
    if levels == 0 {
    } else if IsPrematureEnd(n) {
      assert IsPrematureEnd(c[0]);
    } else {
      match FirstReplyBy(author, n.replies)
      case None =>
        assert c == [n];
      case Some(k) =>
        var child := n.replies[k];
        DescendFindsFirstPrematureEnd(author, child, levels - 1);
        var cc := SameAuthorChain(author, child, levels - 1);
        var ce := DescendToEnd(author, child, levels - 1);
        assert c == [n] + cc;
        if ce.Some? {
          var p := ce.value;
          assert e.value == [k] + p;
          assert e.value[1..] == p;
          assert NodeAt(n, e.value) == NodeAt(child, p);
          assert c[|p| + 1] == cc[|p|];
          forall j | 0 <= j < |e.value| ensures !IsPrematureEnd(c[j]) {
            if j > 0 { assert c[j] == cc[j - 1]; }
          }
        } else {
          forall j | 0 <= j < |c| ensures !IsPrematureEnd(c[j]) {
            if j > 0 {
              assert c[j] == cc[j - 1];
            }
          }
        }
    }
  }

  /** `findSelfThreadPrematureEnd` finds a node exactly when every
      thread-view ancestor is by the author and some post of the same-author
      chain within the first ten levels is a premature end; the node is the
      first such post. */
  lemma SelfThreadEndCharacterized(author: string, root: RawThread)
    requires root.ThreadViewPost?
    ensures SelfThreadEnd(author, root).Some? <==>
      AncestorsBy(author, root.parent) && HasPrematureEnd(SameAuthorChain(author, root, MaxLevels))
    ensures SelfThreadEnd(author, root).Some? ==>
      LeadsToFirstPrematureEnd(root, SameAuthorChain(author, root, MaxLevels), SelfThreadEnd(author, root).value)
  {
    DescendFindsFirstPrematureEnd(author, root, MaxLevels);
  }

  // ---------------------------------------------------------------------
  // The search itself

  lemma PrependNothing(e: Option<seq<nat>>)
    ensures Prepend([], e) == e
  {
    if e.Some? { assert [] + e.value == e.value; }
  }

  lemma PrependTwice(p: seq<nat>, q: seq<nat>, e: Option<seq<nat>>)
    ensures Prepend(p, Prepend(q, e)) == Prepend(p + q, e)
  {
    if e.Some? { assert p + (q + e.value) == (p + q) + e.value; }
  }

  /** One level of the downward search. */
  lemma DescendStep(author: string, n: RawThread, levels: nat, k: nat)
    requires n.ThreadViewPost? && levels > 0 && !IsPrematureEnd(n)
    requires FirstReplyBy(author, n.replies) == Some(k)
    ensures DescendToEnd(author, n, levels) == Prepend([k], DescendToEnd(author, n.replies[k], levels - 1))
  {
  }

  /** `findSelfThreadPrematureEnd(authorDid, node)`: the path to the node it
      returns, or `None` for `undefined`. */
  method FindSelfThreadPrematureEnd(authorDid: string, node: RawThread) returns (end: Option<seq<nat>>)
    requires node.ThreadViewPost?
    ensures end == SelfThreadEnd(authorDid, node)
  {
    var selfThread := AncestorsAreBy(authorDid, node.parent);
    if !selfThread {
      // an ancestor by someone else: no premature end to look for
      return None;
    }
    end := DescendToPrematureEnd(authorDid, node, MaxLevels);
  }

  /** The upward loop of `findSelfThreadPrematureEnd`: walk the thread-view
      ancestors and give up at the first one by someone else. */
  method AncestorsAreBy(authorDid: string, start: Option<RawThread>) returns (ok: bool)
    ensures ok == AncestorsBy(authorDid, start)
  {
    var parent := start;
    while parent.Some? && parent.value.ThreadViewPost?
      invariant AncestorsBy(authorDid, start) == AncestorsBy(authorDid, parent)
      decreases parent
    {
      if parent.value.post.author.did != authorDid {
        return false;
      }
      parent := parent.value.parent;
    }
    return true;
  }

  /** The downward loop of `findSelfThreadPrematureEnd`: at most
      `levels` levels (ten in the source), following the first reply by the
      author each time. */
  method DescendToPrematureEnd(authorDid: string, node: RawThread, levels: nat) returns (end: Option<seq<nat>>)
    requires node.ThreadViewPost?
    ensures end == DescendToEnd(authorDid, node, levels)
  {
    ghost var goal := DescendToEnd(authorDid, node, levels);
    var cur := node;
    var path: seq<nat> := [];
    PrependNothing(goal);
    for i := 0 to levels
      invariant cur.ThreadViewPost? && |path| == i
      invariant ValidPath(node, path) && NodeAt(node, path) == cur
      invariant goal == Prepend(path, DescendToEnd(authorDid, cur, levels - i))
    {
      if Truthy(cur.post.replyCount) && |cur.replies| == 0 {
        assert path + [] == path;
        return Some(path);
      }
      var reply := FirstReplyBy(authorDid, cur.replies);
      if reply.None? {
        return None;
      }
      var k := reply.value;
      PathExtend(node, path, k);
      DescendStep(authorDid, cur, levels - i, k);
      PrependTwice(path, [k], DescendToEnd(authorDid, cur.replies[k], levels - i - 1));
      cur := cur.replies[k];
      path := path + [k];
    }
    return None;
  }

  // ---------------------------------------------------------------------
  // The splice and `getPostThread`

  /** `terminus.replies = continuation.replies`, for the node at `path`. */
  function SpliceReplies(n: RawThread, path: seq<nat>, rs: seq<RawThread>): (r: RawThread)
    requires ValidPath(n, path) && NodeAt(n, path).ThreadViewPost?
    ensures ValidPath(r, path) && NodeAt(r, path) == NodeAt(n, path).(replies := rs)
    ensures path != [] ==>
      && r.ThreadViewPost? && r.post == n.post && r.parent == n.parent && r.replyCount == n.replyCount
      && |r.replies| == |n.replies|
      && forall i :: 0 <= i < |n.replies| && i != path[0] ==> r.replies[i] == n.replies[i]
    decreases path
  {
    if path == [] then n.(replies := rs)
    else n.(replies := n.replies[path[0] := SpliceReplies(n.replies[path[0]], path[1..], rs)])
  }

  /** A path splits at any point into the path to a node and the path on from it. */
  lemma {:induction false} NodeAtSplit(n: RawThread, path: seq<nat>, k: nat)
    requires ValidPath(n, path) && k <= |path|
    ensures && ValidPath(n, path[..k]) && ValidPath(NodeAt(n, path[..k]), path[k..])
            && NodeAt(NodeAt(n, path[..k]), path[k..]) == NodeAt(n, path)
    decreases path
  {
    if k > 0 {
      assert path[..k][1..] == path[1..][..k - 1];
      assert path[1..][k - 1..] == path[k..];
      NodeAtSplit(n.replies[path[0]], path[1..], k - 1);
    }
  }

  /** Along the path, the spliced tree holds at each node that node's own
      splice: by `SpliceReplies`'s contract, each node on the way keeps its
      post, parent, count and every reply but the one the path goes through. */
  lemma {:induction false} SpliceAlongPath(n: RawThread, path: seq<nat>, rs: seq<RawThread>, k: nat)
    requires ValidPath(n, path) && NodeAt(n, path).ThreadViewPost? && k <= |path|
    ensures && ValidPath(n, path[..k]) && ValidPath(NodeAt(n, path[..k]), path[k..])
            && NodeAt(NodeAt(n, path[..k]), path[k..]) == NodeAt(n, path)
            && ValidPath(SpliceReplies(n, path, rs), path[..k])
            && NodeAt(SpliceReplies(n, path, rs), path[..k]) == SpliceReplies(NodeAt(n, path[..k]), path[k..], rs)
    decreases path
  {
    NodeAtSplit(n, path, k);
    if k > 0 {
      assert path[..k][1..] == path[1..][..k - 1];
      assert path[1..][k - 1..] == path[k..];
      SpliceAlongPath(n.replies[path[0]], path[1..], rs, k - 1);
    }
  }

  /** Every node whose path leaves `path` at some step `d` is unchanged. */
  lemma {:induction false} SpliceLeavesOffPath(n: RawThread, path: seq<nat>, rs: seq<RawThread>, q: seq<nat>, d: nat)
    requires ValidPath(n, path) && NodeAt(n, path).ThreadViewPost? && ValidPath(n, q)
    requires d < |q| && d < |path| && q[..d] == path[..d] && q[d] != path[d]
    ensures ValidPath(SpliceReplies(n, path, rs), q) && NodeAt(SpliceReplies(n, path, rs), q) == NodeAt(n, q)
    decreases path
  {
    if d > 0 {
      assert q[0] == q[..d][0] && path[0] == path[..d][0];
      assert q[1..][..d - 1] == q[..d][1..] && path[1..][..d - 1] == path[..d][1..];
      SpliceLeavesOffPath(n.replies[path[0]], path[1..], rs, q[1..], d - 1);
    }
  }

  /** `getPostThread` after the first fetch returned `res`: `fetch(uri)` is
      the thread the continuation request returns for `uri`. */
  method GetPostThread(res: RawThread, fetch: string -> RawThread) returns (r: RawThread)
    ensures !res.ThreadViewPost? ==> r == res
    ensures res.ThreadViewPost? && SelfThreadEnd(res.post.author.did, res).None? ==> r == res
    ensures res.ThreadViewPost? && SelfThreadEnd(res.post.author.did, res).Some? ==>
      var path := SelfThreadEnd(res.post.author.did, res).value;
      var continuation := fetch(NodeAt(res, path).post.uri);
      && (!continuation.ThreadViewPost? ==> r == res)
      && (continuation.ThreadViewPost? ==> r == SpliceReplies(res, path, continuation.replies))
      && (continuation.ThreadViewPost? ==> NodeAt(r, path).replies == continuation.replies)
  {
    r := res;
    if res.ThreadViewPost? {
      // look for the author's own reply chain ending before its replies are loaded
      var terminus := FindSelfThreadPrematureEnd(res.post.author.did, res);
      if terminus.Some? {
        // the continuation's replies go in at the premature end
        var continuation := fetch(NodeAt(res, terminus.value).post.uri);
        if continuation.ThreadViewPost? {
          r := SpliceReplies(res, terminus.value, continuation.replies);
        }
      }
    }
  }
}
