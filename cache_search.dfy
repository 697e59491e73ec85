/**
 * Searching the cached threads (src/state/queries/post-thread.ts:275-447):
 * the depth-first walk `traverseThread`, the three placeholder builders that
 * turn a cached post into a one-node thread to show while the real thread
 * loads, and the searches `findAllPostsInQueryData`,
 * `findAllProfilesInQueryData` and `findPostInQueryData`.
 *
 * The query client is replaced by what it would hand out: the cached
 * thread roots (`None` for an empty cache entry) and the results of the
 * feed, notification and search finders, as sequences in their order.
 */
module CacheSearch {
  import opened Wrappers
  import opened ThreadModel

  // ---------------------------------------------------------------------
  // Traversal

  /** `traverseThread(node)`: the parent chain first, then the node itself,
      then every reply's subtree in order; only post nodes are produced. */
  function Traverse(n: ThreadNode): (r: seq<ThreadNode>)
    ensures forall x :: x in r ==> x.Post?
    ensures n.Post? <==> n in r
    ensures !n.Post? ==> r == []
  {
    match n
    case Post(_, _, _, _, parent, replies, _) =>
      (if parent.Some? then Traverse(parent.value) else [])
      + [n]
      + (if replies.Replies? then TraverseAll(replies.nodes) else [])
    case _ => []
  }

  /** The subtrees of `ns`, one after the other. */
  function TraverseAll(ns: seq<ThreadNode>): (r: seq<ThreadNode>)
    ensures forall x :: x in r ==> x.Post?
  {
    if ns == [] then [] else Traverse(ns[0]) + TraverseAll(ns[1..])
  }

  /** Every post among the given nodes is produced by their walk. */
  lemma {:induction false} TraverseAllContains(ns: seq<ThreadNode>)
    ensures forall i :: 0 <= i < |ns| && ns[i].Post? ==> ns[i] in TraverseAll(ns)
    decreases |ns|
  {
    if ns != [] {
      TraverseAllContains(ns[1..]);
      assert forall i :: 1 <= i < |ns| ==> ns[i] == ns[1..][i - 1];
    }
  }

  /** The walk visits exactly the post nodes reachable from `n`, the same
      set the moderation cache is filled for. */
  lemma {:induction false} TraverseVisitsPosts(n: ThreadNode)
    ensures forall x :: x in Traverse(n) <==> x in PostsOf(n)
    decreases n
  {
    match n
    case Post(_, _, _, _, parent, replies, _) =>
      if parent.Some? {
        TraverseVisitsPosts(parent.value);
      }
      if replies.Replies? {
        TraverseAllVisitsPosts(replies.nodes);
      }
    case _ =>
  }

  lemma {:induction false} TraverseAllVisitsPosts(ns: seq<ThreadNode>)
    ensures forall x :: x in TraverseAll(ns) <==> x in PostsOfAll(ns)
    decreases ns
  {
    if ns != [] {
      TraverseVisitsPosts(ns[0]);
      TraverseAllVisitsPosts(ns[1..]);
    }
  }

  /** `t[k]` is `n`, with `n`'s parent (when it is a post) before it and
      every reply of `n` that is a post after it. */
  ghost predicate VisitedInOrder(n: ThreadNode, t: seq<ThreadNode>, k: int)
    requires n.Post?
  {
    0 <= k < |t| && t[k] == n
    && (n.parent.Some? && n.parent.value.Post? ==> n.parent.value in t[..k])
    && (n.replies.Replies? ==>
          forall i :: 0 <= i < |n.replies.nodes| && n.replies.nodes[i].Post? ==> n.replies.nodes[i] in t[k + 1..])
  }

  /** What the walk of a post produces before and after the post itself. */
  function Above(n: ThreadNode): seq<ThreadNode>
    requires n.Post?
  {
    if n.parent.Some? then Traverse(n.parent.value) else []
  }

  function Below(n: ThreadNode): seq<ThreadNode>
    requires n.Post?
  {
    if n.replies.Replies? then TraverseAll(n.replies.nodes) else []
  }

  lemma TraverseSplit(n: ThreadNode)
    requires n.Post?
    ensures Traverse(n) == Above(n) + [n] + Below(n)
  {
  }

  /** Order of the walk: ancestors first, then the node, then its replies. */
  lemma TraverseOrder(n: ThreadNode)
    requires n.Post?
    ensures exists k :: VisitedInOrder(n, Traverse(n), k)
  {
    TraverseSplit(n);
    var t := Traverse(n);
    var k := |Above(n)|;
    assert t[..k] == Above(n) && t[k] == n && t[k + 1..] == Below(n);
    if n.replies.Replies? {
      TraverseAllContains(n.replies.nodes);
      assert Below(n) == TraverseAll(n.replies.nodes);
    }
    assert VisitedInOrder(n, t, k);
  }

  /** The walk of a reply list is the walk of the replies before index `i`
      followed by the walk of the rest. */
  lemma {:induction false} TraverseAllSplit(ns: seq<ThreadNode>, i: nat)
    requires i <= |ns|
    ensures TraverseAll(ns) == TraverseAll(ns[..i]) + TraverseAll(ns[i..])
    decreases i
  {
    if i > 0 {
      var tail := ns[1..];
      TraverseAllSplit(tail, i - 1);
      assert ns[..i][1..] == tail[..i - 1];
      assert tail[i - 1..] == ns[i..];
    }
  }

  /** The results of `f` on each element of `s`, one after the other. */
  function FlatMap<T, U>(f: T -> seq<U>, s: seq<T>): seq<U> {
    if s == [] then [] else f(s[0]) + FlatMap(f, s[1..])
  }

  lemma {:induction false} FlatMapAt<T, U>(f: T -> seq<U>, s: seq<T>, i: nat)
    requires i < |s|
    ensures FlatMap(f, s) == FlatMap(f, s[..i]) + f(s[i]) + FlatMap(f, s[i + 1..])
    decreases i
  {
    if i > 0 {
      var tail := s[1..];
      FlatMapAt(f, tail, i - 1);
      assert s[..i][1..] == tail[..i - 1];
      assert tail[i - 1] == s[i] && tail[i..] == s[i + 1..];
    }
  }

  lemma {:induction false} TraverseAllIsFlatMap(ns: seq<ThreadNode>)
    ensures TraverseAll(ns) == FlatMap(Traverse, ns)
    decreases |ns|
  {
    if ns != [] {
      TraverseAllIsFlatMap(ns[1..]);
    }
  }

  /** Hence the subtrees come in reply order: the walk of the replies
      before `ns[i]`, then `ns[i]`'s subtree, then the walk of the replies
      after it. */
  lemma TraverseAllAt(ns: seq<ThreadNode>, i: nat)
    requires i < |ns|
    ensures TraverseAll(ns) == TraverseAll(ns[..i]) + Traverse(ns[i]) + TraverseAll(ns[i + 1..])
  {
    TraverseAllIsFlatMap(ns);
    TraverseAllIsFlatMap(ns[..i]);
    TraverseAllIsFlatMap(ns[i + 1..]);
    FlatMapAt(Traverse, ns, i);
  }

  /** The post ancestors of a post, from the farthest to the parent: the
      parent links followed while they lead to posts. */
  function AncestorChain(n: ThreadNode): (c: seq<ThreadNode>)
    requires n.Post?
    ensures forall i :: 0 <= i < |c| ==> c[i].Post?
    decreases n
  {
    if n.parent.Some? && n.parent.value.Post? then AncestorChain(n.parent.value) + [n.parent.value] else []
  }

  /** Each post of the chain `c`, followed by its replies' subtrees. */
  function ChainWalk(c: seq<ThreadNode>): seq<ThreadNode>
    requires forall i :: 0 <= i < |c| ==> c[i].Post?
  {
    if c == [] then [] else ChainWalk(c[..|c| - 1]) + [c[|c| - 1]] + Below(c[|c| - 1])
  }

  /** The walk of a post is its ancestor chain from the farthest ancestor
      down, each ancestor followed by its replies' subtrees, then the post
      itself and its own replies' subtrees. */
  lemma {:induction false} TraverseIsChainWalk(n: ThreadNode)
    requires n.Post?
    ensures Traverse(n) == ChainWalk(AncestorChain(n) + [n])
    decreases n
  {
    var c := AncestorChain(n) + [n];
    assert c[..|c| - 1] == AncestorChain(n);
    if n.parent.Some? && n.parent.value.Post? {
      TraverseIsChainWalk(n.parent.value);
    } else {
      assert ChainWalk(AncestorChain(n)) == [];
    }
  }

  /** The nodes the two searches visit: the walk of every non-empty cached
      thread, in cache order. */
  function CachedNodes(datas: seq<Option<ThreadNode>>): (r: seq<ThreadNode>)
    ensures forall x :: x in r ==> x.Post?
  {
    if datas == [] then []
    else (if datas[0].Some? then Traverse(datas[0].value) else []) + CachedNodes(datas[1..])
  }

  /** `y` is a post node of one of the cached threads. */
  ghost predicate InCache(datas: seq<Option<ThreadNode>>, y: ThreadNode) {
    exists i :: 0 <= i < |datas| && datas[i].Some? && y in PostsOf(datas[i].value)
  }

  /** The searches visit exactly the post nodes of the cached threads. */
  lemma {:induction false} CachedNodesMembers(datas: seq<Option<ThreadNode>>)
    ensures forall y :: y in CachedNodes(datas) <==> InCache(datas, y)
    decreases |datas|
  {
    if datas != [] {
      CachedNodesMembers(datas[1..]);
      if datas[0].Some? {
        TraverseVisitsPosts(datas[0].value);
      }
      forall y
        ensures y in CachedNodes(datas) <==> InCache(datas, y)
      {
        if InCache(datas, y) {
          var i :| 0 <= i < |datas| && datas[i].Some? && y in PostsOf(datas[i].value);
          if i > 0 {
            assert datas[1..][i - 1] == datas[i];
          }
        }
        if y in CachedNodes(datas[1..]) {
          var i :| 0 <= i < |datas[1..]| && datas[1..][i].Some? && y in PostsOf(datas[1..][i].value);
          assert datas[i + 1] == datas[1..][i];
          assert InCache(datas, y);
        }
      }
    }
  }

  // ---------------------------------------------------------------------
  // Placeholders

  /** The shape shared by every placeholder: a highlighted root post at
      depth 0 with nothing more to load below the fold, no parent and no
      replies, whose parent is loading exactly when its record is a reply. */
  predicate IsPlaceholder(n: ThreadNode) {
    n.Post? && n.parent.None? && n.replies.NoReplies?
    && n.ctx.depth == 0 && n.ctx.isHighlightedPost && !n.ctx.hasMore
    && n.ctx.isParentLoading == n.record.hasReply
  }

  /** `threadNodeToPlaceholderThread(node)`: a cached post node cut loose
      from its thread; nothing for other nodes. */
  function ThreadNodeToPlaceholderThread(n: ThreadNode): (r: Option<ThreadNode>)
    ensures r.Some? <==> n.Post?
    ensures r.Some? ==> IsPlaceholder(r.value)
    ensures r.Some? ==> r.value.reactKey == n.reactKey && r.value.uri == n.uri
                        && r.value.post == n.post && r.value.record == n.record
    ensures r.Some? ==> (r.value.ctx.isChildLoading <==> Truthy(n.post.replyCount))
  {
    if !n.Post? then None
    else
      Some(Post(n.reactKey, n.uri, n.post, n.record, None, NoReplies,
                ThreadCtx(0, true, false, n.record.hasReply, Truthy(n.post.replyCount))))
  }

  /** `postViewToPlaceholderThread(post)`: a post found in another cache,
      keyed by its URI; its replies are taken to be loading. */
  function PostViewToPlaceholderThread(post: PostView): (r: ThreadNode)
    ensures IsPlaceholder(r)
    ensures r.reactKey == post.uri && r.uri == post.uri
    ensures r.post == post && r.record == post.record
    ensures r.ctx.isChildLoading
  {
    Post(post.uri, post.uri, post, post.record, None, NoReplies,
         ThreadCtx(0, true, false, post.record.hasReply, true))
  }

  /** `embedViewRecordToPlaceholderThread(record)`: a quoted post, with its
      post view made by `toPostView` (`embedViewRecordToPostView`); its
      replies are taken to be loading. */
  function EmbedViewRecordToPlaceholderThread(rec: ViewRecord, toPostView: ViewRecord -> PostView): (r: ThreadNode)
    ensures IsPlaceholder(r)
    ensures r.reactKey == rec.uri && r.uri == rec.uri
    ensures r.post == toPostView(rec) && r.record == rec.value
    ensures r.ctx.isChildLoading
  {
    Post(rec.uri, rec.uri, toPostView(rec), rec.value, None, NoReplies,
         ThreadCtx(0, true, false, rec.value.hasReply, true))
  }

  /** A placeholder is a one-node thread. */
  lemma PlaceholderIsAlone(p: ThreadNode)
    requires IsPlaceholder(p)
    ensures Traverse(p) == [p]
    ensures PostsOf(p) == {p}
  {
    assert Traverse(p) == [] + [p] + [];
  }

  /** Turning a thread node's placeholder into a placeholder again changes
      nothing. */
  lemma ThreadPlaceholderIdempotent(n: ThreadNode)
    requires n.Post?
    ensures ThreadNodeToPlaceholderThread(ThreadNodeToPlaceholderThread(n).value)
         == ThreadNodeToPlaceholderThread(n)
  {
  }

  // ---------------------------------------------------------------------
  // Searching for posts

  /** The helpers the search calls, which are not part of this model:
      `uriMatches(uri, itemUri, author)` is `didOrHandleUriMatches`,
      `embeddedPost` is `getEmbeddedPost` applied to a post's embed, and
      `toPostView` is `embedViewRecordToPostView`. */
  datatype Lookups = Lookups(
    uriMatches: (string, string, ProfileView) -> bool,
    embeddedPost: PostView -> Option<ViewRecord>,
    toPostView: ViewRecord -> PostView)

  /** The post quoted by a post node, if any. */
  function QuotedPost(item: ThreadNode, lk: Lookups): Option<ViewRecord> {
    if item.Post? then lk.embeddedPost(item.post) else None
  }

  /** `x` is produced for the cached node `item` when searching for `uri`:
      either `item` is a matching post and `x` its placeholder, or `x` is the
      placeholder of a matching post that `item` quotes. */
  ghost predicate Hit(uri: string, item: ThreadNode, x: ThreadNode, lk: Lookups) {
    (item.Post? && lk.uriMatches(uri, item.post.uri, item.post.author)
     && ThreadNodeToPlaceholderThread(item) == Some(x))
    || (QuotedPost(item, lk).Some?
        && lk.uriMatches(uri, QuotedPost(item, lk).value.uri, QuotedPost(item, lk).value.author)
        && x == EmbedViewRecordToPlaceholderThread(QuotedPost(item, lk).value, lk.toPostView))
  }

  /** What one visited node contributes, the node's own placeholder before
      that of the post it quotes. */
  function ItemResults(uri: string, item: ThreadNode, lk: Lookups): (r: seq<ThreadNode>)
    ensures forall x :: x in r <==> Hit(uri, item, x, lk)
    ensures forall x :: x in r ==> IsPlaceholder(x)
    ensures |r| == 2 ==>
              item.Post? && QuotedPost(item, lk).Some?
              && r[0] == ThreadNodeToPlaceholderThread(item).value
              && r[1] == EmbedViewRecordToPlaceholderThread(QuotedPost(item, lk).value, lk.toPostView)
  {
    var own := if item.Post? && lk.uriMatches(uri, item.post.uri, item.post.author)
               then [ThreadNodeToPlaceholderThread(item).value] else [];
    var quoted := QuotedPost(item, lk);
    var embed := if quoted.Some? && lk.uriMatches(uri, quoted.value.uri, quoted.value.author)
                 then [EmbedViewRecordToPlaceholderThread(quoted.value, lk.toPostView)] else [];
    own + embed
  }

  /** What a sequence of visited nodes contributes, in visiting order. */
  function ItemsResults(uri: string, items: seq<ThreadNode>, lk: Lookups): (r: seq<ThreadNode>)
    ensures forall x :: x in r ==> IsPlaceholder(x)
  {
    if items == [] then [] else ItemResults(uri, items[0], lk) + ItemsResults(uri, items[1..], lk)
  }

  lemma {:induction false} ItemsResultsMembers(uri: string, items: seq<ThreadNode>, lk: Lookups)
    ensures forall x :: x in ItemsResults(uri, items, lk) <==>
                        exists i :: 0 <= i < |items| && Hit(uri, items[i], x, lk)
    decreases |items|
  {
    if items != [] {
      ItemsResultsMembers(uri, items[1..], lk);
      forall x
        ensures x in ItemsResults(uri, items, lk) <==>
                exists i :: 0 <= i < |items| && Hit(uri, items[i], x, lk)
      {
        if exists i :: 0 <= i < |items| && Hit(uri, items[i], x, lk) {
          var i :| 0 <= i < |items| && Hit(uri, items[i], x, lk);
          if i > 0 {
            assert items[1..][i - 1] == items[i];
          }
        }
        if x in ItemsResults(uri, items[1..], lk) {
          var i :| 0 <= i < |items[1..]| && Hit(uri, items[1..][i], x, lk);
          assert items[i + 1] == items[1..][i];
        }
      }
    }
  }

  /** The thread-cache part of the search: every non-empty cached thread,
      walked with `Traverse`, in cache order. */
  function CacheResults(uri: string, datas: seq<Option<ThreadNode>>, lk: Lookups): (r: seq<ThreadNode>)
    ensures forall x :: x in r ==> IsPlaceholder(x)
  {
    ItemsResults(uri, CachedNodes(datas), lk)
  }

  /** The thread-cache part finds exactly the hits among the post nodes of
      the cached threads. */
  lemma CacheResultsMembers(uri: string, datas: seq<Option<ThreadNode>>, lk: Lookups)
    ensures forall x :: x in CacheResults(uri, datas, lk) <==>
                        exists y :: InCache(datas, y) && Hit(uri, y, x, lk)
  {
    var t := CachedNodes(datas);
    ItemsResultsMembers(uri, t, lk);
    CachedNodesMembers(datas);
    forall x
      ensures x in CacheResults(uri, datas, lk) <==>
              exists y :: InCache(datas, y) && Hit(uri, y, x, lk)
    {
      if x in CacheResults(uri, datas, lk) {
        var k :| 0 <= k < |t| && Hit(uri, t[k], x, lk);
        assert t[k] in t;
      }
      if exists y :: InCache(datas, y) && Hit(uri, y, x, lk) {
        var y :| InCache(datas, y) && Hit(uri, y, x, lk);
        assert y in t;
        var k :| 0 <= k < |t| && t[k] == y;
        assert Hit(uri, t[k], x, lk);
      }
    }
  }

  /** The placeholders of posts found by another cache's finder. */
  function PostViewPlaceholders(posts: seq<PostView>): (r: seq<ThreadNode>)
    ensures |r| == |posts|
    ensures forall i :: 0 <= i < |r| ==> r[i] == PostViewToPlaceholderThread(posts[i])
  {
    seq(|posts|, i requires 0 <= i < |posts| => PostViewToPlaceholderThread(posts[i]))
  }

  /** `findAllPostsInQueryData(queryClient, uri)`: the thread-cache hits
      first, then the placeholders of the feed, notification and search
      finders' posts, in that order. */
  function FindAllPostsInQueryData(uri: string, datas: seq<Option<ThreadNode>>, lk: Lookups,
                                   feed: seq<PostView>, notifs: seq<PostView>, search: seq<PostView>): (r: seq<ThreadNode>)
    ensures forall x :: x in r ==> IsPlaceholder(x)
    ensures |r| == |CacheResults(uri, datas, lk)| + |feed| + |notifs| + |search|
    ensures r[..|CacheResults(uri, datas, lk)|] == CacheResults(uri, datas, lk)
    ensures forall i :: 0 <= i < |feed| ==>
              r[|CacheResults(uri, datas, lk)| + i] == PostViewToPlaceholderThread(feed[i])
    ensures forall i :: 0 <= i < |notifs| ==>
              r[|CacheResults(uri, datas, lk)| + |feed| + i] == PostViewToPlaceholderThread(notifs[i])
    ensures forall i :: 0 <= i < |search| ==>
              r[|CacheResults(uri, datas, lk)| + |feed| + |notifs| + i] == PostViewToPlaceholderThread(search[i])
  {
    CacheResults(uri, datas, lk) + PostViewPlaceholders(feed) + PostViewPlaceholders(notifs)
    + PostViewPlaceholders(search)
  }

  /** With nothing cached anywhere the search finds nothing. */
  lemma {:induction false} EmptyCachesFindNoPosts(uri: string, datas: seq<Option<ThreadNode>>, lk: Lookups)
    requires forall i :: 0 <= i < |datas| ==> datas[i].None?
    ensures CachedNodes(datas) == []
    ensures FindAllPostsInQueryData(uri, datas, lk, [], [], []) == []
    decreases |datas|
  {
    if datas != [] {
      assert forall i :: 0 <= i < |datas[1..]| ==> datas[1..][i] == datas[i + 1];
      EmptyCachesFindNoPosts(uri, datas[1..], lk);
    }
  }

  /** Every matching post of a cached thread, and every matching post one of
      them quotes, is found. */
  lemma CachedMatchesAreFound(uri: string, datas: seq<Option<ThreadNode>>, lk: Lookups,
                              feed: seq<PostView>, notifs: seq<PostView>, search: seq<PostView>,
                              i: nat, y: ThreadNode)
    requires i < |datas| && datas[i].Some? && y in PostsOf(datas[i].value)
    ensures lk.uriMatches(uri, y.post.uri, y.post.author) ==>
              ThreadNodeToPlaceholderThread(y).value in FindAllPostsInQueryData(uri, datas, lk, feed, notifs, search)
    ensures QuotedPost(y, lk).Some? && lk.uriMatches(uri, QuotedPost(y, lk).value.uri, QuotedPost(y, lk).value.author) ==>
              EmbedViewRecordToPlaceholderThread(QuotedPost(y, lk).value, lk.toPostView)
                in FindAllPostsInQueryData(uri, datas, lk, feed, notifs, search)
  {
    CacheResultsMembers(uri, datas, lk);
    assert InCache(datas, y);
    var c := CacheResults(uri, datas, lk);
    var r := FindAllPostsInQueryData(uri, datas, lk, feed, notifs, search);
    assert r[..|c|] == c;
    if lk.uriMatches(uri, y.post.uri, y.post.author) {
      var x := ThreadNodeToPlaceholderThread(y).value;
      assert Hit(uri, y, x, lk);
      assert x in c;
    }
    if QuotedPost(y, lk).Some? && lk.uriMatches(uri, QuotedPost(y, lk).value.uri, QuotedPost(y, lk).value.author) {
      var x := EmbedViewRecordToPlaceholderThread(QuotedPost(y, lk).value, lk.toPostView);
      assert Hit(uri, y, x, lk);
      assert x in c;
    }
  }

  // ---------------------------------------------------------------------
  // Choosing one post

  /** A post node the backend sent in full (`likeCount` present). */
  predicate HasAllInfo(n: ThreadNode) {
    n.Post? && n.post.likeCount.Some?
  }

  ghost predicate IsFirstComplete(items: seq<ThreadNode>, k: int) {
    0 <= k < |items| && HasAllInfo(items[k]) && forall i :: 0 <= i < k ==> !HasAllInfo(items[i])
  }

  ghost predicate IsLastPost(items: seq<ThreadNode>, k: int) {
    0 <= k < |items| && items[k].Post? && forall i :: k < i < |items| ==> !items[i].Post?
  }

  /** The choice `findPostInQueryData` makes among the search results: the
      first complete post; failing that, the last post found; failing that,
      nothing. */
  ghost predicate ChosenPost(items: seq<ThreadNode>, r: Option<ThreadNode>) {
    if exists k :: IsFirstComplete(items, k) then
      exists k :: IsFirstComplete(items, k) && r == Some(items[k])
    else if exists k :: IsLastPost(items, k) then
      exists k :: IsLastPost(items, k) && r == Some(items[k])
    else
      r.None?
  }

  /** The choice is a function of the results. */
  lemma ChosenPostIsUnique(items: seq<ThreadNode>, r1: Option<ThreadNode>, r2: Option<ThreadNode>)
    requires ChosenPost(items, r1) && ChosenPost(items, r2)
    ensures r1 == r2
  {
    if exists k :: IsFirstComplete(items, k) {
      var k1 :| IsFirstComplete(items, k1) && r1 == Some(items[k1]);
      var k2 :| IsFirstComplete(items, k2) && r2 == Some(items[k2]);
      assert !(k1 < k2) && !(k2 < k1);
    } else if exists k :: IsLastPost(items, k) {
      var k1 :| IsLastPost(items, k1) && r1 == Some(items[k1]);
      var k2 :| IsLastPost(items, k2) && r2 == Some(items[k2]);
      assert !(k1 < k2) && !(k2 < k1);
    }
  }

  /** `findPostInQueryData(queryClient, uri)`. */
  method FindPostInQueryData(uri: string, datas: seq<Option<ThreadNode>>, lk: Lookups,
                             feed: seq<PostView>, notifs: seq<PostView>, search: seq<PostView>)
    returns (r: Option<ThreadNode>)
    ensures ChosenPost(FindAllPostsInQueryData(uri, datas, lk, feed, notifs, search), r)
  {
    r := PickPost(FindAllPostsInQueryData(uri, datas, lk, feed, notifs, search));
  }

  /** The loop of `findPostInQueryData` over the search results: stop at
      the first complete post, otherwise remember the latest post seen. */
  method PickPost(items: seq<ThreadNode>) returns (r: Option<ThreadNode>)
    ensures ChosenPost(items, r)
  {
    var partial: Option<ThreadNode> := None;
    for i := 0 to |items|
      invariant forall j :: 0 <= j < i ==> !HasAllInfo(items[j])
      invariant partial.None? ==> forall j :: 0 <= j < i ==> !items[j].Post?
      invariant partial.Some? ==> exists k :: IsLastPost(items[..i], k) && partial.value == items[k]
    {
      if items[i].Post? {
        if HasAllInfo(items[i]) {
          assert IsFirstComplete(items, i);
          return Some(items[i]);
        }
        assert IsLastPost(items[..i + 1], i);
        partial := Some(items[i]);
      } else if partial.Some? {
        ghost var k :| IsLastPost(items[..i], k) && partial.value == items[k];
        assert IsLastPost(items[..i + 1], k);
      }
    }
    assert items[..|items|] == items;
    if partial.None? {
      assert !exists k :: IsLastPost(items, k);
    }
    return partial;
  }

  // ---------------------------------------------------------------------
  // Searching for profiles

  /** `p` is produced for the cached node `item` when searching for `did`:
      it is the author of `item` or of the post `item` quotes, with that did. */
  ghost predicate ProfileHit(did: string, item: ThreadNode, p: ProfileView, lk: Lookups) {
    (item.Post? && item.post.author.did == did && p == item.post.author)
    || (QuotedPost(item, lk).Some? && QuotedPost(item, lk).value.author.did == did
        && p == QuotedPost(item, lk).value.author)
  }

  /** What one visited node contributes, its own author before the author of
      the post it quotes. */
  function ItemProfiles(did: string, item: ThreadNode, lk: Lookups): (r: seq<ProfileView>)
    ensures forall p :: p in r <==> ProfileHit(did, item, p, lk)
    ensures forall p :: p in r ==> p.did == did
  {
    var quoted := QuotedPost(item, lk);
    (if item.Post? && item.post.author.did == did then [item.post.author] else [])
    + (if quoted.Some? && quoted.value.author.did == did then [quoted.value.author] else [])
  }

  function ItemsProfiles(did: string, items: seq<ThreadNode>, lk: Lookups): (r: seq<ProfileView>)
    ensures forall p :: p in r ==> p.did == did
  {
    if items == [] then [] else ItemProfiles(did, items[0], lk) + ItemsProfiles(did, items[1..], lk)
  }

  lemma {:induction false} ItemsProfilesMembers(did: string, items: seq<ThreadNode>, lk: Lookups)
    ensures forall p :: p in ItemsProfiles(did, items, lk) <==>
                        exists i :: 0 <= i < |items| && ProfileHit(did, items[i], p, lk)
    decreases |items|
  {
    if items != [] {
      ItemsProfilesMembers(did, items[1..], lk);
      forall p
        ensures p in ItemsProfiles(did, items, lk) <==>
                exists i :: 0 <= i < |items| && ProfileHit(did, items[i], p, lk)
      {
        if exists i :: 0 <= i < |items| && ProfileHit(did, items[i], p, lk) {
          var i :| 0 <= i < |items| && ProfileHit(did, items[i], p, lk);
          if i > 0 {
            assert items[1..][i - 1] == items[i];
          }
        }
        if p in ItemsProfiles(did, items[1..], lk) {
          var i :| 0 <= i < |items[1..]| && ProfileHit(did, items[1..][i], p, lk);
          assert items[i + 1] == items[1..][i];
        }
      }
    }
  }

  /** The thread-cache part of the profile search. */
  function CacheProfiles(did: string, datas: seq<Option<ThreadNode>>, lk: Lookups): (r: seq<ProfileView>)
    ensures forall p :: p in r ==> p.did == did
  {
    ItemsProfiles(did, CachedNodes(datas), lk)
  }

  /** The thread-cache part finds exactly the authors with that did among
      the post nodes of the cached threads and the posts they quote. */
  lemma CacheProfilesMembers(did: string, datas: seq<Option<ThreadNode>>, lk: Lookups)
    ensures forall p :: p in CacheProfiles(did, datas, lk) <==>
                        exists y :: InCache(datas, y) && ProfileHit(did, y, p, lk)
  {
    var t := CachedNodes(datas);
    ItemsProfilesMembers(did, t, lk);
    CachedNodesMembers(datas);
    forall p
      ensures p in CacheProfiles(did, datas, lk) <==>
              exists y :: InCache(datas, y) && ProfileHit(did, y, p, lk)
    {
      if p in CacheProfiles(did, datas, lk) {
        var k :| 0 <= k < |t| && ProfileHit(did, t[k], p, lk);
        assert t[k] in t;
      }
      if exists y :: InCache(datas, y) && ProfileHit(did, y, p, lk) {
        var y :| InCache(datas, y) && ProfileHit(did, y, p, lk);
        assert y in t;
        var k :| 0 <= k < |t| && t[k] == y;
        assert ProfileHit(did, t[k], p, lk);
      }
    }
  }

  /** `findAllProfilesInQueryData(queryClient, did)`: the thread-cache
      authors with that did first, then the feed, notification and search
      finders' profiles, in that order. */
  function FindAllProfilesInQueryData(did: string, datas: seq<Option<ThreadNode>>, lk: Lookups,
                                      feed: seq<ProfileView>, notifs: seq<ProfileView>, search: seq<ProfileView>)
    : (r: seq<ProfileView>)
    ensures |r| == |CacheProfiles(did, datas, lk)| + |feed| + |notifs| + |search|
    ensures r[..|CacheProfiles(did, datas, lk)|] == CacheProfiles(did, datas, lk)
    ensures forall i :: 0 <= i < |CacheProfiles(did, datas, lk)| ==> r[i].did == did
    ensures r[|CacheProfiles(did, datas, lk)|..] == feed + notifs + search
  {
    var c := CacheProfiles(did, datas, lk);
    var r := c + feed + notifs + search;
    assert r[..|c|] == c && r[|c|..] == feed + notifs + search;
    r
  }

  /** Every cached post by `did`, and every post by `did` that a cached post
      quotes, contributes its author. */
  lemma CachedAuthorsAreFound(did: string, datas: seq<Option<ThreadNode>>, lk: Lookups,
                              feed: seq<ProfileView>, notifs: seq<ProfileView>, search: seq<ProfileView>,
                              i: nat, y: ThreadNode)
    requires i < |datas| && datas[i].Some? && y in PostsOf(datas[i].value)
    ensures y.post.author.did == did ==>
              y.post.author in FindAllProfilesInQueryData(did, datas, lk, feed, notifs, search)
    ensures QuotedPost(y, lk).Some? && QuotedPost(y, lk).value.author.did == did ==>
              QuotedPost(y, lk).value.author in FindAllProfilesInQueryData(did, datas, lk, feed, notifs, search)
  {
    CacheProfilesMembers(did, datas, lk);
    assert InCache(datas, y);
    var c := CacheProfiles(did, datas, lk);
    if y.post.author.did == did {
      assert ProfileHit(did, y, y.post.author, lk);
      assert y.post.author in c;
    }
    if QuotedPost(y, lk).Some? && QuotedPost(y, lk).value.author.did == did {
      assert ProfileHit(did, y, QuotedPost(y, lk).value.author, lk);
      assert QuotedPost(y, lk).value.author in c;
    }
  }
}
