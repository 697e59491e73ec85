/**
 * The sort engine `sortThread`: each post's replies are sorted in place
 * with a layered comparator (posts before other nodes, the parent author's
 * own replies first, unblurred before blurred, followed authors first when
 * asked, then the user's sort policy), and then each reply is sorted in turn.
 */
module ThreadSort {
  import opened Wrappers
  import opened ThreadModel
  import opened ModerationCache

  /** The thread view preferences the sort reads (`threadViewPrefs`). */
  datatype ThreadViewPrefs = ThreadViewPrefs(sort: string, prioritizeFollowedUsers: bool)

  /** `x.localeCompare(y)` on two index times. */
  function CompareTime(x: int, y: int): (c: int)
    ensures c < 0 <==> x < y
    ensures c == 0 <==> x == y
    ensures c > 0 <==> x > y
  {
    if x < y then -1 else if x == y then 0 else 1
  }

  /** `Boolean(modCache.get(n)?.ui('contentList').blur)`: a node missing
      from the cache is not blurred. */
  predicate Blurred(cache: map<ThreadNode, ModerationDecision>, n: ThreadNode) {
    n in cache && cache[n].contentListBlur
  }

  /** `likeCount || 0`. */
  function LikesOrZero(p: PostView): int {
    if p.likeCount.Some? then p.likeCount.value else 0
  }

  /** The last rule of the comparator: the user's sort policy. `coin` stands
      for `0.5 - Math.random()`, of which only the sign matters. */
  function PolicyOrder(a: PostView, b: PostView, sort: string, coin: int): int {
    if sort == "oldest" then CompareTime(a.indexedAt, b.indexedAt)
    else if sort == "newest" then CompareTime(b.indexedAt, a.indexedAt)
    else if sort == "most-likes" then
      // equal raw counts: later index time first; otherwise larger count first
      if a.likeCount == b.likeCount then CompareTime(b.indexedAt, a.indexedAt)
      else LikesOrZero(b) - LikesOrZero(a)
    else if sort == "random" then coin
    else CompareTime(b.indexedAt, a.indexedAt)
  }

  /** The comparator passed to `node.replies.sort`, for a parent post written
      by `opDid`; a negative result puts `a` first. */
  function Compare(a: ThreadNode, b: ThreadNode, opDid: string,
                   cache: map<ThreadNode, ModerationDecision>, prefs: ThreadViewPrefs, coin: int): int
  {
    if !a.Post? then 1
    else if !b.Post? then -1
    else
      var aIsByOp := a.post.author.did == opDid;
      var bIsByOp := b.post.author.did == opDid;
      // the parent author's replies go first, earlier index time first among them
      if aIsByOp && bIsByOp then CompareTime(a.post.indexedAt, b.post.indexedAt)
      else if aIsByOp then -1
      else if bIsByOp then 1
      else
        var aBlur := Blurred(cache, a);
        var bBlur := Blurred(cache, b);
        if aBlur != bBlur then (if aBlur then 1 else -1)
        else
          var af := a.post.author.following;
          var bf := b.post.author.following;
          if prefs.prioritizeFollowedUsers && af && !bf then -1
          else if prefs.prioritizeFollowedUsers && !af && bf then 1
          else PolicyOrder(a.post, b.post, prefs.sort, coin)
  }

  function Sign(x: int): int {
    if x < 0 then -1 else if x == 0 then 0 else 1
  }

  // ---------------------------------------------------------------------
  // The comparator's precedence

  /** Any post sorts before any other kind of node; among two non-posts the
      comparator answers 1 both ways, so it is not an order there. */
  lemma PostsBeforeOtherNodes(a: ThreadNode, b: ThreadNode, opDid: string,
                              cache: map<ThreadNode, ModerationDecision>, prefs: ThreadViewPrefs, coin: int)
    ensures a.Post? && !b.Post? ==>
      Compare(a, b, opDid, cache, prefs, coin) < 0 && Compare(b, a, opDid, cache, prefs, coin) > 0
    ensures !a.Post? && !b.Post? ==>
      Compare(a, b, opDid, cache, prefs, coin) == 1 && Compare(b, a, opDid, cache, prefs, coin) == 1
  {
  }

  /** The parent author's own replies come first, and among themselves
      oldest first, whatever the policy. */
  lemma AuthorRepliesFirst(a: ThreadNode, b: ThreadNode, opDid: string,
                           cache: map<ThreadNode, ModerationDecision>, prefs: ThreadViewPrefs, coin: int)
    requires a.Post? && b.Post? && a.post.author.did == opDid
    ensures b.post.author.did != opDid ==>
      Compare(a, b, opDid, cache, prefs, coin) < 0 && Compare(b, a, opDid, cache, prefs, coin) > 0
    ensures b.post.author.did == opDid ==>
      && (Compare(a, b, opDid, cache, prefs, coin) < 0 <==> a.post.indexedAt < b.post.indexedAt)
      && Sign(Compare(a, b, opDid, cache, prefs, coin)) == -Sign(Compare(b, a, opDid, cache, prefs, coin))
  {
  }

  /** Among other authors' replies, an unblurred one comes before a blurred one. */
  lemma UnblurredFirst(a: ThreadNode, b: ThreadNode, opDid: string,
                       cache: map<ThreadNode, ModerationDecision>, prefs: ThreadViewPrefs, coin: int)
    requires a.Post? && b.Post? && a.post.author.did != opDid && b.post.author.did != opDid
    requires !Blurred(cache, a) && Blurred(cache, b)
    ensures Compare(a, b, opDid, cache, prefs, coin) < 0 && Compare(b, a, opDid, cache, prefs, coin) > 0
  {
  }

  /** Then, only when the preference is set, a followed author comes first;
      otherwise following plays no part. */
  lemma FollowedFirst(a: ThreadNode, b: ThreadNode, opDid: string,
                      cache: map<ThreadNode, ModerationDecision>, prefs: ThreadViewPrefs, coin: int)
    requires a.Post? && b.Post? && a.post.author.did != opDid && b.post.author.did != opDid
    requires Blurred(cache, a) == Blurred(cache, b)
    ensures prefs.prioritizeFollowedUsers && a.post.author.following && !b.post.author.following ==>
      Compare(a, b, opDid, cache, prefs, coin) < 0 && Compare(b, a, opDid, cache, prefs, coin) > 0
    ensures !prefs.prioritizeFollowedUsers || a.post.author.following == b.post.author.following ==>
      Compare(a, b, opDid, cache, prefs, coin) == PolicyOrder(a.post, b.post, prefs.sort, coin)
  {
  }

  /** The policy: `oldest` ascending by index time, `newest` and any unknown
      value descending, `most-likes` by like count descending with a missing
      count taken as 0, and exactly equal raw like counts newest first. */
  lemma PolicyOrderMeaning(a: PostView, b: PostView, sort: string, coin: int)
    ensures sort == "oldest" ==> (PolicyOrder(a, b, sort, coin) < 0 <==> a.indexedAt < b.indexedAt)
    ensures sort != "oldest" && sort != "most-likes" && sort != "random" ==>
      (PolicyOrder(a, b, sort, coin) < 0 <==> a.indexedAt > b.indexedAt)
    ensures sort == "most-likes" && a.likeCount == b.likeCount ==>
      (PolicyOrder(a, b, sort, coin) < 0 <==> a.indexedAt > b.indexedAt)
    ensures sort == "most-likes" && a.likeCount != b.likeCount ==>
      (PolicyOrder(a, b, sort, coin) < 0 <==> LikesOrZero(a) > LikesOrZero(b))
    ensures sort == "random" ==> PolicyOrder(a, b, sort, coin) == coin
  {
  }

  /** For every policy but `random`, the comparator is antisymmetric on posts. */
  lemma CompareAntisymmetric(a: ThreadNode, b: ThreadNode, opDid: string,
                             cache: map<ThreadNode, ModerationDecision>, prefs: ThreadViewPrefs, coin: int)
    requires a.Post? && b.Post? && prefs.sort != "random"
    ensures Sign(Compare(a, b, opDid, cache, prefs, coin)) == -Sign(Compare(b, a, opDid, cache, prefs, coin))
  {
  }

  // ---------------------------------------------------------------------
  // The rank the comparator always respects

  /** The layers the comparator decides before the policy: 0 for the parent
      author's replies, then unblurred before blurred replies, each split
      into followed and other authors when followed users are prioritized,
      and 5 for nodes that are not posts. */
  function Rank(n: ThreadNode, opDid: string, cache: map<ThreadNode, ModerationDecision>, prefs: ThreadViewPrefs): nat {
    if !n.Post? then 5
    else if n.post.author.did == opDid then 0
    else
      (if Blurred(cache, n) then 2 else 0)
      + (if prefs.prioritizeFollowedUsers && n.post.author.following then 1 else 2)
  }

  /** A lower rank always sorts first, whatever the random draw. */
  lemma RankRespected(a: ThreadNode, b: ThreadNode, opDid: string,
                      cache: map<ThreadNode, ModerationDecision>, prefs: ThreadViewPrefs, coin: int)
    requires Rank(a, opDid, cache, prefs) < Rank(b, opDid, cache, prefs)
    ensures Compare(a, b, opDid, cache, prefs, coin) < 0
    ensures Compare(b, a, opDid, cache, prefs, coin) > 0
  {
  }

  ghost predicate SortedByRank(s: seq<ThreadNode>, opDid: string,
                               cache: map<ThreadNode, ModerationDecision>, prefs: ThreadViewPrefs) {
    forall p, q :: 0 <= p < q < |s| ==> Rank(s[p], opDid, cache, prefs) <= Rank(s[q], opDid, cache, prefs)
  }


  // ---------------------------------------------------------------------
  // The order the comparator is, when it is one

  /** Every post among `s` carries its like count, as the normalizer sets it. */
  predicate LikesSet(s: seq<ThreadNode>) {
    forall k :: 0 <= k < |s| && s[k].Post? ==> s[k].post.likeCount.Some?
  }

  /** The policy decides without draws, and the like counts it reads are
      present: any policy but `random`, with every post of `s` carrying a
      like count when it is `most-likes`. */
  predicate ConsistentPolicy(prefs: ThreadViewPrefs, s: seq<ThreadNode>) {
    prefs.sort != "random" && (prefs.sort == "most-likes" ==> LikesSet(s))
  }

  /** The policy's part of a sort key: earlier first, more likes and then
      later first, or later first. */
  function PolicyKey(p: PostView, sort: string): (int, int) {
    if sort == "oldest" then (p.indexedAt, 0)
    else if sort == "most-likes" then (-LikesOrZero(p), -p.indexedAt)
    else (-p.indexedAt, 0)
  }

  /** The key of a post: the parent author's replies by index time, then the
      other replies by rank and policy. */
  function SortKey(n: ThreadNode, opDid: string, cache: map<ThreadNode, ModerationDecision>,
                   prefs: ThreadViewPrefs): (int, int, int)
    requires n.Post?
  {
    if n.post.author.did == opDid then (0, n.post.indexedAt, 0)
    else
      var k := PolicyKey(n.post, prefs.sort);
      (Rank(n, opDid, cache, prefs), k.0, k.1)
  }

  /** Lexicographic order on keys. */
  predicate KeyLe(x: (int, int, int), y: (int, int, int)) {
    x.0 < y.0 || (x.0 == y.0 && (x.1 < y.1 || (x.1 == y.1 && x.2 <= y.2)))
  }

  /** Only the `random` policy reads the draw. */
  lemma CompareIgnoresCoin(a: ThreadNode, b: ThreadNode, opDid: string,
                           cache: map<ThreadNode, ModerationDecision>, prefs: ThreadViewPrefs, c1: int, c2: int)
    requires prefs.sort != "random"
    ensures Compare(a, b, opDid, cache, prefs, c1) == Compare(a, b, opDid, cache, prefs, c2)
  {
  }

  /** For every policy but `random`, on posts whose like counts are set
      when the policy is `most-likes`, the comparator puts `a` no later than
      `b` exactly when `a`'s key is no greater: it is the lexicographic
      order of `SortKey`. */
  lemma CompareByKey(a: ThreadNode, b: ThreadNode, opDid: string,
                     cache: map<ThreadNode, ModerationDecision>, prefs: ThreadViewPrefs, coin: int)
    requires a.Post? && b.Post? && prefs.sort != "random"
    requires prefs.sort == "most-likes" ==> a.post.likeCount.Some? && b.post.likeCount.Some?
    ensures Compare(a, b, opDid, cache, prefs, coin) <= 0 <==>
            KeyLe(SortKey(a, opDid, cache, prefs), SortKey(b, opDid, cache, prefs))
  {
    var ra, rb := Rank(a, opDid, cache, prefs), Rank(b, opDid, cache, prefs);
    if ra != rb {
      if ra < rb {
        RankRespected(a, b, opDid, cache, prefs, coin);
      } else {
        RankRespected(b, a, opDid, cache, prefs, coin);
      }
    }
  }

  /** Hence the comparator is then transitive. */
  lemma CompareTransitive(a: ThreadNode, b: ThreadNode, c: ThreadNode, opDid: string,
                          cache: map<ThreadNode, ModerationDecision>, prefs: ThreadViewPrefs, coin: int)
    requires a.Post? && b.Post? && c.Post?
    requires prefs.sort != "random"
    requires prefs.sort == "most-likes" ==>
               a.post.likeCount.Some? && b.post.likeCount.Some? && c.post.likeCount.Some?
    requires Compare(a, b, opDid, cache, prefs, coin) <= 0 && Compare(b, c, opDid, cache, prefs, coin) <= 0
    ensures Compare(a, c, opDid, cache, prefs, coin) <= 0
  {
    CompareByKey(a, b, opDid, cache, prefs, coin);
    CompareByKey(b, c, opDid, cache, prefs, coin);
    CompareByKey(a, c, opDid, cache, prefs, coin);
  }

  /** Every post of `s` is put no later than every post after it. */
  ghost predicate SortedByCompare(s: seq<ThreadNode>, opDid: string,
                                  cache: map<ThreadNode, ModerationDecision>, prefs: ThreadViewPrefs) {
    forall p, q, coin :: 0 <= p < q < |s| && s[p].Post? && s[q].Post? ==>
      Compare(s[p], s[q], opDid, cache, prefs, coin) <= 0
  }

  /** What a reply list sorted by the comparator looks like: the parent
      author's replies oldest first ahead of the others, and among other
      replies of one rank the policy's order. */
  lemma SortedFollowsPolicy(s: seq<ThreadNode>, opDid: string,
                            cache: map<ThreadNode, ModerationDecision>, prefs: ThreadViewPrefs, p: int, q: int)
    requires SortedByCompare(s, opDid, cache, prefs) && 0 <= p < q < |s| && s[p].Post? && s[q].Post?
    ensures s[q].post.author.did == opDid ==>
      s[p].post.author.did == opDid && s[p].post.indexedAt <= s[q].post.indexedAt
    ensures s[p].post.author.did != opDid && Rank(s[p], opDid, cache, prefs) == Rank(s[q], opDid, cache, prefs) ==>
      && (prefs.sort == "oldest" ==> s[p].post.indexedAt <= s[q].post.indexedAt)
      && (prefs.sort == "newest" ==> s[p].post.indexedAt >= s[q].post.indexedAt)
      && (prefs.sort == "most-likes" ==> LikesOrZero(s[p].post) >= LikesOrZero(s[q].post))
      && (prefs.sort == "most-likes" && s[p].post.likeCount == s[q].post.likeCount ==>
            s[p].post.indexedAt >= s[q].post.indexedAt)
  {
    assert Compare(s[p], s[q], opDid, cache, prefs, 0) <= 0;
  }

  // ---------------------------------------------------------------------
  // Sorting one reply list in place

  /** `replies.sort(comparator)` for the replies of a post by `opDid`. The
      result is in rank order for any random draws; for every other policy
      it is in the comparator's order, provided under `most-likes` that the
      like counts are set. */
  method SortReplies(a: array<ThreadNode>, opDid: string,
                     cache: map<ThreadNode, ModerationDecision>, prefs: ThreadViewPrefs)
    modifies a
    ensures multiset(a[..]) == multiset(old(a[..]))
    ensures SortedByRank(a[..], opDid, cache, prefs)
    ensures ConsistentPolicy(prefs, old(a[..])) ==> SortedByCompare(a[..], opDid, cache, prefs)
  {
    var cmp := (x: ThreadNode, y: ThreadNode, coin: int) => Compare(x, y, opDid, cache, prefs, coin);
    var rank := (x: ThreadNode) => Rank(x, opDid, cache, prefs);
    ghost var ok := (x: ThreadNode) =>
      prefs.sort != "random" && x.Post? && (prefs.sort == "most-likes" ==> x.post.likeCount.Some?);
    ghost var le := (x: ThreadNode, y: ThreadNode) => Compare(x, y, opDid, cache, prefs, 0) <= 0;
    forall x: ThreadNode, y: ThreadNode, coin: int | rank(x) < rank(y)
      ensures cmp(x, y, coin) < 0 && cmp(y, x, coin) > 0
    {
      RankRespected(x, y, opDid, cache, prefs, coin);
    }
    forall x: ThreadNode, y: ThreadNode, coin: int | ok(x) && ok(y)
      ensures cmp(x, y, coin) <= 0 ==> le(x, y)
      ensures cmp(x, y, coin) > 0 ==> le(y, x)
    {
      CompareIgnoresCoin(x, y, opDid, cache, prefs, coin, 0);
      CompareAntisymmetric(x, y, opDid, cache, prefs, 0);
    }
    forall x: ThreadNode, y: ThreadNode, z: ThreadNode | ok(x) && ok(y) && ok(z) && le(x, y) && le(y, z)
      ensures le(x, z)
    {
      CompareTransitive(x, y, z, opDid, cache, prefs, 0);
    }
    ghost var before := a[..];
    InsertionSort(a, cmp, rank, ok, le);
    if ConsistentPolicy(prefs, before) {
      assert Separated(before, ok, rank);
      if prefs.sort == "most-likes" {
        LikesSetPerm(before, a[..]);
      }
      forall p, q, coin | 0 <= p < q < a.Length && a[p].Post? && a[q].Post?
        ensures Compare(a[p], a[q], opDid, cache, prefs, coin) <= 0
      {
        assert ok(a[p]) && ok(a[q]);
        CompareIgnoresCoin(a[p], a[q], opDid, cache, prefs, coin, 0);
      }
    }
  }

  lemma LikesSetPerm(s: seq<ThreadNode>, t: seq<ThreadNode>)
    requires multiset(s) == multiset(t) && LikesSet(s)
    ensures LikesSet(t)
  {
    forall k | 0 <= k < |t| && t[k].Post? ensures t[k].post.likeCount.Some? {
      assert t[k] in multiset(t);
      assert t[k] in s;
    }
  }

  /** Every element that `ok` admits ranks below every element it does not. */
  ghost predicate Separated<T>(s: seq<T>, ok: T -> bool, rank: T -> nat) {
    forall p, q :: 0 <= p < |s| && 0 <= q < |s| && ok(s[p]) && !ok(s[q]) ==> rank(s[p]) < rank(s[q])
  }

  /** The admitted elements of `s[..n]` are in the order `le`. */
  ghost predicate SortedBy<T>(s: seq<T>, ok: T -> bool, le: (T, T) -> bool, n: int) {
    n <= |s| && forall p, q :: 0 <= p < q < n && ok(s[p]) && ok(s[q]) ==> le(s[p], s[q])
  }

  lemma SeparatedPerm<T>(s: seq<T>, t: seq<T>, ok: T -> bool, rank: T -> nat)
    requires multiset(s) == multiset(t) && Separated(s, ok, rank)
    ensures Separated(t, ok, rank)
  {
    forall p, q | 0 <= p < |t| && 0 <= q < |t| && ok(t[p]) && !ok(t[q])
      ensures rank(t[p]) < rank(t[q])
    {
      assert t[p] in multiset(t) && t[q] in multiset(t);
      assert t[p] in s && t[q] in s;
    }
  }

  /** `Array.prototype.sort(compare)`, as an insertion sort by adjacent swaps.
      `compare(x, y, coin)` puts `y` first when positive; each comparison
      draws its own `coin` in -1..1, the sign of a random number. The result
      is ordered by any `rank` that `compare` respects. Where `compare` is a
      consistent order `le` on the elements `ok` admits, and those rank below
      the others, the admitted elements also come out in the order `le`. */
  method InsertionSort<T(!new)>(a: array<T>, compare: (T, T, int) -> int, rank: T -> nat,
                                ghost ok: T -> bool, ghost le: (T, T) -> bool)
    requires forall x, y, coin :: rank(x) < rank(y) ==> compare(x, y, coin) < 0
    requires forall x, y, coin :: rank(x) < rank(y) ==> compare(y, x, coin) > 0
    requires forall x, y, coin :: ok(x) && ok(y) && compare(x, y, coin) <= 0 ==> le(x, y)
    requires forall x, y, coin :: ok(x) && ok(y) && compare(x, y, coin) > 0 ==> le(y, x)
    requires forall x, y, z :: ok(x) && ok(y) && ok(z) && le(x, y) && le(y, z) ==> le(x, z)
    modifies a
    ensures multiset(a[..]) == multiset(old(a[..]))
    ensures forall p, q :: 0 <= p < q < a.Length ==> rank(a[p]) <= rank(a[q])
    ensures Separated(old(a[..]), ok, rank) ==> SortedBy(a[..], ok, le, a.Length)
  {
    ghost var sep := Separated(a[..], ok, rank);
    for i := 0 to a.Length
      invariant multiset(a[..]) == multiset(old(a[..]))
      invariant forall p, q :: 0 <= p < q < i ==> rank(a[p]) <= rank(a[q])
      invariant sep ==> Separated(a[..], ok, rank) && SortedBy(a[..], ok, le, i)
    {
      InsertLast(a, i, compare, rank, ok, le, sep);
    }
  }

  /** One pass of the insertion sort: `a[i]` moves left past every element
      that `compare` puts after it, so the ordered prefix `a[..i]` becomes
      the ordered prefix `a[..i + 1]`. */
  method InsertLast<T(!new)>(a: array<T>, i: nat, compare: (T, T, int) -> int, rank: T -> nat,
                             ghost ok: T -> bool, ghost le: (T, T) -> bool, ghost sep: bool)
    requires i < a.Length
    requires forall x, y, coin :: rank(x) < rank(y) ==> compare(x, y, coin) < 0
    requires forall x, y, coin :: rank(x) < rank(y) ==> compare(y, x, coin) > 0
    requires forall x, y, coin :: ok(x) && ok(y) && compare(x, y, coin) <= 0 ==> le(x, y)
    requires forall x, y, coin :: ok(x) && ok(y) && compare(x, y, coin) > 0 ==> le(y, x)
    requires forall x, y, z :: ok(x) && ok(y) && ok(z) && le(x, y) && le(y, z) ==> le(x, z)
    requires forall p, q :: 0 <= p < q < i ==> rank(a[p]) <= rank(a[q])
    requires sep ==> Separated(a[..], ok, rank) && SortedBy(a[..], ok, le, i)
    modifies a
    ensures multiset(a[..]) == multiset(old(a[..]))
    ensures forall p, q :: 0 <= p < q <= i ==> rank(a[p]) <= rank(a[q])
    ensures sep ==> Separated(a[..], ok, rank) && SortedBy(a[..], ok, le, i + 1)
    ensures a[i + 1..] == old(a[i + 1..])
  {
    StartPass(a[..], rank, ok, le, i, sep);
    var j := i;
    while j > 0
      invariant 0 <= j <= i
      invariant a[i + 1..] == old(a[i + 1..])
      invariant PassState(a[..], old(a[..]), rank, ok, le, i, j, sep)
    {
      var coin: int :| -1 <= coin <= 1;
      if compare(a[j - 1], a[j], coin) <= 0 {
        StopAt(a[..], old(a[..]), i, j, compare, rank, ok, le, sep, coin);
        return;
      }
      SwapDown(a, i, j, compare, rank, ok, le, sep, coin, old(a[..]));
      j := j - 1;
    }
    EndPass(a[..], old(a[..]), rank, ok, le, i, sep);
  }

  /** One step of the pass: the moving element `a[j]` trades places with its
      left neighbour, which `compare` puts after it. */
  method SwapDown<T>(a: array<T>, i: nat, j: nat, compare: (T, T, int) -> int, rank: T -> nat,
                     ghost ok: T -> bool, ghost le: (T, T) -> bool, ghost sep: bool, ghost coin: int,
                     ghost orig: seq<T>)
    requires 0 < j <= i < a.Length
    requires PassState(a[..], orig, rank, ok, le, i, j, sep) && compare(a[j - 1], a[j], coin) > 0
    requires forall x, y, coin :: rank(x) < rank(y) ==> compare(x, y, coin) < 0
    requires forall x, y, coin :: ok(x) && ok(y) && compare(x, y, coin) > 0 ==> le(y, x)
    modifies a
    ensures a[..] == old(a[..])[j - 1 := old(a[j])][j := old(a[j - 1])]
    ensures PassState(a[..], orig, rank, ok, le, i, j - 1, sep)
  {
    ghost var s := a[..];
    SwapAt(s, orig, i, j, compare, rank, ok, le, sep, coin);
    a[j - 1], a[j] := a[j], a[j - 1];
    assert a[..] == s[j - 1 := s[j]][j := s[j - 1]];
  }

  /** The state of a pass over `s[..i + 1]` with the moving element at `j`:
      `s` is a permutation of the array `orig` the pass started from, its
      elements are in rank order around the moving one and, when `sep`,
      also in the order `le`, with the admitted elements still ranked
      apart from the others. */
  ghost predicate PassState<T>(s: seq<T>, orig: seq<T>, rank: T -> nat, ok: T -> bool, le: (T, T) -> bool,
                               i: int, j: int, sep: bool) {
    && multiset(s) == multiset(orig)
    && OrderedAround(s, rank, i, j)
    && (sep ==> LeAround(s, ok, le, i, j) && Separated(s, ok, rank))
  }

  /** Before the pass the moving element is `s[i]` and nothing follows it. */
  lemma StartPass<T>(s: seq<T>, rank: T -> nat, ok: T -> bool, le: (T, T) -> bool, i: int, sep: bool)
    requires 0 <= i < |s|
    requires forall p, q :: 0 <= p < q < i ==> rank(s[p]) <= rank(s[q])
    requires sep ==> Separated(s, ok, rank) && SortedBy(s, ok, le, i)
    ensures PassState(s, s, rank, ok, le, i, i, sep)
  {
  }

  /** The pass stops at a left neighbour that `compare` puts first. */
  lemma StopAt<T>(s: seq<T>, orig: seq<T>, i: int, j: int, compare: (T, T, int) -> int, rank: T -> nat,
                  ok: T -> bool, le: (T, T) -> bool, sep: bool, coin: int)
    requires 0 < j && PassState(s, orig, rank, ok, le, i, j, sep) && compare(s[j - 1], s[j], coin) <= 0
    requires forall x, y, coin :: rank(x) < rank(y) ==> compare(y, x, coin) > 0
    requires forall x, y, coin :: ok(x) && ok(y) && compare(x, y, coin) <= 0 ==> le(x, y)
    requires forall x, y, z :: ok(x) && ok(y) && ok(z) && le(x, y) && le(y, z) ==> le(x, z)
    ensures multiset(s) == multiset(orig)
    ensures forall p, q :: 0 <= p < q <= i ==> rank(s[p]) <= rank(s[q])
    ensures sep ==> Separated(s, ok, rank) && SortedBy(s, ok, le, i + 1)
  {
    StopStep(s, rank, i, j);
    if sep {
      LeStopStep(s, ok, le, rank, i, j);
    }
  }

  /** The pass moves past a left neighbour that `compare` puts after the
      moving element. */
  lemma SwapAt<T>(s: seq<T>, orig: seq<T>, i: int, j: int, compare: (T, T, int) -> int, rank: T -> nat,
                  ok: T -> bool, le: (T, T) -> bool, sep: bool, coin: int)
    requires 0 < j && PassState(s, orig, rank, ok, le, i, j, sep) && compare(s[j - 1], s[j], coin) > 0
    requires forall x, y, coin :: rank(x) < rank(y) ==> compare(x, y, coin) < 0
    requires forall x, y, coin :: ok(x) && ok(y) && compare(x, y, coin) > 0 ==> le(y, x)
    ensures PassState(s[j - 1 := s[j]][j := s[j - 1]], orig, rank, ok, le, i, j - 1, sep)
  {
    var t := s[j - 1 := s[j]][j := s[j - 1]];
    SwapStep(s, rank, i, j);
    if sep {
      LeSwapStep(s, ok, le, i, j);
      SeparatedPerm(s, t, ok, rank);
    }
  }

  /** A pass that reaches the front leaves `s[..i + 1]` ordered. */
  lemma EndPass<T>(s: seq<T>, orig: seq<T>, rank: T -> nat, ok: T -> bool, le: (T, T) -> bool, i: int, sep: bool)
    requires PassState(s, orig, rank, ok, le, i, 0, sep)
    ensures multiset(s) == multiset(orig)
    ensures forall p, q :: 0 <= p < q <= i ==> rank(s[p]) <= rank(s[q])
    ensures sep ==> Separated(s, ok, rank) && SortedBy(s, ok, le, i + 1)
  {
  }

  /** The state of an insertion pass over `s[..i + 1]` with the moving
      element at `j`: the other elements are in rank order, and the moving
      one ranks no higher than any element after it. */
  ghost predicate OrderedAround<T>(s: seq<T>, rank: T -> nat, i: int, j: int) {
    0 <= j <= i < |s|
    && (forall p, q :: 0 <= p < q <= i && p != j && q != j ==> rank(s[p]) <= rank(s[q]))
    && (forall q :: j < q <= i ==> rank(s[j]) <= rank(s[q]))
  }

  /** The same state for the order `le` on the admitted elements. */
  ghost predicate LeAround<T>(s: seq<T>, ok: T -> bool, le: (T, T) -> bool, i: int, j: int) {
    0 <= j <= i < |s|
    && (forall p, q :: 0 <= p < q <= i && p != j && q != j && ok(s[p]) && ok(s[q]) ==> le(s[p], s[q]))
    && (ok(s[j]) ==> forall q :: j < q <= i && ok(s[q]) ==> le(s[j], s[q]))
  }

  /** Swapping the moving element with a higher-ranked left neighbour keeps
      the pass's state one position further left. */
  lemma SwapStep<T>(s: seq<T>, rank: T -> nat, i: int, j: int)
    requires 0 < j && OrderedAround(s, rank, i, j)
    requires rank(s[j]) <= rank(s[j - 1])
    ensures OrderedAround(s[j - 1 := s[j]][j := s[j - 1]], rank, i, j - 1)
    ensures multiset(s[j - 1 := s[j]][j := s[j - 1]]) == multiset(s)
  {
  }

  lemma LeSwapStep<T>(s: seq<T>, ok: T -> bool, le: (T, T) -> bool, i: int, j: int)
    requires 0 < j && LeAround(s, ok, le, i, j)
    requires ok(s[j]) && ok(s[j - 1]) ==> le(s[j], s[j - 1])
    ensures LeAround(s[j - 1 := s[j]][j := s[j - 1]], ok, le, i, j - 1)
  {
  }

  /** The pass stops at a left neighbour that ranks no higher: the whole
      of `s[..i + 1]` is then in rank order. */
  lemma StopStep<T>(s: seq<T>, rank: T -> nat, i: int, j: int)
    requires 0 < j && OrderedAround(s, rank, i, j)
    requires rank(s[j - 1]) <= rank(s[j])
    ensures forall p, q :: 0 <= p < q <= i ==> rank(s[p]) <= rank(s[q])
  {
    assert forall p :: 0 <= p < j ==> rank(s[p]) <= rank(s[j - 1]);
  }

  /** The pass stops at a left neighbour that `le` puts first, or that is
      not admitted while the moving element is not either: by transitivity
      `s[..i + 1]` is then in the order `le`. */
  lemma LeStopStep<T>(s: seq<T>, ok: T -> bool, le: (T, T) -> bool, rank: T -> nat, i: int, j: int)
    requires 0 < j && LeAround(s, ok, le, i, j) && OrderedAround(s, rank, i, j) && Separated(s, ok, rank)
    requires rank(s[j - 1]) <= rank(s[j])
    requires ok(s[j]) && ok(s[j - 1]) ==> le(s[j - 1], s[j])
    requires forall x, y, z :: ok(x) && ok(y) && ok(z) && le(x, y) && le(y, z) ==> le(x, z)
    ensures SortedBy(s, ok, le, i + 1)
  {
    if ok(s[j]) {
      assert ok(s[j - 1]);
      assert forall p :: 0 <= p < j - 1 && ok(s[p]) ==> le(s[p], s[j - 1]);
    }
  }

  // ---------------------------------------------------------------------
  // Sorting the whole thread

  /** `res` is `orig` with every post's replies permuted into sorted order
      (`SortedPermutation`) and each reply sorted in the same way; nodes that are not posts, and every
      other field, are left as they are. */
  ghost predicate SortedVersion(orig: ThreadNode, res: ThreadNode, prefs: ThreadViewPrefs,
                                cache: map<ThreadNode, ModerationDecision>)
    decreases res
  {
    if !orig.Post? then res == orig
    else
      && res.Post?
      && res.(replies := orig.replies) == orig
      && match orig.replies
         case NoReplies => res.replies.NoReplies?
         case Replies(rs) =>
           && res.replies.Replies?
           && exists perm :: SortedPermutation(perm, rs, orig.post.author.did, cache, prefs)
                 && |perm| == |res.replies.nodes|
                 && forall i :: 0 <= i < |perm| ==> SortedVersion(perm[i], res.replies.nodes[i], prefs, cache)
  }

  /** `perm` is `rs` reordered so that ranks never decrease and, for every
      policy but `random` when the like counts are set, in the comparator's
      order. */
  ghost predicate SortedPermutation(perm: seq<ThreadNode>, rs: seq<ThreadNode>, opDid: string,
                                    cache: map<ThreadNode, ModerationDecision>, prefs: ThreadViewPrefs) {
    && multiset(perm) == multiset(rs)
    && SortedByRank(perm, opDid, cache, prefs)
    && (ConsistentPolicy(prefs, rs) ==> SortedByCompare(perm, opDid, cache, prefs))
  }

  /** `sortThread(node, opts, modCache)`. */
  method SortThread(node: ThreadNode, prefs: ThreadViewPrefs, modCache: ThreadModerationCache) returns (r: ThreadNode)
    ensures SortedVersion(node, r, prefs, modCache.entries)
    decreases node, 1
  {
    if !node.Post? || node.replies.NoReplies? {
      return node;
    }
    var rs := node.replies.nodes;
    var a := new ThreadNode[|rs|](i requires 0 <= i < |rs| => rs[i]);
    assert a[..] == rs;
    SortReplies(a, node.post.author.did, modCache.entries, prefs);
    ghost var sorted := a[..];
    SortChildren(a, node, prefs, modCache);
    r := node.(replies := Replies(a[..]));
    assert SortedPermutation(sorted, rs, node.post.author.did, modCache.entries, prefs);
  }

  /** The `forEach` of `sortThread` over the sorted replies of `parent`,
      sorting each reply's own subtree. */
  method SortChildren(a: array<ThreadNode>, ghost parent: ThreadNode, prefs: ThreadViewPrefs,
                      modCache: ThreadModerationCache)
    requires parent.Post? && parent.replies.Replies?
    requires multiset(a[..]) == multiset(parent.replies.nodes)
    modifies a
    ensures forall k :: 0 <= k < a.Length ==> SortedVersion(old(a[k]), a[k], prefs, modCache.entries)
    decreases parent, 0
  {
    ghost var sorted := a[..];
    for i := 0 to a.Length
      invariant forall k :: 0 <= k < i ==> SortedVersion(sorted[k], a[k], prefs, modCache.entries)
      invariant forall k :: i <= k < a.Length ==> a[k] == sorted[k]
    {
      assert sorted[i] in multiset(parent.replies.nodes);
      var child := SortThread(a[i], prefs, modCache);
      a[i] := child;
    }
  }
}
