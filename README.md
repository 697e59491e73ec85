# Post-thread engine

This is a Dafny model of the thread engine of the social-app client, which lives in
`src/state/queries/post-thread.ts`. The engine does the following:

- It normalizes the server's nested thread response into a tree of tagged `ThreadNode`s
  (`responseToThreadNodes`).
- It heals a self-thread that the server cut short. It walks the requested post's own
  reply chain to the last loaded post and splices in the replies of one follow-up fetch
  (`findSelfThreadPrematureEnd`, `getPostThread`).
- It fills a moderation cache with one decision per post node (`fillThreadModerationCache`).
- It sorts every post's replies in place with a layered comparator, then sorts each reply
  in turn (`sortThread`).
- It searches the client's cached threads for a post or an author and builds one-node
  "placeholder" threads to show while the real thread loads (`traverseThread`, the three
  `*ToPlaceholderThread` builders, `findAllPostsInQueryData`,
  `findAllProfilesInQueryData`, `findPostInQueryData`).

The modules follow the engine's parts:

- `thread_model.dfy` holds `ThreadModel`.
  - These are value datatypes: the raw response (`RawThread`), the node tree
    (`ThreadNode`, `ThreadCtx`) and the server views.
  - It also defines `PostsOf`, the set of post nodes reachable from a node.
- `normalizer.dfy` holds `Normalizer`, the normalizer and its tree invariants.
- `self_thread.dfy` holds `SelfThread`.
  - The premature-end search is modelled as a path of reply indices into the raw tree.
  - It is proved against a reference definition: the same-author reply chain.
  - The in-place splice becomes a rebuilt tree.
- `moderation_cache.dfy` holds `ModerationCache`.
  - The cache is a class whose `entries` map the filler updates.
  - It states which decisions filling adds.
- `thread_sort.dfy` holds `ThreadSort`.
  - It contains the comparator and the precedence of its rules.
  - The in-place array sort is an insertion sort.
  - The recursive thread sort is specified by `SortedVersion`.
- `cache_search.dfy` holds `CacheSearch`: the walk, the placeholders and the three searches.

Collaborators that are not part of this model become parameters of function type:

- `moderatePost`;
- `didOrHandleUriMatches`;
- `getEmbeddedPost`;
- `embedViewRecordToPostView`.

The record schema check `isRecord && validateRecord` becomes the field `PostRecord.isValid`.
The query client becomes what it hands out:

- the cached thread roots, as a sequence of `Option<ThreadNode>`;
- the feed, notification and search finders' results, as sequences.

The network becomes the first response, given as a value, and the continuation fetch,
given as a function.

Points where the code's behaviour is easy to misread, and which the model follows:

- A thread-view post whose record fails the schema check becomes an `unknown` node with an empty URI (lines 230-234, 270-272). It does not become a not-found node.
- A failed continuation request is not caught (lines 124-126). Only a continuation whose thread is
  not a thread-view post is ignored (line 127). The model has no failing request; see "Left out".
- `hasMore` reads `replyCount` from the raw thread-view node itself (line 263), not from its
  `post`, whose reply count the premature-end search uses (line 466). The model keeps the two
  counts apart: `RawThread.ThreadViewPost.replyCount` and `PostView.replyCount`.
- The comparator is not always a consistent order:
  - Two non-post nodes compare as 1 both ways.
  - Under `random` it has no fixed order.
  - Under `most-likes` a missing like count and a count of 0 tie, while two counts of 0
    go newest first, so the order is not transitive.
  - The model proves a precedence rank that every comparison respects, whatever the draws.
  - For `oldest`, `newest` and any unknown policy, on any posts, the comparator is the
    lexicographic order of a key (`ThreadSort.CompareByKey`). So is it for `most-likes` on
    posts whose like counts are set; the normalizer sets every count
    (`Normalizer.NormalizeSetsCounts`). The sorted replies are then in the comparator's order.

## Model

| member | source | states |
|---|---|---|
| ThreadModel.DepthOnly | src/state/queries/post-thread.ts:267-269 | blocked and not-found nodes carry only their depth: no highlight, no `hasMore`, no loading flags |
| ThreadModel.PostsOf | src/state/queries/post-thread.ts:136-151 | the nodes reachable through `parent` and `replies` that are posts; the node itself is included exactly when it is a post |
| Normalizer.DefaultCounts | src/state/queries/post-thread.ts:233-240 | the reply, like and repost counts become present, a missing count becoming 0 and a present one unchanged; every other field of the post is unchanged |
| Normalizer.RemoveBlocked | src/state/queries/post-thread.ts:256-258 | the kept nodes are exactly the non-blocked ones, no more than were given |
| Normalizer.KeptIndicesKept | src/state/queries/post-thread.ts:256-258 | every index an order-keeping filter keeps points at an element the filter does not reject |
| Normalizer.KeptIndicesIncrease | src/state/queries/post-thread.ts:256-258 | the kept indices are strictly increasing, so the filter keeps the order |
| Normalizer.KeptIndicesComplete | src/state/queries/post-thread.ts:256-258 | every element the filter does not reject has its index kept |
| Normalizer.KeptIndicesAgree | src/state/queries/post-thread.ts:254-258 | two filters that reject elements at the same places keep the same indices; a raw reply is dropped exactly when its normalization is blocked |
| Normalizer.RemoveBlockedKeepsOrder | src/state/queries/post-thread.ts:256-258 | the `k`-th kept node is the node at the `k`-th kept index: order and repetitions are kept |
| Normalizer.ResponseToThreadNodes | src/state/queries/post-thread.ts:225-273 | a post node exactly for a thread-view post with a valid record; blocked and not-found exactly for those raw variants, keyed and addressed by the raw node's URI; an unknown node has the empty URI; every other node carries the given depth |
| Normalizer.NormalizedPost | src/state/queries/post-thread.ts:241-265 | a post node takes its key and URI from the post; it carries the post with counts defaulted; it has a parent exactly when the raw node has one and the walk is not going down; it has replies exactly when raw replies exist and the walk is not going up; it is highlighted exactly at depth 0; `hasMore` holds exactly when going down with no replies loaded and a truthy raw reply count |
| Normalizer.NormalizedReplies | src/state/queries/post-thread.ts:252-259 | every reply node is the normalization, one level deeper and going down, of some raw reply; every raw reply that does not normalize to a blocked node is among them |
| Normalizer.NormalizedRepliesInOrder | src/state/queries/post-thread.ts:252-259 | the reply nodes are the normalized raw replies that are not blocked posts, in the raw order: the `k`-th comes from the `k`-th such raw reply |
| Normalizer.NormalizeHasNoBlockedReplies | src/state/queries/post-thread.ts:256-258 | no reply list anywhere in the normalized tree holds a blocked node |
| Normalizer.NormalizeKeepsDepths | src/state/queries/post-thread.ts:245-264 | throughout the tree: a parent is one level shallower, a reply is one level deeper, and exactly the depth-0 node is highlighted |
| Normalizer.NormalizeIsDirected | src/state/queries/post-thread.ts:245-264 | the walk never turns back: nodes reached going down have no parent, nodes reached going up have no replies, `hasMore` is only set going down, and no loading flag is set |
| Normalizer.NormalizeSetsCounts | src/state/queries/post-thread.ts:233-240 | every post node of the normalized tree has its reply, like and repost counts present |
| SelfThread.FirstReplyBy | src/state/queries/post-thread.ts:469-472 | the index of the first reply that is a thread-view post by the author, or none when there is no such reply |
| SelfThread.DescendToEnd | src/state/queries/post-thread.ts:465-478 | a found path is shorter than the level bound and leads to a post that claims replies but has none loaded |
| SelfThread.SameAuthorChain | src/state/queries/post-thread.ts:465-476 | the chain starts at the node and is at most the level bound long; every later element is a thread-view post by the author |
| SelfThread.DescendFindsFirstPrematureEnd | src/state/queries/post-thread.ts:465-478 | the downward search finds something exactly when some post of the same-author chain is a premature end, and then its path leads to the first such post of the chain |
| SelfThread.SelfThreadEnd | src/state/queries/post-thread.ts:452-479 | a found path leads, in under ten levels, to a premature end; nothing is found when some thread-view ancestor is by someone else |
| SelfThread.SelfThreadEndCharacterized | src/state/queries/post-thread.ts:452-479 | something is found exactly when every thread-view ancestor is by the author and the ten-level same-author chain has a premature end; the result is the first one |
| SelfThread.FindSelfThreadPrematureEnd | src/state/queries/post-thread.ts:452-479 | the two loops return exactly the specified end |
| SelfThread.AncestorsAreBy | src/state/queries/post-thread.ts:456-463 | the upward loop answers whether every thread-view ancestor is by the author |
| SelfThread.DescendToPrematureEnd | src/state/queries/post-thread.ts:465-478 | the bounded downward loop returns exactly the downward search's path |
| SelfThread.SpliceReplies | src/state/queries/post-thread.ts:127-128 | the node at the path has its replies replaced and nothing else about it changes; for a non-empty path the root keeps its post, parent, count and every reply off the path |
| SelfThread.NodeAtSplit | src/state/queries/post-thread.ts:465-477 | the node at a path is the node at the rest of the path from the node at any prefix |
| SelfThread.SpliceAlongPath | src/state/queries/post-thread.ts:127-128 | at every node on the way to the end, the spliced tree holds that node's own splice: each keeps its post, parent, count and every reply but the one the path goes through |
| SelfThread.SpliceLeavesOffPath | src/state/queries/post-thread.ts:127-128 | every node whose path leaves the path to the end is unchanged |
| SelfThread.GetPostThread | src/state/queries/post-thread.ts:110-134 | not a thread-view post, or no premature end: the response is unchanged. Otherwise it fetches the end's URI. A thread-view continuation has its replies spliced in at the end, and any other continuation leaves the response unchanged |
| ModerationCache.ThreadModerationCache.Set | src/state/queries/post-thread.ts:142 | the map gains or overwrites the one entry |
| ModerationCache.Decisions | src/state/queries/post-thread.ts:136-151 | the keys are exactly the reachable post nodes, each mapped to `moderate(node.post, opts)` |
| ModerationCache.FillThreadModerationCache | src/state/queries/post-thread.ts:136-151 | the cache afterwards is the old cache overridden by a decision for every post node reachable from the node |
| ModerationCache.FillReplies | src/state/queries/post-thread.ts:145-149 | the loop over the replies adds the decisions for every post node below them |
| ModerationCache.RefillChangesNothing | src/state/queries/post-thread.ts:136-151 | filling twice from the same node with the same options leaves the same cache as filling once |
| ThreadSort.PolicyOrder | src/state/queries/post-thread.ts:202-215 | the user's sort policy, the comparator's last rule; what each policy means is stated by `ThreadSort.PolicyOrderMeaning` |
| ThreadSort.Compare | src/state/queries/post-thread.ts:163-215 | the comparator; its rules and their precedence are stated by `ThreadSort.PostsBeforeOtherNodes`, `AuthorRepliesFirst`, `UnblurredFirst`, `FollowedFirst`, `RankRespected` and `CompareByKey` |
| ThreadSort.CompareTime | src/state/queries/post-thread.ts:202-205 | negative, zero or positive exactly as the first time is earlier, equal or later |
| ThreadSort.PostsBeforeOtherNodes | src/state/queries/post-thread.ts:164-169 | a post sorts before a non-post from either side; two non-posts both answer 1 |
| ThreadSort.AuthorRepliesFirst | src/state/queries/post-thread.ts:171-179 | a reply by the parent's author precedes any other from either side; two such replies go oldest first, antisymmetrically |
| ThreadSort.UnblurredFirst | src/state/queries/post-thread.ts:181-190 | among other authors' replies an unblurred one precedes a blurred one from either side |
| ThreadSort.FollowedFirst | src/state/queries/post-thread.ts:192-200 | with the preference set, a followed author precedes an unfollowed one; without it, or with equal following, the policy decides |
| ThreadSort.PolicyOrderMeaning | src/state/queries/post-thread.ts:202-215 | the policy rules: `oldest` is earlier first. `newest` and any unknown value are later first. `most-likes` with equal raw counts is later first, and otherwise more likes first with a missing count as 0. `random` follows the draw |
| ThreadSort.CompareAntisymmetric | src/state/queries/post-thread.ts:163-215 | for two posts and any policy but `random`, swapping the arguments flips the comparator's sign |
| ThreadSort.RankRespected | src/state/queries/post-thread.ts:163-200 | a lower precedence rank is sorted first from either side, whatever the random draw |
| ThreadSort.CompareIgnoresCoin | src/state/queries/post-thread.ts:202-215 | only the `random` policy reads the draw |
| ThreadSort.CompareByKey | src/state/queries/post-thread.ts:163-215 | for every policy but `random`, on posts that carry like counts when the policy is `most-likes`, the comparator puts one post no later than another exactly when its key is lexicographically no greater: parent author's replies by time first, then rank, then the policy's key |
| ThreadSort.CompareTransitive | src/state/queries/post-thread.ts:163-215 | under the same conditions the comparator is transitive |
| ThreadSort.SortedFollowsPolicy | src/state/queries/post-thread.ts:171-215 | in a list sorted by the comparator, the parent author's replies come first and oldest first. Other replies of one rank follow the policy: `oldest` ascending time, `newest` descending, `most-likes` descending likes with equal raw counts newest first |
| ThreadSort.SortReplies | src/state/queries/post-thread.ts:163-216 | the replies array ends as a permutation of itself in non-decreasing precedence rank; for every policy but `random`, provided under `most-likes` that the posts carry like counts, every post precedes the later ones in the comparator's order |
| ThreadSort.InsertionSort | src/state/queries/post-thread.ts:163 | with each comparison's own random draw, sorting permutes the array into rank order for any rank the comparator respects; where the comparator is a consistent order on some elements that rank below the rest, those come out in that order |
| ThreadSort.InsertLast | src/state/queries/post-thread.ts:163 | one insertion pass extends the ordered prefix by one element, in rank and in the consistent order, permutes the array and leaves the elements after the prefix in place |
| ThreadSort.SwapDown | src/state/queries/post-thread.ts:163 | one step of a pass swaps the moving element with its left neighbour and nothing else, keeping the pass's ordering state one position further left |
| ThreadSort.StopAt | src/state/queries/post-thread.ts:163 | a pass that stops at a neighbour the comparator puts first leaves the prefix ordered, in rank and in the consistent order |
| ThreadSort.SwapAt | src/state/queries/post-thread.ts:163 | moving past a neighbour the comparator puts after the moving element keeps the pass's ordering state and the permutation |
| ThreadSort.SortThread | src/state/queries/post-thread.ts:154-220 | non-posts and reply-less posts are unchanged. Otherwise only the replies change. They become a rank-sorted permutation of the old replies, in the comparator's order for every policy but `random` (under `most-likes`, when their like counts are set), each then sorted in the same way |
| ThreadSort.SortChildren | src/state/queries/post-thread.ts:217 | each sorted reply is replaced by its own sorted version |
| CacheSearch.Traverse | src/state/queries/post-thread.ts:369-381 | only post nodes are produced; the node itself is produced exactly when it is a post; a non-post produces nothing |
| CacheSearch.TraverseAll | src/state/queries/post-thread.ts:375-379 | only post nodes are produced |
| CacheSearch.TraverseAllContains | src/state/queries/post-thread.ts:375-379 | every post among the given nodes is produced by their walk |
| CacheSearch.TraverseVisitsPosts | src/state/queries/post-thread.ts:369-381 | the walk visits exactly the reachable post nodes, the set the moderation cache is filled for |
| CacheSearch.TraverseAllVisitsPosts | src/state/queries/post-thread.ts:375-379 | the walk of a reply list visits exactly the post nodes reachable from it |
| CacheSearch.TraverseOrder | src/state/queries/post-thread.ts:369-381 | some position holds the node, with a post parent before it and every post reply after it |
| CacheSearch.TraverseAllSplit | src/state/queries/post-thread.ts:375-379 | the walk of a reply list is the walk of a prefix followed by the walk of the rest |
| CacheSearch.TraverseAllAt | src/state/queries/post-thread.ts:375-379 | reply subtrees come in reply order: the earlier replies' walks, then reply `i`'s subtree, then the later replies' walks |
| CacheSearch.AncestorChain | src/state/queries/post-thread.ts:371-373 | the post ancestors, from the farthest down to the parent |
| CacheSearch.TraverseIsChainWalk | src/state/queries/post-thread.ts:369-381 | the walk is the ancestor chain from the farthest ancestor down, each ancestor followed by its replies' subtrees, then the node and its own replies' subtrees |
| CacheSearch.CachedNodes | src/state/queries/post-thread.ts:307-311 | only post nodes are visited across the cached threads |
| CacheSearch.CachedNodesMembers | src/state/queries/post-thread.ts:307-311 | the searches visit exactly the post nodes of the non-empty cached threads |
| CacheSearch.ThreadNodeToPlaceholderThread | src/state/queries/post-thread.ts:383-405 | a placeholder exactly for a post node. It keeps the key, URI, post and record. Its parent is loading exactly when the record is a reply, and its children exactly when the reply count is truthy |
| CacheSearch.PostViewToPlaceholderThread | src/state/queries/post-thread.ts:407-426 | a placeholder keyed by the post's URI, with the post and its record; parent loading exactly for a reply; children always loading |
| CacheSearch.EmbedViewRecordToPlaceholderThread | src/state/queries/post-thread.ts:428-447 | a placeholder keyed by the quoted URI, with the converted post view and the quoted record; parent loading exactly for a reply; children always loading |
| CacheSearch.PlaceholderIsAlone | src/state/queries/post-thread.ts:395-396 | a placeholder is a one-node thread for the walk and for the moderation cache |
| CacheSearch.ThreadPlaceholderIdempotent | src/state/queries/post-thread.ts:383-405 | making a placeholder of a placeholder changes nothing |
| CacheSearch.ItemResults | src/state/queries/post-thread.ts:312-322 | a visited node yields exactly its hits, all placeholders; when it yields two, its own placeholder comes before the quoted one |
| CacheSearch.ItemsResults | src/state/queries/post-thread.ts:311-323 | everything yielded for a walk is a placeholder |
| CacheSearch.ItemsResultsMembers | src/state/queries/post-thread.ts:311-323 | a walk yields exactly the hits of its nodes |
| CacheSearch.CacheResults | src/state/queries/post-thread.ts:304-324 | everything the thread caches yield is a placeholder |
| CacheSearch.CacheResultsMembers | src/state/queries/post-thread.ts:304-324 | the thread caches yield exactly the hits among their post nodes: a matching post's placeholder, or a matching quoted post's placeholder |
| CacheSearch.PostViewPlaceholders | src/state/queries/post-thread.ts:325-333 | one placeholder per found post, in order |
| CacheSearch.FindAllPostsInQueryData | src/state/queries/post-thread.ts:298-334 | all results are placeholders. The thread-cache results come first. The feed, then notification, then search results follow, each in order |
| CacheSearch.EmptyCachesFindNoPosts | src/state/queries/post-thread.ts:298-334 | with no cached thread and empty finders the search yields nothing |
| CacheSearch.CachedMatchesAreFound | src/state/queries/post-thread.ts:307-323 | every matching post of a cached thread, and every matching post one of them quotes, is among the results as its placeholder |
| CacheSearch.ChosenPostIsUnique | src/state/queries/post-thread.ts:275-296 | the choice among the results is determined by the results |
| CacheSearch.FindPostInQueryData | src/state/queries/post-thread.ts:275-296 | the first result with a like count, else the last post result, else nothing |
| CacheSearch.PickPost | src/state/queries/post-thread.ts:279-295 | the loop with `partial` returns the first complete post, else the last post seen, else nothing |
| CacheSearch.ItemProfiles | src/state/queries/post-thread.ts:348-355 | a visited node yields exactly its own author and its quoted post's author among those with the did, and only profiles with the did |
| CacheSearch.ItemsProfiles | src/state/queries/post-thread.ts:347-356 | every profile yielded for a walk has the did |
| CacheSearch.ItemsProfilesMembers | src/state/queries/post-thread.ts:347-356 | a walk yields exactly the matching authors of its nodes |
| CacheSearch.CacheProfiles | src/state/queries/post-thread.ts:340-357 | every profile the thread caches yield has the did |
| CacheSearch.CacheProfilesMembers | src/state/queries/post-thread.ts:340-357 | the thread caches yield exactly the authors with the did of their post nodes and of the posts those quote |
| CacheSearch.FindAllProfilesInQueryData | src/state/queries/post-thread.ts:336-367 | the thread-cache profiles come first, exactly as the thread caches yield them, all with the did; the feed, notification and search profiles follow in order |
| CacheSearch.CachedAuthorsAreFound | src/state/queries/post-thread.ts:343-357 | every cached post by the did, and every post by the did quoted by a cached post, contributes its author |

## Left out

- `usePostThreadQuery` is left out. It is a React Query hook: caching, `enabled`, and placeholder wiring. The model keeps what it calls.
- The network requests `agent.getPostThread` are left out.
  - The first response is a parameter.
  - The continuation is a function from URI to response.
  - A request that fails is not modelled. In the code that error propagates out of
    `getPostThread`.
- `findAllPostsInFeedQueryData`, `findAllPostsInNotifsQueryData` and `findAllPostsInSearchQueryData` are external cache finders, and so are their profile counterparts and `queryClient.getQueriesData`. Their results are sequence parameters.
- `moderatePost`, `didOrHandleUriMatches`, `getEmbeddedPost`, `embedViewRecordToPostView` and the record schema checks are library calls that are not part of this model. They are uninterpreted parameters or a record field.
- The `WeakMap` of the moderation cache is replaced by a map keyed by node value.
  - Weak references are not modelled.
  - The model can tell two nodes apart only when their values differ, not by identity. Every decision depends only on `node.post`, so equal nodes get equal decisions.
  - The sort looks up a post's replies before it sorts anything below them, so every node it looks up is still the value the filler stored.
- `localeCompare` is modelled as the order of an integer index time. Locale rules are not modelled.
- `Math.random` is modelled as a draw of -1, 0 or 1 per comparison. Only its sign matters to the sort.
- The JavaScript engine's own sort algorithm is left out. `Array.prototype.sort` is modelled by a stable insertion sort with adjacent swaps.
  - The permutation property holds for any algorithm.
  - The rank order, and the comparator's order where it is consistent, are proved of this algorithm.
  - Stability is not stated as a property.
- ThreadSort.SortReplies: under `random`, and under `most-likes` with a like count missing, promises only the rank order; `oldest`, `newest` and unknown policies get the comparator's order whatever the like counts. The comparator is not a consistent order there, and the outcome depends on the engine's algorithm.
- Generator laziness is not modelled: generators are sequences.
- Aliasing is not modelled: nodes are values.
  - `post.replyCount ??= 0` and its neighbours write into the response's own post object. The model makes a defaulted copy. Other holders of that object would see the change, and the model does not show this.
  - The sort and the splice change the tree in place. The model rebuilds the node, so its result is the sorted or spliced tree.
- Optional context flags (`isHighlightedPost`, `hasMore`, `isParentLoading`, `isChildLoading`) are booleans, with an absent flag as `false`.
- JavaScript numbers are modelled as unbounded integers. Floating-point rounding of counts is not modelled.
- `new AtUri(uri)` (line 302) parses the searched URI and can throw on a malformed one. The model passes the URI string to `uriMatches` and has no parse failure.
