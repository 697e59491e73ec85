/**
 * The node model of the post-thread engine (src/state/queries/post-thread.ts):
 * the server's views of posts and authors, the raw nested thread response,
 * and the uniform tagged `ThreadNode` tree the engine produces from it.
 */
module ThreadModel {
  import opened Wrappers

  /** An author (`AppBskyActorDefs.ProfileView`); `following` says whether
      `viewer.following` is set, i.e. the viewer follows this author. */
  datatype ProfileView = ProfileView(did: string, handle: string, following: bool)

  /** A decoded post record (`AppBskyFeedPost.Record`). `hasReply` says whether
      `record.reply` is present; `isValid` is the outcome of the schema checks
      `isRecord(record) && validateRecord(record).success`. */
  datatype PostRecord = PostRecord(text: string, hasReply: bool, isValid: bool)

  /** A post as the server shows it (`AppBskyFeedDefs.PostView`). The three
      engagement counters may be missing. `indexedAt` is the server's index
      time; its ISO-8601 string is modelled by an integer with the same order. */
  datatype PostView = PostView(
    uri: string,
    author: ProfileView,
    record: PostRecord,
    indexedAt: int,
    replyCount: Option<int>,
    likeCount: Option<int>,
    repostCount: Option<int>)

  /** A quoted post inside an embed (`AppBskyEmbedRecord.ViewRecord`). */
  datatype ViewRecord = ViewRecord(uri: string, author: ProfileView, value: PostRecord)

  /** JavaScript truthiness of an optional count: present and not zero. */
  predicate Truthy(count: Option<int>) {
    count.Some? && count.value != 0
  }

  /** The raw nested thread response (`ThreadViewNode`): a thread-view post,
      a blocked post, a not-found post, or a shape the client does not know.
      A missing `replies` array is the empty sequence. `replyCount` is a
      count carried by the thread-view node itself (not by its `post`). */
  datatype RawThread =
    | ThreadViewPost(post: PostView, parent: Option<RawThread>, replies: seq<RawThread>, replyCount: Option<int>)
    | BlockedPost(uri: string)
    | NotFoundPost(uri: string)
    | UnknownShape

  /** Per-node display context (`ThreadCtx`); an absent flag is `false`. */
  datatype ThreadCtx = ThreadCtx(
    depth: int,
    isHighlightedPost: bool,
    hasMore: bool,
    isParentLoading: bool,
    isChildLoading: bool)

  /** The context `{depth}` given to blocked and not-found nodes. */
  function DepthOnly(depth: int): (c: ThreadCtx)
    ensures c.depth == depth && !c.isHighlightedPost && !c.hasMore
    ensures !c.isParentLoading && !c.isChildLoading
  {
    ThreadCtx(depth, false, false, false, false)
  }

  /** The tagged thread node (`ThreadNode`). */
  datatype ThreadNode =
    | Post(reactKey: string, uri: string, post: PostView, record: PostRecord,
           parent: Option<ThreadNode>, replies: ReplyList, ctx: ThreadCtx)
    | NotFound(reactKey: string, uri: string, ctx: ThreadCtx)
    | Blocked(reactKey: string, uri: string, ctx: ThreadCtx)
    | Unknown(uri: string)

  /** The optional `replies` array of a post node: `undefined` or a list. */
  datatype ReplyList = NoReplies | Replies(nodes: seq<ThreadNode>)

  /** A moderation decision, reduced to the one signal the engine reads:
      `ui('contentList').blur`. */
  datatype ModerationDecision = ModerationDecision(contentListBlur: bool)

  /** Every post node reachable from `n` through `parent` and `replies` links,
      `n` included when it is a post. */
  function PostsOf(n: ThreadNode): (s: set<ThreadNode>)
    ensures forall x :: x in s ==> x.Post?
    ensures n.Post? <==> n in s
  {
    match n
    case Post(_, _, _, _, parent, replies, _) =>
      {n}
      + (if parent.Some? then PostsOf(parent.value) else {})
      + (if replies.Replies? then PostsOfAll(replies.nodes) else {})
    case _ => {}
  }

  function PostsOfAll(ns: seq<ThreadNode>): (s: set<ThreadNode>)
    ensures forall x :: x in s ==> x.Post?
    ensures forall i :: 0 <= i < |ns| && ns[i].Post? ==> ns[i] in s
  {
    if ns == [] then {} else PostsOf(ns[0]) + PostsOfAll(ns[1..])
  }
}
