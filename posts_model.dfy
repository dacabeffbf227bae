/**
 * The pure part of the social API's post views (social_media_api/posts/views.py):
 * the records, the feed query, the like table operations, the author-or-read-only
 * permission and the pagination limits.
 */
module Posts {
  import opened Wrappers

  type UserId = int
  type PostId = int
  type CommentId = int

  /** A row of the post table; `createdAt` is set once, when the row is created. */
  datatype Post = Post(id: PostId, author: UserId, title: string, content: string, createdAt: int)

  /** A row of the comment table; `post` refers to the commented post. */
  datatype Comment = Comment(id: CommentId, post: PostId, author: UserId, content: string, createdAt: int)

  /** A row of the like table: `user` liked `post`. */
  datatype Like = Like(user: UserId, post: PostId)

  /** A notification row; the target is always a post here, so it is kept as its id. */
  datatype Notification = Notification(recipient: UserId, actor: UserId, verb: string, target: PostId)

  /** The replies the post views send: the detail text and the HTTP status. */
  datatype Reply =
    | Unauthenticated                 // 401: the IsAuthenticated permission class refused
    | NotFound                        // 404: get_object_or_404 found no post
    | Ok(detail: string)              // 200
    | BadRequest(detail: string)      // 400
  {
    function Status(): int {
      match this
      case Unauthenticated => 401
      case NotFound => 404
      case Ok(_) => 200
      case BadRequest(_) => 400
    }
  }

  const LikedVerb := "liked your post"

  // ---------------------------------------------------------------------------
  // Post lookup (get_object_or_404(Post, pk=pk))

  predicate UniqueIds(posts: seq<Post>) {
    forall i, j :: 0 <= i < j < |posts| ==> posts[i].id != posts[j].id
  }

  /** The post with primary key `pk`, if the table holds one. */
  function FindPost(posts: seq<Post>, pk: PostId): (r: Option<Post>)
    ensures r.Some? ==> r.value in posts && r.value.id == pk
    ensures r.None? <==> forall p :: p in posts ==> p.id != pk
  {
    if posts == [] then None
    else if posts[0].id == pk then Some(posts[0])
    else FindPost(posts[1..], pk)
  }

  /** With unique keys the lookup returns the one post carrying that key. */
  lemma {:induction false} FindPostUnique(posts: seq<Post>, p: Post)
    requires UniqueIds(posts) && p in posts
    ensures FindPost(posts, p.id) == Some(p)
  {
    if posts[0] != p {
      assert p in posts[1..];
      assert posts[0].id != p.id by {
        var k :| 1 <= k < |posts| && posts[k] == p;
      }
      FindPostUnique(posts[1..], p);
    }
  }

  // ---------------------------------------------------------------------------
  // Feed: Post.objects.filter(author__in=following).order_by('-created_at')

  /** The posts whose author is followed, in table order. */
  function FromFollowed(posts: seq<Post>, following: set<UserId>): (r: seq<Post>)
    ensures forall p :: multiset(r)[p] == if p.author in following then multiset(posts)[p] else 0
  {
    if posts == [] then []
    else
      assert posts == [posts[0]] + posts[1..];
      var rest := FromFollowed(posts[1..], following);
      if posts[0].author in following then [posts[0]] + rest else rest
  }

  /** Newest first: `createdAt` never increases along the sequence. */
  predicate NewestFirst(s: seq<Post>) {
    forall i, j :: 0 <= i < j < |s| ==> s[i].createdAt >= s[j].createdAt
  }

  /** Inserts `x` before the first post that is not newer than it. */
  function InsertByDate(x: Post, s: seq<Post>): (r: seq<Post>)
    requires NewestFirst(s)
    ensures NewestFirst(r)
    ensures multiset(r) == multiset(s) + multiset{x}
    ensures r[0] == x || (s != [] && r[0] == s[0])
  {
    if s == [] || s[0].createdAt <= x.createdAt then
      PrependNewest(x, s);
      [x] + s
    else
      assert s == [s[0]] + s[1..];
      var rest := InsertByDate(x, s[1..]);
      PrependNewest(s[0], rest);
      [s[0]] + rest
  }

  /** A post no older than the head of a newest-first list may go in front of it. */
  lemma PrependNewest(p: Post, s: seq<Post>)
    requires NewestFirst(s) && (s == [] || s[0].createdAt <= p.createdAt)
    ensures NewestFirst([p] + s)
  {
    forall i, j | 0 <= i < j < |[p] + s|
      ensures ([p] + s)[i].createdAt >= ([p] + s)[j].createdAt
    {
      if i == 0 && j > 1 {
        assert s[0].createdAt >= s[j - 1].createdAt;
      }
    }
  }

  /** Orders posts newest first; posts with equal `createdAt` keep their table order. */
  function SortNewestFirst(s: seq<Post>): (r: seq<Post>)
    ensures NewestFirst(r)
    ensures multiset(r) == multiset(s)
  {
    if s == [] then []
    else
      assert s == [s[0]] + s[1..];
      InsertByDate(s[0], SortNewestFirst(s[1..]))
  }

  /** FeedView.get_queryset: the followed authors' posts, newest first. */
  function Feed(posts: seq<Post>, following: set<UserId>): (r: seq<Post>)
    ensures NewestFirst(r)
    ensures multiset(r) == multiset(FromFollowed(posts, following))
    ensures forall p :: p in r <==> p in posts && p.author in following
  {
    var r := SortNewestFirst(FromFollowed(posts, following));
    assert forall p :: p in r <==> p in multiset(r);
    r
  }

  /** Following nobody gives an empty feed. */
  lemma EmptyFollowingEmptyFeed(posts: seq<Post>)
    ensures Feed(posts, {}) == []
  {
  }

  /** A follows B and C; B posts "Hello" at time 1, C posts "World" at time 2: the feed is World, Hello. */
  lemma FeedScenario()
    ensures var hello := Post(1, 2, "Hello", "", 1);
            var world := Post(2, 3, "World", "", 2);
            var mine := Post(3, 1, "Mine", "", 3);
            Feed([hello, world, mine], {2, 3}) == [world, hello]
  {
    var hello := Post(1, 2, "Hello", "", 1);
    var world := Post(2, 3, "World", "", 2);
    var mine := Post(3, 1, "Mine", "", 3);
    assert [hello, world, mine][1..] == [world, mine];
    assert [world, mine][1..] == [mine];
    assert FromFollowed([mine], {2, 3}) == [];
    assert FromFollowed([hello, world, mine], {2, 3}) == [hello, world];
    assert SortNewestFirst([world]) == [world];
    assert InsertByDate(hello, [world]) == [world] + InsertByDate(hello, []);
  }

  /** Every post of the feed appears as often as in the table when its author is followed. */
  lemma FeedCounts(posts: seq<Post>, following: set<UserId>, p: Post)
    ensures multiset(Feed(posts, following))[p] == if p.author in following then multiset(posts)[p] else 0
  {
  }

  // ---------------------------------------------------------------------------
  // The like table

  predicate NoDuplicates(likes: seq<Like>) {
    forall i, j :: 0 <= i < j < |likes| ==> likes[i] != likes[j]
  }

  /** Like.objects.get_or_create: the table afterwards, and whether a row was created. */
  function GetOrCreate(likes: seq<Like>, l: Like): (r: (seq<Like>, bool))
    ensures r.1 <==> l !in likes
    ensures l in r.0
    ensures forall m :: m in r.0 <==> m in likes || m == l
    ensures NoDuplicates(likes) ==> NoDuplicates(r.0)
    ensures r.1 ==> |r.0| == |likes| + 1
    ensures !r.1 ==> r.0 == likes
  {
    if l in likes then (likes, false) else (likes + [l], true)
  }

  /** A second get_or_create of the same pair finds the row and writes nothing. */
  lemma GetOrCreateTwice(likes: seq<Like>, l: Like)
    ensures GetOrCreate(GetOrCreate(likes, l).0, l) == (GetOrCreate(likes, l).0, false)
  {
  }

  /** Deletes the first row equal to `l` (filter(...).first() followed by delete()). */
  function RemoveFirst(likes: seq<Like>, l: Like): (r: seq<Like>)
    ensures multiset(r) == multiset(likes) - multiset{l}
    ensures l !in likes ==> r == likes
  {
    if likes == [] then []
    else
      assert likes == [likes[0]] + likes[1..];
      if likes[0] == l then likes[1..]
      else [likes[0]] + RemoveFirst(likes[1..], l)
  }

  /** On a table without duplicates, deleting the row of a pair removes that pair and only that pair. */
  lemma {:induction false} RemoveFirstRemovesPair(likes: seq<Like>, l: Like)
    requires NoDuplicates(likes)
    ensures var r := RemoveFirst(likes, l);
            NoDuplicates(r) && (forall m :: m in r <==> m in likes && m != l)
    ensures l in likes ==> |RemoveFirst(likes, l)| == |likes| - 1
  {
    if likes != [] {
      var tail := likes[1..];
      TailKeepsNoDuplicates(likes);
      if likes[0] != l {
        RemoveFirstRemovesPair(tail, l);
        var rest := RemoveFirst(tail, l);
        assert RemoveFirst(likes, l) == [likes[0]] + rest;
        PrependKeepsNoDuplicates(likes[0], rest);
      }
    }
  }

  lemma TailKeepsNoDuplicates(likes: seq<Like>)
    requires NoDuplicates(likes) && likes != []
    ensures NoDuplicates(likes[1..]) && likes[0] !in likes[1..]
  {
    var tail := likes[1..];
    forall i, j | 0 <= i < j < |tail| ensures tail[i] != tail[j] {
      assert tail[i] == likes[i + 1] && tail[j] == likes[j + 1];
    }
    forall k | 0 <= k < |tail| ensures tail[k] != likes[0] {
      assert tail[k] == likes[k + 1];
    }
  }

  lemma PrependKeepsNoDuplicates(x: Like, s: seq<Like>)
    requires NoDuplicates(s) && x !in s
    ensures NoDuplicates([x] + s)
  {
    var t := [x] + s;
    forall i, j | 0 <= i < j < |t| ensures t[i] != t[j] {
      assert t[j] == s[j - 1];
      if i > 0 { assert t[i] == s[i - 1]; }
    }
  }

  /** Unliking right after a fresh like restores the table exactly. */
  lemma {:induction false} LikeThenUnlike(likes: seq<Like>, l: Like)
    requires l !in likes
    ensures RemoveFirst(likes + [l], l) == likes
  {
    if likes != [] {
      assert (likes + [l])[1..] == likes[1..] + [l];
      LikeThenUnlike(likes[1..], l);
    }
  }

  /** The notifications a fresh like by `actor` of `post` creates: one for the author, none on a self-like. */
  function LikeNotifications(post: Post, actor: UserId): (r: seq<Notification>)
    ensures |r| <= 1
    ensures r == [] <==> post.author == actor
    ensures forall n :: n in r ==> n.recipient == post.author && n.recipient != actor
    ensures forall n :: n in r ==> n.actor == actor && n.verb == LikedVerb && n.target == post.id
  {
    if post.author != actor then [Notification(post.author, actor, LikedVerb, post.id)] else []
  }

  // ---------------------------------------------------------------------------
  // IsAuthorOrReadOnly and the IsAuthenticated class in front of it

  /** permissions.SAFE_METHODS. */
  const SafeMethods: seq<string> := ["GET", "HEAD", "OPTIONS"]

  /** IsAuthorOrReadOnly.has_object_permission. */
  predicate HasObjectPermission(requestMethod: string, requester: UserId, objAuthor: UserId) {
    requestMethod in SafeMethods || objAuthor == requester
  }

  datatype Access = Denied401 | Denied403 | Allowed

  /** The object-level decision of the post and comment view sets: authentication first, then authorship. */
  function ObjectAccess(requester: Option<UserId>, requestMethod: string, objAuthor: UserId): (a: Access)
    ensures a == Denied401 <==> requester.None?
    ensures requester.Some? && requestMethod in ["GET", "HEAD", "OPTIONS"] ==> a == Allowed
    ensures requester.Some? && requestMethod !in ["GET", "HEAD", "OPTIONS"] ==>
              (a == Allowed <==> objAuthor == requester.value)
  {
    match requester
    case None => Denied401
    case Some(u) => if HasObjectPermission(requestMethod, u, objAuthor) then Allowed else Denied403
  }

  /** A request that is not GET, HEAD or OPTIONS reaches an object only when it comes from its author. */
  lemma OnlyAuthorMutates(requester: Option<UserId>, requestMethod: string, objAuthor: UserId)
    requires requestMethod in ["POST", "PUT", "PATCH", "DELETE"]
    ensures ObjectAccess(requester, requestMethod, objAuthor) == Allowed <==> requester == Some(objAuthor)
  {
  }

  // ---------------------------------------------------------------------------
  // StandardResultsSetPagination

  const PageSize: nat := 10
  const MaxPageSize: nat := 50

  /**
   * The page size a request gets: the `page_size` query parameter, read as an
   * integer (None when absent or not an integer), capped at MaxPageSize; a
   * missing, zero or negative value falls back to PageSize.
   */
  function EffectivePageSize(requested: Option<int>): (n: nat)
    ensures 1 <= n <= MaxPageSize
    ensures requested.None? ==> n == PageSize
    ensures requested.Some? && requested.value <= 0 ==> n == PageSize
    ensures requested.Some? && 0 < requested.value ==>
              n == if requested.value < MaxPageSize then requested.value else MaxPageSize
  {
    match requested
    case Some(k) =>
      if k > 0 then (if k < MaxPageSize then k else MaxPageSize) else PageSize
    case None => PageSize
  }

  /** The `page` query parameter: absent, the word "last", an integer, or anything else. */
  datatype PageParam = NoPage | LastPage | PageNumber(n: int) | NotAPage

  /** The number of pages of `count` items; an empty list still has one (empty) page. */
  function PageCount(count: nat, size: nat): (k: nat)
    requires size > 0
    ensures k >= 1
    ensures (k - 1) * size < count <= k * size || (count == 0 && k == 1)
  {
    if count <= size then 1 else 1 + PageCount(count - size, size)
  }

  /** The index of the first item of page `n` (pages are numbered from 1). */
  function FirstIndex(n: int, size: nat): int {
    (n - 1) * size
  }

  /** A page that exists starts within the list, and the last page runs to its end. */
  lemma PageStart(count: nat, size: nat, n: int)
    requires size > 0 && 1 <= n <= PageCount(count, size)
    ensures 0 <= FirstIndex(n, size) <= count
    ensures n == PageCount(count, size) ==> count <= FirstIndex(n, size) + size
  {
    var pages := PageCount(count, size);
    assert (n - 1) * size <= (pages - 1) * size by {
      assert (pages - 1) * size - (n - 1) * size == (pages - n) * size;
    }
  }

  /** The items of the requested page, or None for the 404 ("Invalid page.") the paginator raises. */
  function PageOf<T>(items: seq<T>, size: nat, param: PageParam): (r: Option<seq<T>>)
    requires size > 0
    ensures param.NotAPage? ==> r.None?
    ensures param.PageNumber? ==> (r.Some? <==> 1 <= param.n <= PageCount(|items|, size))
    ensures param.PageNumber? && r.Some? ==>
              var lo := FirstIndex(param.n, size);
              0 <= lo <= |items| && r.value == items[lo..if lo + size < |items| then lo + size else |items|]
    ensures param.NoPage? ==> r == Some(items[..if size < |items| then size else |items|])
    ensures param.LastPage? ==>
              var lo := FirstIndex(PageCount(|items|, size), size);
              0 <= lo <= |items| && r == Some(items[lo..])
    ensures r.Some? ==> |r.value| <= size
  {
    var pages := PageCount(|items|, size);
    match param
    case NotAPage => None
    case NoPage => Some(items[..if size < |items| then size else |items|])
    case LastPage =>
      PageStart(|items|, size, pages);
      Some(items[FirstIndex(pages, size)..])
    case PageNumber(n) =>
      if 1 <= n <= pages then
        PageStart(|items|, size, n);
        var lo := FirstIndex(n, size);
        Some(items[lo..if lo + size < |items| then lo + size else |items|])
      else None
  }

  /** A page whose first index is within the list exists. */
  lemma {:induction false} PageCountCovers(count: nat, size: nat, q: nat)
    requires size > 0 && q * size < count
    ensures q + 1 <= PageCount(count, size)
    decreases q
  {
    if q > 0 {
      assert q * size == (q - 1) * size + size;
      PageCountCovers(count - size, size, q - 1);
    }
  }

  /** Every item lies on the page its index names, at its offset within that page. */
  lemma PageHoldsItem<T>(items: seq<T>, size: nat, i: nat)
    requires size > 0 && i < |items|
    ensures var page := PageOf(items, size, PageNumber(i / size + 1));
            page.Some? && i % size < |page.value| && page.value[i % size] == items[i]
  {
    var n := i / size + 1;
    assert FirstIndex(n, size) + i % size == i;
    assert 1 <= n <= PageCount(|items|, size) by {
      PageCountCovers(|items|, size, i / size);
    }
  }
}
