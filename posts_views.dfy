/**
 * The state-changing post views of social_media_api/posts/views.py, over a store
 * that holds the tables they touch: posts, comments, the following relation,
 * likes and notifications. Each view is one method; the store is changed only
 * where the view writes.
 */
module PostsViews {
  import opened Wrappers
  import opened Posts

  /** What a client sends to create a post; a client-chosen `author` is ignored. */
  datatype PostDraft = PostDraft(title: string, content: string, author: Option<UserId>)

  /** What a client sends to create a comment; a client-chosen `author` is ignored. */
  datatype CommentDraft = CommentDraft(post: PostId, content: string, author: Option<UserId>)

  /** What the feed endpoint answers: 401, or the feed. */
  datatype FeedReply = FeedUnauthenticated | FeedPosts(posts: seq<Post>)

  class SocialStore {
    var posts: seq<Post>
    var comments: seq<Comment>
    var following: map<UserId, set<UserId>>
    var likes: seq<Like>
    var notifications: seq<Notification>
    var nextPostId: PostId
    var nextCommentId: CommentId

    /** Primary keys are unique and below the next one handed out; a pair is liked at most once. */
    ghost predicate Valid()
      reads this
    {
      && UniqueIds(posts)
      && (forall i :: 0 <= i < |posts| ==> posts[i].id < nextPostId)
      && (forall i, j :: 0 <= i < j < |comments| ==> comments[i].id != comments[j].id)
      && (forall i :: 0 <= i < |comments| ==> comments[i].id < nextCommentId)
      && NoDuplicates(likes)
    }

    constructor (following: map<UserId, set<UserId>>)
      ensures Valid()
      ensures this.following == following
      ensures posts == [] && comments == [] && likes == [] && notifications == []
    {
      this.following := following;
      posts, comments, likes, notifications := [], [], [], [];
      nextPostId, nextCommentId := 1, 1;
    }

    /** `user.following.all()`. */
    function FollowingOf(user: UserId): set<UserId>
      reads this
    {
      if user in following then following[user] else {}
    }

    /** GET on FeedView: 401 without a user, else the followed authors' posts, newest first. */
    function GetFeed(requester: Option<UserId>): (r: FeedReply)
      reads this
      ensures r.FeedUnauthenticated? <==> requester.None?
      ensures r.FeedPosts? ==> r.posts == Feed(posts, FollowingOf(requester.value))
      ensures r.FeedPosts? ==> NewestFirst(r.posts)
      ensures r.FeedPosts? ==> forall p :: p in r.posts <==> p in posts && p.author in FollowingOf(requester.value)
      ensures r.FeedPosts? && FollowingOf(requester.value) == {} ==> r.posts == []
    {
      match requester
      case None => FeedUnauthenticated
      case Some(u) =>
        EmptyFollowingEmptyFeed(posts);
        FeedPosts(Feed(posts, FollowingOf(u)))
    }

    /** LikePostView.post. */
    method LikePost(requester: Option<UserId>, pk: PostId) returns (reply: Reply)
      requires Valid()
      modifies this`likes, this`notifications
      ensures Valid()
      ensures requester.None? ==>
                reply == Unauthenticated && likes == old(likes) && notifications == old(notifications)
      ensures requester.Some? && FindPost(posts, pk).None? ==>
                reply == NotFound && likes == old(likes) && notifications == old(notifications)
      ensures requester.Some? && FindPost(posts, pk).Some? && Like(requester.value, pk) in old(likes) ==>
                reply == BadRequest("Already liked") && likes == old(likes) && notifications == old(notifications)
      ensures requester.Some? && FindPost(posts, pk).Some? && Like(requester.value, pk) !in old(likes) ==>
                && reply == Ok("Post liked")
                && likes == old(likes) + [Like(requester.value, pk)]
                && notifications == old(notifications) + LikeNotifications(FindPost(posts, pk).value, requester.value)
    {
      if requester.None? {
        return Unauthenticated;
      }
      var user := requester.value;
      var found := FindPost(posts, pk);
      if found.None? {
        return NotFound;
      }
      var post := found.value;
      var (table, created) := GetOrCreate(likes, Like(user, post.id));
      likes := table;
      if !created {
        return BadRequest("Already liked");
      }
      if post.author != user {
        notifications := notifications + [Notification(post.author, user, LikedVerb, post.id)];
      }
      reply := Ok("Post liked");
    }

    /** UnlikePostView.post. */
    method UnlikePost(requester: Option<UserId>, pk: PostId) returns (reply: Reply)
      requires Valid()
      modifies this`likes
      ensures Valid()
      ensures requester.None? ==> reply == Unauthenticated && likes == old(likes)
      ensures requester.Some? && FindPost(posts, pk).None? ==> reply == NotFound && likes == old(likes)
      ensures requester.Some? && FindPost(posts, pk).Some? && Like(requester.value, pk) !in old(likes) ==>
                reply == BadRequest("You have not liked this post") && likes == old(likes)
      ensures requester.Some? && FindPost(posts, pk).Some? && Like(requester.value, pk) in old(likes) ==>
                && reply == Ok("Post unliked")
                && likes == RemoveFirst(old(likes), Like(requester.value, pk))
                && |likes| == |old(likes)| - 1
                && forall m :: m in likes <==> m in old(likes) && m != Like(requester.value, pk)
    {
      if requester.None? {
        return Unauthenticated;
      }
      var user := requester.value;
      var found := FindPost(posts, pk);
      if found.None? {
        return NotFound;
      }
      var like := Like(user, found.value.id);
      if like !in likes {
        return BadRequest("You have not liked this post");
      }
      RemoveFirstRemovesPair(likes, like);
      likes := RemoveFirst(likes, like);
      reply := Ok("Post unliked");
    }

    /** PostViewSet.perform_create: the new row's author is the requester, whatever the client sent. */
    method CreatePost(requester: UserId, draft: PostDraft, now: int) returns (post: Post)
      requires Valid()
      modifies this`posts, this`nextPostId
      ensures Valid()
      ensures post.author == requester && post.title == draft.title && post.content == draft.content
      ensures post.createdAt == now
      ensures post.id == old(nextPostId) && FindPost(old(posts), post.id).None?
      ensures posts == old(posts) + [post]
    {
      post := Post(nextPostId, requester, draft.title, draft.content, now);
      posts := posts + [post];
      nextPostId := nextPostId + 1;
    }

    /**
     * CommentViewSet.perform_create. The serializer has already checked that the
     * commented post exists before this runs.
     */
    method CreateComment(requester: UserId, draft: CommentDraft, now: int) returns (comment: Comment)
      requires Valid()
      requires FindPost(posts, draft.post).Some?
      modifies this`comments, this`nextCommentId
      ensures Valid()
      ensures comment.author == requester && comment.post == draft.post && comment.content == draft.content
      ensures comment.createdAt == now && comment.id == old(nextCommentId)
      ensures comments == old(comments) + [comment]
    {
      comment := Comment(nextCommentId, draft.post, requester, draft.content, now);
      comments := comments + [comment];
      nextCommentId := nextCommentId + 1;
    }
  }

  /** The like/unlike scenario: a first like notifies the author once, a repeat is refused, unlike restores. */
  method LikeScenario()
  {
    var store := new SocialStore(map[1 := {2}]);
    var hello := store.CreatePost(2, PostDraft("Hello", "", Some(1)), 10);
    assert hello.author == 2 && FindPost(store.posts, hello.id) == Some(hello);
    var r1 := store.LikePost(Some(1), hello.id);
    assert r1 == Ok("Post liked") && r1.Status() == 200;
    assert store.likes == [Like(1, hello.id)];
    assert store.notifications == [Notification(2, 1, "liked your post", hello.id)];
    var r2 := store.LikePost(Some(1), hello.id);
    assert r2 == BadRequest("Already liked") && r2.Status() == 400;
    assert |store.notifications| == 1;
    var r3 := store.UnlikePost(Some(1), hello.id);
    assert r3 == Ok("Post unliked") && store.likes == [];
  }
}
