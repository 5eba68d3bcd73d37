/** Joining the fetched comments with the fetched posts: every comment gets
    the title of its post, or "Unknown Post". The two HTTP requests are not
    modelled; their outcomes are inputs, `None` standing for a request or a
    parse that failed. */
module FetchComments {
  import opened Wrappers
  import opened Records

  const UnknownPost: string := "Unknown Post"

  /** The post-id to title lookup after the posts were written into it one by
      one, in list order: a later post overwrites an earlier one with the same id. */
  function PostMap(posts: seq<Post>): map<int, string>
  {
    if posts == [] then map[]
    else
      var last := posts[|posts| - 1];
      PostMap(posts[..|posts| - 1])[last.id := last.title]
  }

  /** `posts[j]` is the last post in the list with id `id`. */
  ghost predicate IsLastWithId(posts: seq<Post>, j: int, id: int) {
    0 <= j < |posts| && posts[j].id == id &&
    forall k :: j < k < |posts| ==> posts[k].id != id
  }

  /** The `forEach` that fills `postMap`. */
  method BuildPostMap(posts: seq<Post>) returns (postMap: map<int, string>)
    ensures postMap == PostMap(posts)
  {
    postMap := map[];
    var i := 0;
    while i < |posts|
      invariant 0 <= i <= |posts|
      invariant postMap == PostMap(posts[..i])
    {
      assert posts[..i + 1][..i] == posts[..i];
      postMap := postMap[posts[i].id := posts[i].title];
      i := i + 1;
    }
    assert posts[..|posts|] == posts;
  }

  /** An id is in the lookup exactly when some post carries it. */
  lemma {:induction false} PostMapKeys(posts: seq<Post>, id: int)
    ensures id in PostMap(posts) <==> exists j :: 0 <= j < |posts| && posts[j].id == id
  {
    if posts != [] {
      var n := |posts| - 1;
      var prefix := posts[..n];
      PostMapKeys(prefix, id);
      if id in PostMap(prefix) {
        var j :| 0 <= j < |prefix| && prefix[j].id == id;
        assert posts[j].id == id;
      }
      if exists j :: 0 <= j < |posts| && posts[j].id == id {
        var j :| 0 <= j < |posts| && posts[j].id == id;
        if j < n {
          assert prefix[j].id == id;
        }
      }
    }
  }

  /** When ids repeat, the last post with that id supplies the title. */
  lemma {:induction false} PostMapLastWins(posts: seq<Post>, j: int, id: int)
    requires IsLastWithId(posts, j, id)
    ensures id in PostMap(posts) && PostMap(posts)[id] == posts[j].title
  {
    var n := |posts| - 1;
    if j < n {
      var prefix := posts[..n];
      assert IsLastWithId(prefix, j, id);
      PostMapLastWins(prefix, j, id);
      assert posts[n].id != id;
    }
  }

  /** `postMap[postId] || "Unknown Post"`: a missing or empty title falls back. */
  function PostTitle(postMap: map<int, string>, postId: int): (t: string)
    ensures t != ""
  {
    if postId in postMap && postMap[postId] != "" then postMap[postId] else UnknownPost
  }

  /** A comment whose post id no post carries is titled "Unknown Post". */
  lemma TitleWhenNoPost(posts: seq<Post>, postId: int)
    requires forall j :: 0 <= j < |posts| ==> posts[j].id != postId
    ensures PostTitle(PostMap(posts), postId) == UnknownPost
  {
    PostMapKeys(posts, postId);
  }

  /** A comment whose post id is carried by `posts[j]`, the last post with
      that id, gets that post's title, or "Unknown Post" when it is empty. */
  lemma TitleFromLastPost(posts: seq<Post>, j: int, postId: int)
    requires IsLastWithId(posts, j, postId)
    ensures PostTitle(PostMap(posts), postId) == (if posts[j].title == "" then UnknownPost else posts[j].title)
  {
    PostMapLastWins(posts, j, postId);
  }

  /** The row carries every field of the comment unchanged. */
  predicate Carries(r: Record, c: Comment) {
    r.id == c.id && r.postId == c.postId && r.name == c.name && r.email == c.email && r.body == c.body
  }

  /** `{ ...comment, postTitle: ... }` */
  function WithTitle(c: Comment, postMap: map<int, string>): Record {
    Record(c.id, c.postId, c.name, c.email, c.body, PostTitle(postMap, c.postId))
  }

  /** `comments.map(...)`: one row per comment, in the same order. */
  function Join(comments: seq<Comment>, postMap: map<int, string>): (rows: seq<Record>)
    ensures |rows| == |comments|
    ensures forall i :: 0 <= i < |comments| ==>
              Carries(rows[i], comments[i]) && rows[i].postTitle == PostTitle(postMap, comments[i].postId)
    ensures forall i :: 0 <= i < |rows| ==> rows[i].postTitle != ""
  {
    if comments == [] then [] else [WithTitle(comments[0], postMap)] + Join(comments[1..], postMap)
  }

  /** `fetchCommentsWithPostTitles`: the joined rows when both fetches
      succeeded, the empty list when either failed. */
  method FetchCommentsWithPostTitles(commentsRes: Option<seq<Comment>>, postsRes: Option<seq<Post>>)
    returns (merged: seq<Record>)
    ensures commentsRes.None? || postsRes.None? ==> merged == []
    ensures commentsRes.Some? && postsRes.Some? ==>
              |merged| == |commentsRes.value| &&
              forall i :: 0 <= i < |merged| ==>
                Carries(merged[i], commentsRes.value[i]) &&
                merged[i].postTitle == PostTitle(PostMap(postsRes.value), commentsRes.value[i].postId)
  {
    if commentsRes.None? || postsRes.None? {
      return [];
    }
    var postMap := BuildPostMap(postsRes.value);
    merged := Join(commentsRes.value, postMap);
  }
}
