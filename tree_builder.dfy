/** The tree builder: `sbsp_processPosts` walks the post hierarchy and builds
    the nested records the dropdown is rendered from. */
module TreeBuilder {

  /** A post together with what `get_posts` returns for `post_parent` equal
      to its id: the hierarchy is finite and acyclic by construction. */
  datatype Post = Post(id: int, title: string, childPosts: seq<Post>)

  /** One record of the nested array `sbsp_processPosts` builds. `childCount`
      counts every fetched child, `children` holds only the kept ones. */
  datatype Item = Item(id: int, title: string, depth: nat, childCount: nat, children: seq<Item>)

  /** The records `sbsp_processPosts` appends for `posts` at `depth`, in the
      order its `foreach` visits them. */
  function Processed(posts: seq<Post>, depth: nat): seq<Item>
  {
    if posts == [] then []
    else
      var post := posts[|posts| - 1];
      Processed(posts[..|posts| - 1], depth)
        + if |post.childPosts| > 0
          then [Item(post.id, post.title, depth, |post.childPosts|, Processed(post.childPosts, depth + 1))]
          else []
  }

  /** `sbsp_processPosts($posts, $postType, $parentArray, $depth)`: for each
      post, fetch its children; a post with at least one child is appended to
      `parentArray` with its children processed one level deeper. The post
      type argument only selects what `get_posts` returns and is carried by
      the `Post` values here. */
  method ProcessPosts(posts: seq<Post>, parentArray: seq<Item>, depth: nat) returns (result: seq<Item>)
    ensures result == parentArray + Processed(posts, depth)
  {
    result := parentArray;
    var i := 0;
    while i < |posts|
      invariant 0 <= i <= |posts|
      invariant result == parentArray + Processed(posts[..i], depth)
    {
      assert posts[..i + 1][..i] == posts[..i];
      var post := posts[i];
      var childPosts := post.childPosts;
      var newItem := Item(post.id, post.title, depth, |childPosts|, []);
      if newItem.childCount > 0 {
        var children := ProcessPosts(childPosts, newItem.children, depth + 1);
        newItem := newItem.(children := children);
        assert children == Processed(childPosts, depth + 1);
        result := result + [newItem];
      }
      assert Processed(posts[..i + 1], depth) == Processed(posts[..i], depth)
        + if |post.childPosts| > 0
          then [Item(post.id, post.title, depth, |post.childPosts|, Processed(post.childPosts, depth + 1))]
          else [];
      i := i + 1;
    }
    assert posts[..i] == posts;
  }

  // ---------------------------------------------------------------------
  // An independent description of the result: filter, then convert

  /** The posts that have at least one child, in input order. */
  function WithChildren(posts: seq<Post>): seq<Post>
  {
    if posts == [] then []
    else (if |posts[0].childPosts| > 0 then [posts[0]] else []) + WithChildren(posts[1..])
  }

  /** The record built for a post that has children. */
  function ItemFor(post: Post, depth: nat): Item
  {
    Item(post.id, post.title, depth, |post.childPosts|, Processed(post.childPosts, depth + 1))
  }

  /** `xs` is `ys` with some elements left out and none reordered. */
  predicate IsSubsequence<T(==)>(xs: seq<T>, ys: seq<T>)
  {
    if xs == [] then true
    else if ys == [] then false
    else if xs[0] == ys[0] then IsSubsequence(xs[1..], ys[1..])
    else IsSubsequence(xs, ys[1..])
  }

  lemma {:induction false} WithChildrenAppend(posts: seq<Post>, post: Post)
    ensures WithChildren(posts + [post])
         == WithChildren(posts) + if |post.childPosts| > 0 then [post] else []
  {
    if posts != [] {
      assert (posts + [post])[1..] == posts[1..] + [post];
      WithChildrenAppend(posts[1..], post);
    } else {
      assert WithChildren([post]) == (if |post.childPosts| > 0 then [post] else []) + WithChildren([]);
    }
  }

  /** The records produced are exactly the posts that have children, in
      input order, each converted by ItemFor. */
  lemma {:induction false} ProcessedIsFilterThenConvert(posts: seq<Post>, depth: nat)
    ensures |Processed(posts, depth)| == |WithChildren(posts)|
    ensures forall k :: 0 <= k < |WithChildren(posts)| ==>
              Processed(posts, depth)[k] == ItemFor(WithChildren(posts)[k], depth)
  {
    if posts != [] {
      var init, last := posts[..|posts| - 1], posts[|posts| - 1];
      assert posts == init + [last];
      ProcessedIsFilterThenConvert(init, depth);
      WithChildrenAppend(init, last);
    }
  }

  /** A post is kept exactly when it is one of the input posts and has a
      child. */
  lemma {:induction false} WithChildrenMembership(posts: seq<Post>, p: Post)
    ensures p in WithChildren(posts) <==> p in posts && |p.childPosts| > 0
  {
    if posts != [] {
      WithChildrenMembership(posts[1..], p);
      assert posts == [posts[0]] + posts[1..];
    }
  }

  /** The kept posts keep their input order. */
  lemma {:induction false} WithChildrenIsSubsequence(posts: seq<Post>)
    ensures IsSubsequence(WithChildren(posts), posts)
  {
    if posts != [] {
      WithChildrenIsSubsequence(posts[1..]);
      if |posts[0].childPosts| > 0 {
        assert WithChildren(posts)[1..] == WithChildren(posts[1..]);
      } else {
        assert WithChildren(posts) == WithChildren(posts[1..]);
        SubsequenceOfTail(WithChildren(posts), posts);
      }
    }
  }

  lemma {:induction false} SubsequenceOfTail<T>(xs: seq<T>, ys: seq<T>)
    requires ys != [] && IsSubsequence(xs, ys[1..])
    ensures IsSubsequence(xs, ys)
    decreases |ys|, |xs|
  {
    if xs != [] && xs[0] == ys[0] {
      SubsequenceDropHead(xs, ys[1..]);
    }
  }

  lemma {:induction false} SubsequenceDropHead<T>(xs: seq<T>, ys: seq<T>)
    requires xs != [] && IsSubsequence(xs, ys)
    ensures IsSubsequence(xs[1..], ys)
    decreases |ys|, |xs|
  {
    if ys != [] {
      if xs[0] == ys[0] {
        SubsequenceOfTail(xs[1..], ys);
      } else {
        SubsequenceDropHead(xs, ys[1..]);
        SubsequenceOfTail(xs[1..], ys);
      }
    }
  }

  // ---------------------------------------------------------------------
  // Shape of the nested records

  /** Every record at every level has at least one fetched child, carries
      the depth of its level, and keeps no more children than it counted. */
  predicate WellFormed(items: seq<Item>, depth: nat)
  {
    forall k :: 0 <= k < |items| ==>
      && items[k].depth == depth
      && items[k].childCount > 0
      && |items[k].children| <= items[k].childCount
      && WellFormed(items[k].children, depth + 1)
  }

  lemma {:induction false} ProcessedLength(posts: seq<Post>, depth: nat)
    ensures |Processed(posts, depth)| <= |posts|
  {
    if posts != [] {
      ProcessedLength(posts[..|posts| - 1], depth);
    }
  }

  /** The records built at `depth` are well formed: no leaf post appears at
      any level, depths go up by one per level, and `|children| <=
      childCount`. */
  lemma {:induction false} ProcessedWellFormed(posts: seq<Post>, depth: nat)
    ensures WellFormed(Processed(posts, depth), depth)
  {
    if posts != [] {
      var init, post := posts[..|posts| - 1], posts[|posts| - 1];
      ProcessedWellFormed(init, depth);
      if |post.childPosts| > 0 {
        ProcessedWellFormed(post.childPosts, depth + 1);
        ProcessedLength(post.childPosts, depth + 1);
        var item := Item(post.id, post.title, depth, |post.childPosts|, Processed(post.childPosts, depth + 1));
        var r := Processed(init, depth) + [item];
        assert Processed(posts, depth) == r;
        forall k | 0 <= k < |r|
          ensures r[k].depth == depth && r[k].childCount > 0
          ensures |r[k].children| <= r[k].childCount && WellFormed(r[k].children, depth + 1)
        {
          if k < |r| - 1 {
            assert r[k] == Processed(init, depth)[k];
          }
        }
      }
    }
  }

  /** Nothing is built exactly when no input post has a child. */
  lemma {:induction false} ProcessedEmpty(posts: seq<Post>, depth: nat)
    ensures Processed(posts, depth) == [] <==> forall k :: 0 <= k < |posts| ==> |posts[k].childPosts| == 0
  {
    if posts != [] {
      var init := posts[..|posts| - 1];
      ProcessedEmpty(init, depth);
      assert forall k :: 0 <= k < |init| ==> init[k] == posts[k];
    }
  }

  /** A post whose children are all leaves is kept with the number of its
      children as its count, but with an empty list of children. */
  lemma {:induction false} ParentOfLeavesOnly(p: Post, depth: nat)
    requires |p.childPosts| > 0
    requires forall k :: 0 <= k < |p.childPosts| ==> |p.childPosts[k].childPosts| == 0
    ensures Processed([p], depth) == [Item(p.id, p.title, depth, |p.childPosts|, [])]
  {
    ProcessedEmpty(p.childPosts, depth + 1);
    assert [p][..0] == [];
  }
}
