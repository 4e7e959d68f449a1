/** The post tree of a circle's feed: posts whose `replies` are posts again,
    and the four edits the backend makes to it (new post at the head, reply
    appended under the first match, reaction toggled on the first match,
    deletion of a matching post with its subtree), plus pinning, which only
    looks at top-level posts.

    The edits are specified as functions on values; `AddIn`, `ReactIn` and
    `DelIn` are the searching loops of the backend's `add`, `react` and
    `del`, proved to compute them. Their properties are stated on `Nodes`,
    the pre-order list of every post and reply (each without its replies),
    which is the order in which `add` and `react` look for a match. */
module ContentTree {
  import opened Common
  import opened Types

  /** A post on its own, without its replies. */
  function Header(p: Post): Post
  {
    p.(replies := [])
  }

  /** Every post and reply of a forest in pre-order: a post, then its
      replies (recursively), then its next sibling. */
  function Nodes(ps: seq<Post>): seq<Post>
  {
    if ps == [] then [] else [Header(ps[0])] + Nodes(ps[0].replies) + Nodes(ps[1..])
  }

  /** Some post or reply of the forest has id `id`. */
  predicate Contains(ps: seq<Post>, id: string)
  {
    ps != [] && (ps[0].id == id || Contains(ps[0].replies, id) || Contains(ps[1..], id))
  }

  /** The first post or reply with id `id` in pre-order, with its subtree. */
  function Find(ps: seq<Post>, id: string): (r: Option<Post>)
    ensures r.Some? <==> Contains(ps, id)
    ensures r.Some? ==> r.value.id == id
  {
    if ps == [] then None
    else if ps[0].id == id then Some(ps[0])
    else if Contains(ps[0].replies, id) then Find(ps[0].replies, id)
    else Find(ps[1..], id)
  }

  // ---------------------------------------------------------------------
  // Facts about the pre-order list

  lemma {:induction false} NodesAppend(a: seq<Post>, b: seq<Post>)
    ensures Nodes(a + b) == Nodes(a) + Nodes(b)
  {
    if a == [] {
      assert a + b == b;
    } else {
      assert (a + b)[0] == a[0];
      assert (a + b)[1..] == a[1..] + b;
      NodesAppend(a[1..], b);
    }
  }

  lemma NodesSingle(t: Post)
    ensures Nodes([t]) == [Header(t)] + Nodes(t.replies)
  {
    assert [t][1..] == [];
  }

  // How the pre-order list of a forest `[p] + rest` is assembled from that of
  // the part a search descends into; the proofs below build on these steps.

  lemma NodesHead(p: Post, rest: seq<Post>)
    ensures Nodes([p] + rest) == [] + Nodes([p]) + Nodes(rest)
  {
    NodesAppend([p], rest);
  }

  lemma Regroup<T>(h: seq<T>, a: seq<T>, t: seq<T>, c: seq<T>, b: seq<T>)
    ensures h + (a + t + c) + b == (h + a) + t + (c + b)
  {
  }

  lemma Flatten<T>(h: seq<T>, a: seq<T>, c: seq<T>, b: seq<T>)
    ensures h + (a + c) + b == h + a + c + b
  {
  }

  lemma Rejoin<T>(h: seq<T>, a: seq<T>, c: seq<T>, b: seq<T>)
    ensures h + (a + c) + b == (h + a) + (c + b)
  {
  }

  /** An edit inside `p`'s replies that replaces `x` by `y` in their
      pre-order list replaces `x` by `y` in that of `[p] + rest`. */
  lemma DescendReplies(p: Post, p': Post, rest: seq<Post>, pre: seq<Post>, x: seq<Post>, y: seq<Post>, post: seq<Post>)
    requires Header(p') == Header(p)
    requires Nodes(p.replies) == pre + x + post
    requires Nodes(p'.replies) == pre + y + post
    ensures Nodes([p] + rest) == ([Header(p)] + pre) + x + (post + Nodes(rest))
    ensures Nodes([p'] + rest) == ([Header(p)] + pre) + y + (post + Nodes(rest))
  {
    NodesAppend([p], rest);
    NodesSingle(p);
    NodesAppend([p'], rest);
    NodesSingle(p');
    Regroup([Header(p)], pre, x, post, Nodes(rest));
    Regroup([Header(p)], pre, y, post, Nodes(rest));
  }

  /** An edit in the posts after `p` that replaces `x` by `y` in their
      pre-order list replaces `x` by `y` in that of the whole list. */
  lemma DescendRest(p: Post, rest: seq<Post>, rest': seq<Post>, pre: seq<Post>, x: seq<Post>, y: seq<Post>, post: seq<Post>)
    requires Nodes(rest) == pre + x + post
    requires Nodes(rest') == pre + y + post
    ensures Nodes([p] + rest) == ([Header(p)] + Nodes(p.replies) + pre) + x + post
    ensures Nodes([p] + rest') == ([Header(p)] + Nodes(p.replies) + pre) + y + post
  {
    NodesAppend([p], rest);
    NodesAppend([p], rest');
    NodesSingle(p);
    var h := [Header(p)] + Nodes(p.replies);
    Regroup(h, pre, x, post, []);
    Regroup(h, pre, y, post, []);
    assert post + [] == post;
  }

  /** `Contains` holds exactly when some node of the pre-order list carries the id. */
  lemma {:induction false} ContainsNodes(ps: seq<Post>, id: string)
    ensures Contains(ps, id) <==> exists n :: n in Nodes(ps) && n.id == id
  {
    if ps != [] {
      ContainsNodes(ps[0].replies, id);
      ContainsNodes(ps[1..], id);
      assert Nodes(ps) == [Header(ps[0])] + Nodes(ps[0].replies) + Nodes(ps[1..]);
      assert Header(ps[0]) in Nodes(ps);
    }
  }

  /** A top-level post with the id is in particular a node with the id. */
  lemma {:induction false} TopLevelContained(ps: seq<Post>, id: string)
    ensures IndexOf(ps, PostId, id) != -1 ==> Contains(ps, id)
  {
    if ps != [] && ps[0].id != id {
      TopLevelContained(ps[1..], id);
    }
  }

  /** The first `i` posts of the list neither have the id nor hold it among
      their replies: the searching loops below have passed over them. */
  predicate Passed(ps: seq<Post>, id: string, i: nat)
    requires i <= |ps|
  {
    forall j :: 0 <= j < i ==> ps[j].id != id && !Contains(ps[j].replies, id)
  }

  lemma {:induction false} ContainsPrefix(ps: seq<Post>, id: string, i: nat)
    requires i <= |ps| && Passed(ps, id, i)
    ensures Contains(ps, id) == Contains(ps[i..], id)
  {
    if i > 0 {
      assert Passed(ps[1..], id, i - 1);
      ContainsPrefix(ps[1..], id, i - 1);
      assert ps[1..][i - 1..] == ps[i..];
    }
  }

  // ---------------------------------------------------------------------
  // addPost

  /** `circulo.posts.unshift(newPost)`. */
  function AddPost(ps: seq<Post>, post: Post): (r: seq<Post>)
    ensures |r| == |ps| + 1 && r[0] == post && r[1..] == ps
  {
    [post] + ps
  }

  /** A fresh post becomes the first node of the feed and everything else follows unchanged. */
  lemma AddPostNodes(ps: seq<Post>, post: Post)
    requires post.replies == []
    ensures Nodes(AddPost(ps, post)) == [post] + Nodes(ps)
  {
    NodesAppend([post], ps);
    NodesSingle(post);
    assert Header(post) == post;
  }

  // ---------------------------------------------------------------------
  // addReply

  /** The tree after `add`: `reply` appended to the replies of the first
      post or reply in pre-order whose id is `parentId`; unchanged if none. */
  function AddReply(ps: seq<Post>, parentId: string, reply: Post): seq<Post>
  {
    if ps == [] then []
    else if ps[0].id == parentId then [ps[0].(replies := ps[0].replies + [reply])] + ps[1..]
    else if Contains(ps[0].replies, parentId) then [ps[0].(replies := AddReply(ps[0].replies, parentId, reply))] + ps[1..]
    else [ps[0]] + AddReply(ps[1..], parentId, reply)
  }

  /** With no matching parent the tree is left as it was. */
  lemma {:induction false} AddReplyAbsent(ps: seq<Post>, parentId: string, reply: Post)
    requires !Contains(ps, parentId)
    ensures AddReply(ps, parentId, reply) == ps
  {
    if ps != [] {
      AddReplyAbsent(ps[1..], parentId, reply);
    }
  }

  /** In the flat pre-order list, `add` edits exactly one subtree: that of
      the first post or reply with the id, the one `Find` returns. Everything
      before it (`pre`, where the id does not occur) and after it (`post`) is
      left in place, and the subtree gains the reply as its last child. The
      list forgets nesting; `AddReplyOutline` states the same with depths. */
  lemma {:induction false} AddReplyNodes(ps: seq<Post>, parentId: string, reply: Post)
    returns (pre: seq<Post>, t: Post, post: seq<Post>)
    requires Contains(ps, parentId)
    ensures t == Find(ps, parentId).value && t.id == parentId
    ensures forall n :: n in pre ==> n.id != parentId
    ensures Nodes(ps) == pre + Nodes([t]) + post
    ensures Nodes(AddReply(ps, parentId, reply)) == pre + Nodes([t.(replies := t.replies + [reply])]) + post
  {
    var p := ps[0];
    assert ps == [p] + ps[1..];
    if p.id == parentId {
      pre, t, post := [], p, Nodes(ps[1..]);
      var p' := p.(replies := p.replies + [reply]);
      assert AddReply(ps, parentId, reply) == [p'] + ps[1..];
      NodesHead(p, ps[1..]);
      NodesHead(p', ps[1..]);
    } else if Contains(p.replies, parentId) {
      var pre';
      var post';
      pre', t, post' := AddReplyNodes(p.replies, parentId, reply);
      pre, post := [Header(p)] + pre', post' + Nodes(ps[1..]);
      var p' := p.(replies := AddReply(p.replies, parentId, reply));
      assert AddReply(ps, parentId, reply) == [p'] + ps[1..];
      DescendReplies(p, p', ps[1..], pre', Nodes([t]), Nodes([t.(replies := t.replies + [reply])]), post');
    } else {
      ContainsNodes(p.replies, parentId);
      var pre';
      var post';
      pre', t, post' := AddReplyNodes(ps[1..], parentId, reply);
      pre, post := [Header(p)] + Nodes(p.replies) + pre', post';
      assert AddReply(ps, parentId, reply) == [p] + AddReply(ps[1..], parentId, reply);
      DescendRest(p, ps[1..], AddReply(ps[1..], parentId, reply), pre', Nodes([t]), Nodes([t.(replies := t.replies + [reply])]), post');
    }
  }

  /** The grown subtree lists the new reply after all earlier replies and their descendants. */
  lemma AppendedReplyNodes(t: Post, reply: Post)
    ensures Nodes([t.(replies := t.replies + [reply])]) == Nodes([t]) + Nodes([reply])
  {
    var t' := t.(replies := t.replies + [reply]);
    NodesSingle(t);
    NodesSingle(t');
    NodesAppend(t.replies, [reply]);
    assert Header(t') == Header(t);
  }

  /** The first match now ends with the new reply, its other replies kept in order. */
  lemma {:induction false} AddReplyAppends(ps: seq<Post>, parentId: string, reply: Post)
    requires Contains(ps, parentId)
    ensures var t := Find(ps, parentId).value;
      Find(AddReply(ps, parentId, reply), parentId) == Some(t.(replies := t.replies + [reply]))
  {
    var p := ps[0];
    if p.id != parentId {
      if Contains(p.replies, parentId) {
        AddReplyAppends(p.replies, parentId, reply);
      } else {
        AddReplyAppends(ps[1..], parentId, reply);
        assert AddReply(ps, parentId, reply)[1..] == AddReply(ps[1..], parentId, reply);
      }
    }
  }

  /** Where `add` stops: at the first post of the list that has the id or
      holds it among its replies. */
  lemma {:induction false} AddReplyAt(ps: seq<Post>, parentId: string, reply: Post, i: nat)
    requires i < |ps| && Passed(ps, parentId, i)
    requires ps[i].id == parentId || Contains(ps[i].replies, parentId)
    ensures Contains(ps, parentId)
    ensures ps[i].id == parentId ==>
      AddReply(ps, parentId, reply) == ps[i := ps[i].(replies := ps[i].replies + [reply])]
    ensures ps[i].id != parentId ==>
      AddReply(ps, parentId, reply) == ps[i := ps[i].(replies := AddReply(ps[i].replies, parentId, reply))]
  {
    if i > 0 {
      assert ps[0].id != parentId && !Contains(ps[0].replies, parentId);
      assert Passed(ps[1..], parentId, i - 1);
      AddReplyAt(ps[1..], parentId, reply, i - 1);
      assert ps[1..][i - 1] == ps[i];
      var v := if ps[i].id == parentId then ps[i].(replies := ps[i].replies + [reply])
               else ps[i].(replies := AddReply(ps[i].replies, parentId, reply));
      assert AddReply(ps[1..], parentId, reply) == ps[1..][i - 1 := v];
      assert ps[i := v] == [ps[0]] + ps[1..][i - 1 := v];
    }
  }

  /** The searching loop of `add`: each post is checked, then its replies,
      before the next post; `found` is `add`'s boolean result. */
  method AddIn(posts: seq<Post>, parentId: string, reply: Post) returns (result: seq<Post>, found: bool)
    ensures found == Contains(posts, parentId)
    ensures result == AddReply(posts, parentId, reply)
  {
    var i := 0;
    while i < |posts|
      invariant 0 <= i <= |posts|
      invariant Passed(posts, parentId, i)
    {
      var post := posts[i];
      if post.id == parentId {
        AddReplyAt(posts, parentId, reply, i);
        return posts[i := post.(replies := post.replies + [reply])], true;
      }
      var sub, subFound := AddIn(post.replies, parentId, reply);
      if subFound {
        AddReplyAt(posts, parentId, reply, i);
        return posts[i := post.(replies := sub)], true;
      }
      i := i + 1;
    }
    ContainsPrefix(posts, parentId, i);
    AddReplyAbsent(posts, parentId, reply);
    return posts, false;
  }


  // ---------------------------------------------------------------------
  // Reactions

  /** The emoji of `userId`'s first reaction, as `userReaction` finds it. */
  function UserReaction(rs: seq<Reaction>, userId: string): (r: Option<string>)
    ensures r.None? <==> forall j :: 0 <= j < |rs| ==> rs[j].userId != userId
    ensures r.Some? ==> exists j :: (0 <= j < |rs| && rs[j].userId == userId && rs[j].emoji == r.value &&
                                     forall k :: 0 <= k < j ==> rs[k].userId != userId)
  {
    var i := IndexOf(rs, ReactionUser, userId);
    if i == -1 then None else Some(rs[i].emoji)
  }

  /** No user has two reactions on one post. */
  predicate UniqueReactors(rs: seq<Reaction>)
  {
    forall i, j :: 0 <= i < j < |rs| ==> rs[i].userId != rs[j].userId
  }

  /** The reaction list of the matched post after `react`: a user with no
      reaction gets one appended; the same emoji again removes it; another
      emoji replaces it in place. */
  function ApplyReaction(rs: seq<Reaction>, userId: string, emoji: string): seq<Reaction>
  {
    var i := IndexOf(rs, ReactionUser, userId);
    if i == -1 then rs + [Reaction(userId, emoji)]
    else if rs[i].emoji == emoji then rs[..i] + rs[i + 1..]
    else rs[i := rs[i].(emoji := emoji)]
  }

  lemma UniqueAppend(rs: seq<Reaction>, userId: string, emoji: string)
    requires UniqueReactors(rs)
    requires IndexOf(rs, ReactionUser, userId) == -1
    ensures UniqueReactors(rs + [Reaction(userId, emoji)])
  {
    var r := rs + [Reaction(userId, emoji)];
    forall a, b | 0 <= a < b < |r| ensures r[a].userId != r[b].userId {
      if b == |rs| {
        assert ReactionUser(rs[a]) != userId;
      }
    }
  }

  lemma UniqueRemoveAt(rs: seq<Reaction>, i: nat)
    requires UniqueReactors(rs) && i < |rs|
    ensures UniqueReactors(rs[..i] + rs[i + 1..])
  {
    var r := rs[..i] + rs[i + 1..];
    forall a, b | 0 <= a < b < |r| ensures r[a].userId != r[b].userId {
      var a', b' := if a < i then a else a + 1, if b < i then b else b + 1;
      assert r[a] == rs[a'] && r[b] == rs[b'];
    }
  }

  lemma UniqueSetEmoji(rs: seq<Reaction>, i: nat, emoji: string)
    requires UniqueReactors(rs) && i < |rs|
    ensures UniqueReactors(rs[i := rs[i].(emoji := emoji)])
  {
    var r := rs[i := rs[i].(emoji := emoji)];
    assert forall a :: 0 <= a < |r| ==> r[a].userId == rs[a].userId;
  }

  /** `react` never gives a user a second reaction on a post. */
  lemma ApplyReactionKeepsUnique(rs: seq<Reaction>, userId: string, emoji: string)
    requires UniqueReactors(rs)
    ensures UniqueReactors(ApplyReaction(rs, userId, emoji))
  {
    var i := IndexOf(rs, ReactionUser, userId);
    if i == -1 {
      UniqueAppend(rs, userId, emoji);
    } else if rs[i].emoji == emoji {
      UniqueRemoveAt(rs, i);
    } else {
      UniqueSetEmoji(rs, i, emoji);
    }
  }

  /** The three outcomes for the reacting user: no reaction yet, one is
      appended; the same emoji again, it is removed; another emoji, it is
      replaced where it stands. */
  lemma ApplyReactionSelf(rs: seq<Reaction>, userId: string, emoji: string)
    requires UniqueReactors(rs)
    ensures var r := ApplyReaction(rs, userId, emoji);
      (UserReaction(rs, userId) == None ==> UserReaction(r, userId) == Some(emoji) && |r| == |rs| + 1) &&
      (UserReaction(rs, userId) == Some(emoji) ==> UserReaction(r, userId) == None && |r| == |rs| - 1) &&
      (UserReaction(rs, userId).Some? && UserReaction(rs, userId) != Some(emoji) ==>
        UserReaction(r, userId) == Some(emoji) && |r| == |rs|)
  {
    var i := IndexOf(rs, ReactionUser, userId);
    var r := ApplyReaction(rs, userId, emoji);
    if i == -1 {
      IndexOfConcat(rs, [Reaction(userId, emoji)], ReactionUser, userId);
      assert ReactionUser([Reaction(userId, emoji)][0]) == userId;
    } else if rs[i].emoji == emoji {
      RemovedReactionGone(rs, i);
    } else {
      IndexOfSameKeys(r, rs, ReactionUser, ReactionUser, userId);
    }
  }

  /** With one reaction per user, removing a user's reaction leaves none of theirs. */
  lemma RemovedReactionGone(rs: seq<Reaction>, i: nat)
    requires UniqueReactors(rs) && i < |rs|
    ensures IndexOf(rs[..i] + rs[i + 1..], ReactionUser, rs[i].userId) == -1
  {
    var r := rs[..i] + rs[i + 1..];
    forall j | 0 <= j < |r| ensures ReactionUser(r[j]) != rs[i].userId {
      if j < i {
        assert r[j] == rs[j];
      } else {
        assert r[j] == rs[j + 1];
      }
    }
  }

  lemma UserReactionRemoveAt(rs: seq<Reaction>, i: nat, other: string)
    requires i < |rs| && rs[i].userId != other
    ensures UserReaction(rs[..i] + rs[i + 1..], other) == UserReaction(rs, other)
  {
    var r := rs[..i] + rs[i + 1..];
    IndexOfRemoveAt(rs, i, ReactionUser, other);
    var j := IndexOf(rs, ReactionUser, other);
    if j != -1 {
      var k := if j < i then j else j - 1;
      assert IndexOf(r, ReactionUser, other) == k;
      assert r[k] == rs[j];
    }
  }

  /** Reacting changes nobody else's reaction. */
  lemma ApplyReactionOthers(rs: seq<Reaction>, userId: string, emoji: string, other: string)
    requires other != userId
    ensures UserReaction(ApplyReaction(rs, userId, emoji), other) == UserReaction(rs, other)
  {
    var i := IndexOf(rs, ReactionUser, userId);
    var r := ApplyReaction(rs, userId, emoji);
    if i == -1 {
      IndexOfConcat(rs, [Reaction(userId, emoji)], ReactionUser, other);
      assert ReactionUser([Reaction(userId, emoji)][0]) != other;
    } else if rs[i].emoji == emoji {
      UserReactionRemoveAt(rs, i, other);
    } else {
      IndexOfSameKeys(r, rs, ReactionUser, ReactionUser, other);
    }
  }

  /** Reacting twice with the same emoji, starting from no reaction or a
      different one, leaves the user without a reaction; switching emoji
      leaves exactly the new one. */
  lemma ReactTwice(rs: seq<Reaction>, userId: string, e1: string, e2: string)
    requires UniqueReactors(rs)
    requires UserReaction(rs, userId) != Some(e1)
    ensures UserReaction(ApplyReaction(ApplyReaction(rs, userId, e1), userId, e1), userId) == None
    ensures e1 != e2 ==> UserReaction(ApplyReaction(ApplyReaction(rs, userId, e1), userId, e2), userId) == Some(e2)
  {
    ApplyReactionSelf(rs, userId, e1);
    ApplyReactionKeepsUnique(rs, userId, e1);
    ApplyReactionSelf(ApplyReaction(rs, userId, e1), userId, e1);
    ApplyReactionSelf(ApplyReaction(rs, userId, e1), userId, e2);
  }

  /** The tree after `react`: the first post or reply in pre-order with id
      `postId` gets `ApplyReaction`; unchanged if there is none. */
  function React(ps: seq<Post>, postId: string, userId: string, emoji: string): seq<Post>
  {
    if ps == [] then []
    else if ps[0].id == postId then [ps[0].(reactions := ApplyReaction(ps[0].reactions, userId, emoji))] + ps[1..]
    else if Contains(ps[0].replies, postId) then [ps[0].(replies := React(ps[0].replies, postId, userId, emoji))] + ps[1..]
    else [ps[0]] + React(ps[1..], postId, userId, emoji)
  }

  lemma {:induction false} ReactAbsent(ps: seq<Post>, postId: string, userId: string, emoji: string)
    requires !Contains(ps, postId)
    ensures React(ps, postId, userId, emoji) == ps
  {
    if ps != [] {
      ReactAbsent(ps[1..], postId, userId, emoji);
    }
  }

  /** In the flat pre-order list, `react` edits exactly one node, the first
      post or reply with the id, and only in its reactions. The list forgets
      nesting; `ReactOutline` states the same with depths. */
  lemma {:induction false} ReactNodes(ps: seq<Post>, postId: string, userId: string, emoji: string)
    returns (pre: seq<Post>, t: Post, post: seq<Post>)
    requires Contains(ps, postId)
    ensures t == Find(ps, postId).value && t.id == postId
    ensures forall n :: n in pre ==> n.id != postId
    ensures Nodes(ps) == pre + Nodes([t]) + post
    ensures Nodes(React(ps, postId, userId, emoji)) ==
      pre + Nodes([t.(reactions := ApplyReaction(t.reactions, userId, emoji))]) + post
  {
    var p := ps[0];
    assert ps == [p] + ps[1..];
    if p.id == postId {
      pre, t, post := [], p, Nodes(ps[1..]);
      var p' := p.(reactions := ApplyReaction(p.reactions, userId, emoji));
      assert React(ps, postId, userId, emoji) == [p'] + ps[1..];
      NodesHead(p, ps[1..]);
      NodesHead(p', ps[1..]);
    } else if Contains(p.replies, postId) {
      var pre';
      var post';
      pre', t, post' := ReactNodes(p.replies, postId, userId, emoji);
      pre, post := [Header(p)] + pre', post' + Nodes(ps[1..]);
      var p' := p.(replies := React(p.replies, postId, userId, emoji));
      assert React(ps, postId, userId, emoji) == [p'] + ps[1..];
      DescendReplies(p, p', ps[1..], pre', Nodes([t]), Nodes([t.(reactions := ApplyReaction(t.reactions, userId, emoji))]), post');
    } else {
      ContainsNodes(p.replies, postId);
      var pre';
      var post';
      pre', t, post' := ReactNodes(ps[1..], postId, userId, emoji);
      pre, post := [Header(p)] + Nodes(p.replies) + pre', post';
      assert React(ps, postId, userId, emoji) == [p] + React(ps[1..], postId, userId, emoji);
      DescendRest(p, ps[1..], React(ps[1..], postId, userId, emoji), pre', Nodes([t]), Nodes([t.(reactions := ApplyReaction(t.reactions, userId, emoji))]), post');
    }
  }

  /** Every post and reply of the forest has at most one reaction per user. */
  predicate ReactionsUnique(ps: seq<Post>)
  {
    forall n :: n in Nodes(ps) ==> UniqueReactors(n.reactions)
  }

  /** `react` keeps "at most one reaction per user per post" across the whole tree. */
  lemma ReactKeepsUnique(ps: seq<Post>, postId: string, userId: string, emoji: string)
    requires ReactionsUnique(ps)
    ensures ReactionsUnique(React(ps, postId, userId, emoji))
  {
    if Contains(ps, postId) {
      var pre, t, post := ReactNodes(ps, postId, userId, emoji);
      var t' := t.(reactions := ApplyReaction(t.reactions, userId, emoji));
      NodesSingle(t);
      NodesSingle(t');
      assert Header(t) in Nodes(ps);
      ApplyReactionKeepsUnique(t.reactions, userId, emoji);
      forall m: Post | m in pre + Nodes([t']) + post ensures UniqueReactors(m.reactions) {
        if m != Header(t') {
          assert m in Nodes(ps);
        }
      }
    } else {
      ReactAbsent(ps, postId, userId, emoji);
    }
  }

  /** Where `react` stops: at the first post of the list that has the id or
      holds it among its replies. */
  lemma {:induction false} ReactAt(ps: seq<Post>, postId: string, userId: string, emoji: string, i: nat)
    requires i < |ps| && Passed(ps, postId, i)
    requires ps[i].id == postId || Contains(ps[i].replies, postId)
    ensures Contains(ps, postId)
    ensures ps[i].id == postId ==>
      React(ps, postId, userId, emoji) == ps[i := ps[i].(reactions := ApplyReaction(ps[i].reactions, userId, emoji))]
    ensures ps[i].id != postId ==>
      React(ps, postId, userId, emoji) == ps[i := ps[i].(replies := React(ps[i].replies, postId, userId, emoji))]
  {
    if i > 0 {
      assert ps[0].id != postId && !Contains(ps[0].replies, postId);
      assert Passed(ps[1..], postId, i - 1);
      ReactAt(ps[1..], postId, userId, emoji, i - 1);
      assert ps[1..][i - 1] == ps[i];
      var v := if ps[i].id == postId then ps[i].(reactions := ApplyReaction(ps[i].reactions, userId, emoji))
               else ps[i].(replies := React(ps[i].replies, postId, userId, emoji));
      assert React(ps[1..], postId, userId, emoji) == ps[1..][i - 1 := v];
      assert ps[i := v] == [ps[0]] + ps[1..][i - 1 := v];
    }
  }

  /** The searching loop of `react`. */
  method ReactIn(posts: seq<Post>, postId: string, userId: string, emoji: string) returns (result: seq<Post>, found: bool)
    ensures found == Contains(posts, postId)
    ensures result == React(posts, postId, userId, emoji)
  {
    var i := 0;
    while i < |posts|
      invariant 0 <= i <= |posts|
      invariant Passed(posts, postId, i)
    {
      var post := posts[i];
      if post.id == postId {
        var reactions := post.reactions;
        var idx := FindIndex(reactions, ReactionUser, userId);
        if idx > -1 {
          if reactions[idx].emoji == emoji {
            reactions := reactions[..idx] + reactions[idx + 1..];
          } else {
            reactions := reactions[idx := reactions[idx].(emoji := emoji)];
          }
        } else {
          reactions := reactions + [Reaction(userId, emoji)];
        }
        ReactAt(posts, postId, userId, emoji, i);
        return posts[i := post.(reactions := reactions)], true;
      }
      var sub, subFound := ReactIn(post.replies, postId, userId, emoji);
      if subFound {
        ReactAt(posts, postId, userId, emoji, i);
        return posts[i := post.(replies := sub)], true;
      }
      i := i + 1;
    }
    ContainsPrefix(posts, postId, i);
    ReactAbsent(posts, postId, userId, emoji);
    return posts, false;
  }


  // ---------------------------------------------------------------------
  // deletePost

  /** The tree after `del`: the first post with id `id` in this list is
      spliced out with its subtree; only when the list has none does the
      search go into each post's replies, in order. */
  function Delete(ps: seq<Post>, id: string): seq<Post>
    decreases ps, 1
  {
    var i := IndexOf(ps, PostId, id);
    if i != -1 then ps[..i] + ps[i + 1..] else DeleteBelow(ps, id)
  }

  /** The loop `for (const post of posts) if (del(post.replies)) return true`. */
  function DeleteBelow(ps: seq<Post>, id: string): seq<Post>
    decreases ps, 0
  {
    if ps == [] then []
    else if Contains(ps[0].replies, id) then [ps[0].(replies := Delete(ps[0].replies, id))] + ps[1..]
    else [ps[0]] + DeleteBelow(ps[1..], id)
  }

  lemma {:induction false} DeleteAbsent(ps: seq<Post>, id: string)
    requires !Contains(ps, id)
    ensures Delete(ps, id) == ps
    ensures DeleteBelow(ps, id) == ps
  {
    if ps != [] {
      DeleteAbsent(ps[1..], id);
      TopLevelContained(ps, id);
    }
  }

  /** Deletion removes one contiguous block of the pre-order list: a post or
      reply with the id together with all of its descendants. A matching post
      in the top-level list is the one removed, even when a reply earlier in
      pre-order matches too. The list forgets nesting; `DeleteOutline` states
      the same with depths. */
  lemma {:induction false} DeleteRemovesSubtree(ps: seq<Post>, id: string) returns (pre: seq<Post>, t: Post, post: seq<Post>)
    requires Contains(ps, id)
    ensures t.id == id
    ensures Nodes(ps) == pre + Nodes([t]) + post
    ensures Nodes(Delete(ps, id)) == pre + post
    ensures IndexOf(ps, PostId, id) != -1 ==> t == ps[IndexOf(ps, PostId, id)]
    decreases ps, 1
  {
    var i := IndexOf(ps, PostId, id);
    if i != -1 {
      t := ps[i];
      assert ps == ps[..i] + [t] + ps[i + 1..];
      NodesAppend(ps[..i] + [t], ps[i + 1..]);
      NodesAppend(ps[..i], [t]);
      NodesAppend(ps[..i], ps[i + 1..]);
      pre, post := Nodes(ps[..i]), Nodes(ps[i + 1..]);
    } else {
      pre, t, post := DeleteBelowRemovesSubtree(ps, id);
    }
  }

  /** With no top-level match, one block of the flat pre-order list goes: a
      node with the id and its descendants (`DeleteBelowOutline` says where). */
  lemma {:induction false} DeleteBelowRemovesSubtree(ps: seq<Post>, id: string) returns (pre: seq<Post>, t: Post, post: seq<Post>)
    requires Contains(ps, id)
    requires IndexOf(ps, PostId, id) == -1
    ensures t.id == id
    ensures Nodes(ps) == pre + Nodes([t]) + post
    ensures Nodes(DeleteBelow(ps, id)) == pre + post
    decreases ps, 0
  {
    var p := ps[0];
    assert ps == [p] + ps[1..];
    if Contains(p.replies, id) {
      var pre';
      var post';
      pre', t, post' := DeleteRemovesSubtree(p.replies, id);
      pre, post := [Header(p)] + pre', post' + Nodes(ps[1..]);
      var p' := p.(replies := Delete(p.replies, id));
      assert DeleteBelow(ps, id) == [p'] + ps[1..];
      assert Nodes(p'.replies) == pre' + [] + post';
      DescendReplies(p, p', ps[1..], pre', Nodes([t]), [], post');
    } else {
      var pre';
      var post';
      pre', t, post' := DeleteBelowRemovesSubtree(ps[1..], id);
      pre, post := [Header(p)] + Nodes(p.replies) + pre', post';
      assert DeleteBelow(ps, id) == [p] + DeleteBelow(ps[1..], id);
      assert Nodes(DeleteBelow(ps[1..], id)) == pre' + [] + post';
      DescendRest(p, ps[1..], DeleteBelow(ps[1..], id), pre', Nodes([t]), [], post');
    }
  }


  /** The first post holding the id among its replies is the one `del` descends into. */
  lemma {:induction false} BelowHit(ps: seq<Post>, id: string, i: nat)
    requires i < |ps| && Passed(ps, id, i)
    requires Contains(ps[i].replies, id)
    ensures Contains(ps, id)
    ensures DeleteBelow(ps, id) == ps[i := ps[i].(replies := Delete(ps[i].replies, id))]
  {
    if i > 0 {
      assert ps[0].id != id && !Contains(ps[0].replies, id);
      assert Passed(ps[1..], id, i - 1);
      BelowHit(ps[1..], id, i - 1);
      assert ps[1..][i - 1] == ps[i];
      var v := ps[i].(replies := Delete(ps[i].replies, id));
      assert DeleteBelow(ps[1..], id) == ps[1..][i - 1 := v];
      assert ps[i := v] == [ps[0]] + ps[1..][i - 1 := v];
    }
  }

  /** The searching loop of `del`: this list's `findIndex` first, then each
      post's replies in order. */
  method DelIn(posts: seq<Post>, id: string) returns (result: seq<Post>, found: bool)
    ensures found == Contains(posts, id)
    ensures result == Delete(posts, id)
  {
    var idx := FindIndex(posts, PostId, id);
    if idx != -1 {
      TopLevelContained(posts, id);
      return posts[..idx] + posts[idx + 1..], true;
    }
    assert forall j :: 0 <= j < |posts| ==> PostId(posts[j]) != id;
    var i := 0;
    while i < |posts|
      invariant 0 <= i <= |posts|
      invariant Passed(posts, id, i)
    {
      var post := posts[i];
      var sub, subFound := DelIn(post.replies, id);
      if subFound {
        BelowHit(posts, id, i);
        return posts[i := post.(replies := sub)], true;
      }
      i := i + 1;
    }
    ContainsPrefix(posts, id, i);
    DeleteAbsent(posts, id);
    return posts, false;
  }



  // ---------------------------------------------------------------------
  // The outline: the pre-order list with each node's depth

  /** A node of the tree, without its replies, at its nesting depth. */
  datatype Line = Line(depth: nat, node: Post)

  /** The pre-order list of a forest whose top-level posts sit at depth `d`,
      each node tagged with its depth. Unlike `Nodes`, it fixes how the posts
      are nested: two forests with the same outline are equal
      (`OutlineDetermines`), so an edit stated on the outline leaves every
      post it does not mention where it was in the tree. */
  function Outline(ps: seq<Post>, d: nat): seq<Line>
  {
    if ps == [] then [] else [Line(d, Header(ps[0]))] + Outline(ps[0].replies, d + 1) + Outline(ps[1..], d)
  }

  lemma {:induction false} OutlineAppend(a: seq<Post>, b: seq<Post>, d: nat)
    ensures Outline(a + b, d) == Outline(a, d) + Outline(b, d)
  {
    if a == [] {
      assert a + b == b;
    } else {
      assert (a + b)[0] == a[0];
      assert (a + b)[1..] == a[1..] + b;
      OutlineAppend(a[1..], b, d);
    }
  }

  lemma OutlineSingle(t: Post, d: nat)
    ensures Outline([t], d) == [Line(d, Header(t))] + Outline(t.replies, d + 1)
  {
    assert [t][1..] == [];
  }

  /** Every line of a forest's outline is at least as deep as its top level,
      and the first line is exactly at the top level. */
  lemma {:induction false} OutlineDepths(ps: seq<Post>, d: nat)
    ensures forall k :: 0 <= k < |Outline(ps, d)| ==> Outline(ps, d)[k].depth >= d
    ensures ps != [] ==> Outline(ps, d)[0].depth == d
  {
    if ps != [] {
      OutlineDepths(ps[0].replies, d + 1);
      OutlineDepths(ps[1..], d);
    }
  }

  /** A list that splits into a part deeper than `d` followed by a part that
      is empty or starts at depth `d` splits in only one way. */
  lemma SplitAtDepth(x: seq<Line>, y: seq<Line>, x': seq<Line>, y': seq<Line>, d: nat)
    requires forall k :: 0 <= k < |x| ==> x[k].depth > d
    requires forall k :: 0 <= k < |x'| ==> x'[k].depth > d
    requires y != [] ==> y[0].depth == d
    requires y' != [] ==> y'[0].depth == d
    requires x + y == x' + y'
    ensures x == x' && y == y'
  {
    // At the shorter of the two prefix lengths, the line is at depth `d`
    // exactly when that length is the end of the prefix, on both sides.
    var m := if |x| < |x'| then |x| else |x'|;
    if m < |x + y| {
      var l := (x + y)[m];
      assert l == (x' + y')[m];
      assert l.depth == d <==> m == |x|;
      assert l.depth == d <==> m == |x'|;
    }
    assert |x| == |x'|;
    assert x == (x + y)[..|x|];
    assert x' == (x' + y')[..|x'|];
  }

  /** Two non-empty forests with the same outline have first posts with the
      same header, and the same outlines below and after them. */
  lemma OutlineUncons(a: seq<Post>, b: seq<Post>, d: nat)
    requires a != [] && b != [] && Outline(a, d) == Outline(b, d)
    ensures Header(a[0]) == Header(b[0])
    ensures Outline(a[0].replies, d + 1) == Outline(b[0].replies, d + 1)
    ensures Outline(a[1..], d) == Outline(b[1..], d)
  {
    var x, y := Outline(a[0].replies, d + 1), Outline(a[1..], d);
    var x', y' := Outline(b[0].replies, d + 1), Outline(b[1..], d);
    var o := Outline(a, d);
    assert o == [Line(d, Header(a[0]))] + (x + y);
    assert o == [Line(d, Header(b[0]))] + (x' + y');
    assert o[0] == Line(d, Header(a[0])) == Line(d, Header(b[0]));
    assert x + y == o[1..] == x' + y';
    OutlineDepths(a[0].replies, d + 1);
    OutlineDepths(b[0].replies, d + 1);
    OutlineDepths(a[1..], d);
    OutlineDepths(b[1..], d);
    SplitAtDepth(x, y, x', y', d);
  }

  /** The outline determines the forest. */
  lemma {:induction false} OutlineDetermines(a: seq<Post>, b: seq<Post>, d: nat)
    requires Outline(a, d) == Outline(b, d)
    ensures a == b
  {
    if a != [] && b != [] {
      OutlineUncons(a, b, d);
      OutlineDetermines(a[0].replies, b[0].replies, d + 1);
      OutlineDetermines(a[1..], b[1..], d);
      assert a[0] == Header(a[0]).(replies := a[0].replies);
      assert b[0] == Header(b[0]).(replies := b[0].replies);
      assert a == [a[0]] + a[1..] && b == [b[0]] + b[1..];
    }
  }

  /** The outline of a list around its `k`-th post, before and after that
      post is replaced by `q`. */
  lemma OutlineAt(ps: seq<Post>, k: nat, q: Post, d: nat)
    requires k < |ps|
    ensures Outline(ps, d) == Outline(ps[..k], d) + Outline([ps[k]], d) + Outline(ps[k + 1..], d)
    ensures Outline(ps[k := q], d) == Outline(ps[..k], d) + Outline([q], d) + Outline(ps[k + 1..], d)
  {
    assert ps == ps[..k] + [ps[k]] + ps[k + 1..];
    OutlineAppend(ps[..k] + [ps[k]], ps[k + 1..], d);
    OutlineAppend(ps[..k], [ps[k]], d);
    var ps' := ps[k := q];
    assert ps' == ps[..k] + [q] + ps[k + 1..];
    OutlineAppend(ps[..k] + [q], ps[k + 1..], d);
    OutlineAppend(ps[..k], [q], d);
  }

  /** An edit inside the replies of `ps[k]` that replaces block `x` by `y` in
      their outline replaces it in that of the whole list, after the posts
      before `ps[k]`, `ps[k]` itself and the lines before `x`. */
  lemma OutlineDescend(ps: seq<Post>, k: nat, q: Post, d: nat,
                       a: seq<Line>, x: seq<Line>, y: seq<Line>, c: seq<Line>)
    requires k < |ps| && Header(q) == Header(ps[k])
    requires Outline(ps[k].replies, d + 1) == a + x + c
    requires Outline(q.replies, d + 1) == a + y + c
    ensures Outline(ps, d) ==
      (Outline(ps[..k], d) + [Line(d, Header(ps[k]))] + a) + x + (c + Outline(ps[k + 1..], d))
    ensures Outline(ps[k := q], d) ==
      (Outline(ps[..k], d) + [Line(d, Header(ps[k]))] + a) + y + (c + Outline(ps[k + 1..], d))
  {
    OutlineAt(ps, k, q, d);
    OutlineSingle(ps[k], d);
    OutlineSingle(q, d);
    var before, after, l := Outline(ps[..k], d), Outline(ps[k + 1..], d), [Line(d, Header(ps[k]))];
    Flatten(before, l, a + x + c, after);
    Flatten(before, l, a + y + c, after);
    Regroup(before + l, a, x, c, after);
    Regroup(before + l, a, y, c, after);
  }

  /** An edit inside the replies of `ps[k]` that removes block `x` from
      their outline removes it from that of the whole list. */
  lemma OutlineCut(ps: seq<Post>, k: nat, q: Post, d: nat, a: seq<Line>, x: seq<Line>, c: seq<Line>)
    requires k < |ps| && Header(q) == Header(ps[k])
    requires Outline(ps[k].replies, d + 1) == a + x + c
    requires Outline(q.replies, d + 1) == a + c
    ensures Outline(ps, d) ==
      (Outline(ps[..k], d) + [Line(d, Header(ps[k]))] + a) + x + (c + Outline(ps[k + 1..], d))
    ensures Outline(ps[k := q], d) ==
      (Outline(ps[..k], d) + [Line(d, Header(ps[k]))] + a) + (c + Outline(ps[k + 1..], d))
  {
    OutlineAt(ps, k, q, d);
    OutlineSingle(ps[k], d);
    OutlineSingle(q, d);
    var before, after, l := Outline(ps[..k], d), Outline(ps[k + 1..], d), [Line(d, Header(ps[k]))];
    Flatten(before, l, a + x + c, after);
    Flatten(before, l, a + c, after);
    Regroup(before + l, a, x, c, after);
    Rejoin(before + l, a, c, after);
  }

  /** An edit inside the replies of `ps[k]` that inserts block `y` after
      block `x` in their outline inserts it there in that of the whole list. */
  lemma OutlineInsert(ps: seq<Post>, k: nat, q: Post, d: nat,
                      a: seq<Line>, x: seq<Line>, y: seq<Line>, c: seq<Line>)
    requires k < |ps| && Header(q) == Header(ps[k])
    requires Outline(ps[k].replies, d + 1) == a + x + c
    requires Outline(q.replies, d + 1) == a + x + y + c
    ensures Outline(ps, d) ==
      (Outline(ps[..k], d) + [Line(d, Header(ps[k]))] + a) + x + (c + Outline(ps[k + 1..], d))
    ensures Outline(ps[k := q], d) ==
      (Outline(ps[..k], d) + [Line(d, Header(ps[k]))] + a) + x + y + (c + Outline(ps[k + 1..], d))
  {
    Flatten(a, x, y, c);
    OutlineDescend(ps, k, q, d, a, x, x + y, c);
    Flatten(Outline(ps[..k], d) + [Line(d, Header(ps[k]))] + a, x, y, c + Outline(ps[k + 1..], d));
  }

  /** The lines of an outline are the nodes of the pre-order list. */
  lemma {:induction false} OutlineNodes(ps: seq<Post>, d: nat)
    ensures forall l :: l in Outline(ps, d) ==> l.node in Nodes(ps)
  {
    if ps != [] {
      OutlineNodes(ps[0].replies, d + 1);
      OutlineNodes(ps[1..], d);
    }
  }

  /** The posts a search has passed over contribute no line with the id. */
  lemma PassedOutline(ps: seq<Post>, id: string, k: nat, d: nat)
    requires k <= |ps| && Passed(ps, id, k)
    ensures forall l :: l in Outline(ps[..k], d) ==> l.node.id != id
  {
    assert Passed(ps[..k], id, k);
    ContainsPrefix(ps[..k], id, k);
    assert ps[..k][k..] == [];
    ContainsNodes(ps[..k], id);
    OutlineNodes(ps[..k], d);
  }

  /** A search through a list that holds the id stops at some post: the
      first one that has the id or holds it among its replies. */
  lemma {:induction false} FirstStop(ps: seq<Post>, id: string) returns (k: nat)
    requires Contains(ps, id)
    ensures k < |ps| && Passed(ps, id, k)
    ensures ps[k].id == id || Contains(ps[k].replies, id)
  {
    if ps[0].id == id || Contains(ps[0].replies, id) {
      k := 0;
    } else {
      var k' := FirstStop(ps[1..], id);
      k := k' + 1;
      forall j | 0 <= j < k
        ensures ps[j].id != id && !Contains(ps[j].replies, id)
      {
        if j > 0 {
          assert ps[j] == ps[1..][j - 1];
        }
      }
    }
  }

  /** `Find` returns the post where the search stops, or looks into its replies. */
  lemma {:induction false} FindAt(ps: seq<Post>, id: string, k: nat)
    requires k < |ps| && Passed(ps, id, k)
    requires ps[k].id == id || Contains(ps[k].replies, id)
    ensures Find(ps, id) == if ps[k].id == id then Some(ps[k]) else Find(ps[k].replies, id)
  {
    if k > 0 {
      assert Passed(ps[1..], id, k - 1);
      FindAt(ps[1..], id, k - 1);
      assert ps[1..][k - 1] == ps[k];
    }
  }

  /** The subtree of `t` with the reply appended lists the reply, one level
      below `t`, after everything that was there. */
  lemma OutlineGrown(t: Post, reply: Post, e: nat)
    ensures Outline([t.(replies := t.replies + [reply])], e) == Outline([t], e) + Outline([reply], e + 1)
  {
    OutlineSingle(t, e);
    OutlineSingle(t.(replies := t.replies + [reply]), e);
    OutlineAppend(t.replies, [reply], e + 1);
  }

  /** `add` replaces the subtree of the first match in pre-order, and only
      that subtree, by the same subtree with the reply as its last child, one
      level below the match; every other node keeps its content, its depth
      and its place. */
  lemma {:induction false} AddReplyOutline(ps: seq<Post>, parentId: string, reply: Post, d: nat)
    returns (pre: seq<Line>, t: Post, e: nat, post: seq<Line>)
    requires Contains(ps, parentId)
    ensures t == Find(ps, parentId).value && e >= d
    ensures forall l :: l in pre ==> l.node.id != parentId
    ensures Outline(ps, d) == pre + Outline([t], e) + post
    ensures Outline(AddReply(ps, parentId, reply), d) == pre + Outline([t], e) + Outline([reply], e + 1) + post
    decreases ps, 1
  {
    var k := FirstStop(ps, parentId);
    AddReplyAt(ps, parentId, reply, k);
    FindAt(ps, parentId, k);
    var p := ps[k];
    if p.id == parentId {
      var before, after := Outline(ps[..k], d), Outline(ps[k + 1..], d);
      PassedOutline(ps, parentId, k, d);
      OutlineAt(ps, k, p.(replies := p.replies + [reply]), d);
      OutlineGrown(p, reply, d);
      pre, t, e, post := before, p, d, after;
      Flatten(before, Outline([p], d), Outline([reply], d + 1), after);
    } else {
      pre, t, e, post := AddReplyBelowOutline(ps, parentId, reply, d, k);
    }
  }

  /** `add` going into the replies of `ps[k]`, where its search stops. */
  lemma {:induction false} AddReplyBelowOutline(ps: seq<Post>, parentId: string, reply: Post, d: nat, k: nat)
    returns (pre: seq<Line>, t: Post, e: nat, post: seq<Line>)
    requires k < |ps| && Passed(ps, parentId, k)
    requires Contains(ps[k].replies, parentId) && ps[k].id != parentId
    ensures t == Find(ps[k].replies, parentId).value && e > d
    ensures forall l :: l in pre ==> l.node.id != parentId
    ensures Outline(ps, d) == pre + Outline([t], e) + post
    ensures Outline(ps[k := ps[k].(replies := AddReply(ps[k].replies, parentId, reply))], d) ==
      pre + Outline([t], e) + Outline([reply], e + 1) + post
    decreases ps, 0
  {
    var p := ps[k];
    var pre', post';
    pre', t, e, post' := AddReplyOutline(p.replies, parentId, reply, d + 1);
    OutlineInsert(ps, k, p.(replies := AddReply(p.replies, parentId, reply)), d, pre', Outline([t], e), Outline([reply], e + 1), post');
    PassedOutline(ps, parentId, k, d);
    pre, post := Outline(ps[..k], d) + [Line(d, Header(p))] + pre', post' + Outline(ps[k + 1..], d);
  }

  /** `react` changes one line of the outline, that of the first match in
      pre-order, and only in its reactions; every other node keeps its
      content, its depth and its place. */
  lemma {:induction false} ReactOutline(ps: seq<Post>, postId: string, userId: string, emoji: string, d: nat)
    returns (pre: seq<Line>, t: Post, e: nat, post: seq<Line>)
    requires Contains(ps, postId)
    ensures t == Find(ps, postId).value && e >= d
    ensures forall l :: l in pre ==> l.node.id != postId
    ensures Outline(ps, d) == pre + [Line(e, Header(t))] + post
    ensures Outline(React(ps, postId, userId, emoji), d) ==
      pre + [Line(e, Header(t).(reactions := ApplyReaction(t.reactions, userId, emoji)))] + post
  {
    var k := FirstStop(ps, postId);
    ReactAt(ps, postId, userId, emoji, k);
    FindAt(ps, postId, k);
    PassedOutline(ps, postId, k, d);
    var p := ps[k];
    var before, after := Outline(ps[..k], d), Outline(ps[k + 1..], d);
    if p.id == postId {
      var q := p.(reactions := ApplyReaction(p.reactions, userId, emoji));
      OutlineAt(ps, k, q, d);
      OutlineSingle(p, d);
      OutlineSingle(q, d);
      var r := Outline(p.replies, d + 1);
      pre, t, e, post := before, p, d, r + after;
      assert Header(q) == Header(t).(reactions := ApplyReaction(t.reactions, userId, emoji));
      Rejoin(before, [Line(d, Header(p))], r, after);
      Rejoin(before, [Line(d, Header(q))], r, after);
    } else {
      var q := p.(replies := React(p.replies, postId, userId, emoji));
      var pre', post';
      pre', t, e, post' := ReactOutline(p.replies, postId, userId, emoji, d + 1);
      OutlineDescend(ps, k, q, d, pre', [Line(e, Header(t))],
        [Line(e, Header(t).(reactions := ApplyReaction(t.reactions, userId, emoji)))], post');
      pre, post := before + [Line(d, Header(p))] + pre', post' + after;
    }
  }

  /** Deletion removes one block of the outline: a post or reply with the id
      and its whole subtree. Every other node keeps its content, its depth
      and its place, so siblings and the parent stay where they were. A
      top-level match in this list is the one removed. */
  lemma {:induction false} DeleteOutline(ps: seq<Post>, id: string, d: nat)
    returns (pre: seq<Line>, t: Post, e: nat, post: seq<Line>)
    requires Contains(ps, id)
    ensures t.id == id && e >= d
    ensures Outline(ps, d) == pre + Outline([t], e) + post
    ensures Outline(Delete(ps, id), d) == pre + post
    ensures IndexOf(ps, PostId, id) != -1 ==> t == ps[IndexOf(ps, PostId, id)] && e == d
    decreases ps, 1
  {
    var i := IndexOf(ps, PostId, id);
    if i != -1 {
      t, e := ps[i], d;
      assert ps == ps[..i] + [t] + ps[i + 1..];
      OutlineAppend(ps[..i] + [t], ps[i + 1..], d);
      OutlineAppend(ps[..i], [t], d);
      OutlineAppend(ps[..i], ps[i + 1..], d);
      pre, post := Outline(ps[..i], d), Outline(ps[i + 1..], d);
    } else {
      var k, inPre, inPost;
      pre, t, e, post, k, inPre, inPost := DeleteBelowOutline(ps, id, d);
    }
  }

  /** With no top-level match, the removed block lies inside the replies of
      `ps[k]`, the first post holding the id among its replies (the one
      `BelowHit` says `del` descends into), at least one level deeper. */
  lemma {:induction false} DeleteBelowOutline(ps: seq<Post>, id: string, d: nat)
    returns (pre: seq<Line>, t: Post, e: nat, post: seq<Line>, k: nat, inPre: seq<Line>, inPost: seq<Line>)
    requires Contains(ps, id)
    requires IndexOf(ps, PostId, id) == -1
    ensures t.id == id && e > d
    ensures k < |ps| && Passed(ps, id, k) && Contains(ps[k].replies, id)
    ensures Outline(ps[k].replies, d + 1) == inPre + Outline([t], e) + inPost
    ensures pre == Outline(ps[..k], d) + [Line(d, Header(ps[k]))] + inPre
    ensures post == inPost + Outline(ps[k + 1..], d)
    ensures Outline(ps, d) == pre + Outline([t], e) + post
    ensures Outline(DeleteBelow(ps, id), d) == pre + post
    decreases ps, 0
  {
    k := FirstStop(ps, id);
    var p := ps[k];
    BelowHit(ps, id, k);
    var q := p.(replies := Delete(p.replies, id));
    inPre, t, e, inPost := DeleteOutline(p.replies, id, d + 1);
    OutlineCut(ps, k, q, d, inPre, Outline([t], e), inPost);
    pre, post := Outline(ps[..k], d) + [Line(d, Header(p))] + inPre, inPost + Outline(ps[k + 1..], d);
  }

  // ---------------------------------------------------------------------
  // pinPost

  /** Every post of the list with its pin cleared. */
  function Unpinned(ps: seq<Post>): (r: seq<Post>)
    ensures |r| == |ps|
    ensures forall k :: 0 <= k < |ps| ==> r[k] == ps[k].(isPinned := false)
  {
    if ps == [] then [] else [ps[0].(isPinned := false)] + Unpinned(ps[1..])
  }

  /** `posts.forEach(p => p.isPinned = false)`. */
  method UnpinAll(posts: seq<Post>) returns (result: seq<Post>)
    ensures result == Unpinned(posts)
  {
    result := posts;
    var j := 0;
    while j < |result|
      invariant 0 <= j <= |result| == |posts|
      invariant forall m :: 0 <= m < j ==> result[m] == posts[m].(isPinned := false)
      invariant forall m :: j <= m < |result| ==> result[m] == posts[m]
    {
      result := result[j := result[j].(isPinned := false)];
      j := j + 1;
    }
  }

  /** The top-level list after `pinPost`: when a top-level post has the id,
      every post is unpinned and the first such post takes the opposite of its
      former pin; replies are never searched. */
  function Pin(ps: seq<Post>, id: string): seq<Post>
  {
    var i := IndexOf(ps, PostId, id);
    if i == -1 then ps else Unpinned(ps)[i := ps[i].(isPinned := !ps[i].isPinned)]
  }

  /** The body of `pinPost` after the gate: the top-level `find`, then
      `forEach` clearing every pin, then the found post's flipped pin. */
  method PinIn(posts: seq<Post>, postId: string) returns (result: seq<Post>)
    ensures result == Pin(posts, postId)
  {
    result := posts;
    var idx := FindIndex(posts, PostId, postId);
    if idx != -1 {
      var wasPinned := posts[idx].isPinned;
      result := UnpinAll(posts);
      result := result[idx := result[idx].(isPinned := !wasPinned)];
    }
  }

  predicate AtMostOnePinned(ps: seq<Post>)
  {
    forall i, j :: 0 <= i < |ps| && 0 <= j < |ps| && ps[i].isPinned && ps[j].isPinned ==> i == j
  }

  /** Pinning an existing top-level post leaves at most one pinned post: the
      target, if it was not pinned, and none if it was; only pins change. */
  lemma PinOutcome(ps: seq<Post>, id: string)
    requires IndexOf(ps, PostId, id) != -1
    ensures |Pin(ps, id)| == |ps|
    ensures var i := IndexOf(ps, PostId, id); Pin(ps, id)[i] == ps[i].(isPinned := !ps[i].isPinned)
    ensures var i := IndexOf(ps, PostId, id);
      forall k :: 0 <= k < |ps| && k != i ==> Pin(ps, id)[k] == ps[k].(isPinned := false)
    ensures AtMostOnePinned(Pin(ps, id))
  {
    var i := IndexOf(ps, PostId, id);
    var r := Pin(ps, id);
    var u := Unpinned(ps);
    assert r == u[i := ps[i].(isPinned := !ps[i].isPinned)];
    forall k | 0 <= k < |r| && k != i ensures r[k] == ps[k].(isPinned := false) {
      assert r[k] == u[k];
    }
  }


  /** An id that is not a top-level post, a reply's id included, changes nothing. */
  lemma PinNotTopLevel(ps: seq<Post>, id: string)
    requires forall k :: 0 <= k < |ps| ==> ps[k].id != id
    ensures Pin(ps, id) == ps
  {
  }

  /** Pinning the same post twice clears every other pin and gives the post
      back its own former pin. */
  lemma PinTwice(ps: seq<Post>, id: string)
    requires IndexOf(ps, PostId, id) != -1
    ensures var i := IndexOf(ps, PostId, id); var r := Pin(Pin(ps, id), id);
      |r| == |ps| && r[i] == ps[i] &&
      forall k :: 0 <= k < |ps| && k != i ==> r[k] == ps[k].(isPinned := false)
  {
    var i := IndexOf(ps, PostId, id);
    var r := Pin(ps, id);
    PinOutcome(ps, id);
    PinFindsSame(ps, id);
    PinOutcome(r, id);
  }

  /** Pinning keeps every post's id, so a later search by id finds the same place. */
  lemma PinFindsSame(ps: seq<Post>, id: string)
    requires IndexOf(ps, PostId, id) != -1
    ensures IndexOf(Pin(ps, id), PostId, id) == IndexOf(ps, PostId, id)
  {
    var r := Pin(ps, id);
    PinOutcome(ps, id);
    assert forall k :: 0 <= k < |ps| ==> PostId(r[k]) == PostId(ps[k]);
    IndexOfSameKeys(r, ps, PostId, PostId, id);
  }

  /** The standing invariant survives any pin request. */
  lemma PinKeepsAtMostOne(ps: seq<Post>, id: string)
    requires AtMostOnePinned(ps)
    ensures AtMostOnePinned(Pin(ps, id))
  {
    if IndexOf(ps, PostId, id) != -1 {
      PinOutcome(ps, id);
    }
  }

  // ---------------------------------------------------------------------
  // The feed invariant every edit keeps

  /** A feed is well formed when at most one top-level post is pinned and
      no post or reply has two reactions from one user. */
  predicate PostsValid(ps: seq<Post>)
  {
    AtMostOnePinned(ps) && ReactionsUnique(ps)
  }

  /** The top-level list keeps its length and every post's pin. */
  predicate SamePins(a: seq<Post>, b: seq<Post>)
  {
    |a| == |b| && forall k :: 0 <= k < |a| ==> a[k].isPinned == b[k].isPinned
  }

  lemma {:induction false} AddReplyKeepsPins(ps: seq<Post>, parentId: string, reply: Post)
    ensures SamePins(ps, AddReply(ps, parentId, reply))
  {
    if ps != [] && ps[0].id != parentId && !Contains(ps[0].replies, parentId) {
      AddReplyKeepsPins(ps[1..], parentId, reply);
    }
  }

  lemma {:induction false} ReactKeepsPins(ps: seq<Post>, postId: string, userId: string, emoji: string)
    ensures SamePins(ps, React(ps, postId, userId, emoji))
  {
    if ps != [] && ps[0].id != postId && !Contains(ps[0].replies, postId) {
      ReactKeepsPins(ps[1..], postId, userId, emoji);
    }
  }

  lemma {:induction false} DeleteBelowKeepsPins(ps: seq<Post>, id: string)
    ensures SamePins(ps, DeleteBelow(ps, id))
  {
    if ps != [] && !Contains(ps[0].replies, id) {
      DeleteBelowKeepsPins(ps[1..], id);
    }
  }

  lemma SamePinsAtMostOne(a: seq<Post>, b: seq<Post>)
    requires SamePins(a, b) && AtMostOnePinned(a)
    ensures AtMostOnePinned(b)
  {
  }

  /** `addPost` keeps the feed well formed: the new post is unpinned and has
      no reactions and no replies. */
  lemma AddPostKeepsValid(ps: seq<Post>, post: Post)
    requires PostsValid(ps)
    requires post.replies == [] && post.reactions == [] && !post.isPinned
    ensures PostsValid(AddPost(ps, post))
  {
    AddPostNodes(ps, post);
    var r := AddPost(ps, post);
    forall a, b | 0 <= a < |r| && 0 <= b < |r| && r[a].isPinned && r[b].isPinned ensures a == b {
      assert r[a] == ps[a - 1] && r[b] == ps[b - 1];
    }
  }

  /** `addReply` keeps the feed well formed: the new reply has no reactions. */
  lemma AddReplyKeepsValid(ps: seq<Post>, parentId: string, reply: Post)
    requires PostsValid(ps)
    requires reply.replies == [] && reply.reactions == []
    ensures PostsValid(AddReply(ps, parentId, reply))
  {
    AddReplyKeepsPins(ps, parentId, reply);
    SamePinsAtMostOne(ps, AddReply(ps, parentId, reply));
    if Contains(ps, parentId) {
      var pre, t, post := AddReplyNodes(ps, parentId, reply);
      AppendedReplyNodes(t, reply);
      NodesSingle(reply);
      assert Nodes([reply]) == [reply];
      forall n | n in Nodes(AddReply(ps, parentId, reply)) ensures UniqueReactors(n.reactions) {
        if n != reply {
          assert n in Nodes(ps);
        }
      }
    } else {
      AddReplyAbsent(ps, parentId, reply);
    }
  }

  /** `react` keeps the feed well formed. */
  lemma ReactKeepsValid(ps: seq<Post>, postId: string, userId: string, emoji: string)
    requires PostsValid(ps)
    ensures PostsValid(React(ps, postId, userId, emoji))
  {
    ReactKeepsPins(ps, postId, userId, emoji);
    SamePinsAtMostOne(ps, React(ps, postId, userId, emoji));
    ReactKeepsUnique(ps, postId, userId, emoji);
  }

  /** Removing one top-level post keeps at most one pinned. */
  lemma RemoveAtKeepsAtMostOne(ps: seq<Post>, i: nat)
    requires i < |ps| && AtMostOnePinned(ps)
    ensures AtMostOnePinned(ps[..i] + ps[i + 1..])
  {
    var r := ps[..i] + ps[i + 1..];
    forall a, b | 0 <= a < |r| && 0 <= b < |r| && r[a].isPinned && r[b].isPinned ensures a == b {
      var a', b' := if a < i then a else a + 1, if b < i then b else b + 1;
      assert r[a] == ps[a'] && r[b] == ps[b'];
    }
  }

  /** `del` keeps the feed well formed: it only takes posts away. */
  lemma DeleteKeepsValid(ps: seq<Post>, id: string)
    requires PostsValid(ps)
    ensures PostsValid(Delete(ps, id))
  {
    if Contains(ps, id) {
      var pre, t, post := DeleteRemovesSubtree(ps, id);
      forall n | n in Nodes(Delete(ps, id)) ensures UniqueReactors(n.reactions) {
        assert n in Nodes(ps);
      }
      var i := IndexOf(ps, PostId, id);
      if i != -1 {
        RemoveAtKeepsAtMostOne(ps, i);
      } else {
        DeleteBelowKeepsPins(ps, id);
        SamePinsAtMostOne(ps, DeleteBelow(ps, id));
      }
    } else {
      DeleteAbsent(ps, id);
    }
  }

  /** Two top-level lists that differ only in their posts' pins carry the
      same reactions everywhere in the tree. */
  lemma {:induction false} PinsKeepReactionsUnique(a: seq<Post>, b: seq<Post>)
    requires |a| == |b|
    requires forall k :: 0 <= k < |a| ==> b[k] == a[k].(isPinned := b[k].isPinned)
    requires ReactionsUnique(a)
    ensures ReactionsUnique(b)
  {
    if a != [] {
      assert Nodes(a) == [Header(a[0])] + Nodes(a[0].replies) + Nodes(a[1..]);
      assert Nodes(b) == [Header(b[0])] + Nodes(b[0].replies) + Nodes(b[1..]);
      assert forall n :: n in Nodes(a[1..]) ==> n in Nodes(a);
      PinsKeepReactionsUnique(a[1..], b[1..]);
      assert Header(a[0]) in Nodes(a);
      forall n | n in Nodes(b) ensures UniqueReactors(n.reactions) {
        if n in Nodes(b[0].replies) {
          assert n in Nodes(a);
        }
      }
    }
  }

  /** `pinPost` keeps the feed well formed. */
  lemma PinKeepsValid(ps: seq<Post>, id: string)
    requires PostsValid(ps)
    ensures PostsValid(Pin(ps, id))
  {
    PinKeepsAtMostOne(ps, id);
    var r := Pin(ps, id);
    if IndexOf(ps, PostId, id) != -1 {
      PinOutcome(ps, id);
    }
    PinsKeepReactionsUnique(ps, r);
  }
}
