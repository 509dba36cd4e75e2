/** Restoring a channel as the sequence of actions the bot takes against
    the chat service: the answer to the selection, the topic change, and
    the messages and threads it posts, in order. */
module Replay {
  import opened Results
  import opened Model

  /** Where a message goes: the destination channel, or the thread opened
      on the post of the channel message at index `root`. */
  datatype Target = ChannelTarget | ThreadTarget(root: nat)

  /** One call against the chat service. `files` is absent for a post
      made without attachments. */
  datatype Action =
    | Respond(text: string)
    | SetTopic(topic: string)
    | Send(target: Target, text: string, files: Option<seq<MsgFile>>)
    | CreateThread(root: nat, name: string)

  const ThreadName: string := "Replies"

  /** Files are passed only when there are some. */
  function FilesArg(files: seq<MsgFile>): (r: Option<seq<MsgFile>>)
    ensures r.None? <==> files == []
    ensures r.Some? ==> r.value == files
  {
    if files == [] then None else Some(files)
  }

  function SendTo(target: Target, m: Message): Action {
    Send(target, m.ToText(), FilesArg(m.files))
  }

  // ---------------------------------------------------------------------
  // Sending one message
  // ---------------------------------------------------------------------

  /** The posts of a thread: each reply, in order, into the thread of the
      message at index `root`. */
  function ThreadPosts(replies: seq<Message>, root: nat): seq<Action> {
    if replies == [] then [] else [SendTo(ThreadTarget(root), replies[0])] + ThreadPosts(replies[1..], root)
  }

  /** The message at index `i` of the channel: nothing for a reply (it is
      posted inside its root's thread); otherwise the post into the
      channel, then, for a thread root, the thread and every reply in it. */
  function SendMessage(c: Channel, i: nat): (r: seq<Action>)
    requires i < |c.messages|
    ensures c.messages[i].isReply <==> r == []
  {
    var m := c.messages[i];
    if m.isReply then []
    else
      [SendTo(ChannelTarget, m)]
      + (if m.hasThread then [CreateThread(i, ThreadName)] + ThreadPosts(FindRepliesByMessage(c.messages, m), i) else [])
  }

  // ---------------------------------------------------------------------
  // Restoring a channel
  // ---------------------------------------------------------------------

  /** The concatenation of the blocks, in order. */
  function Flatten<T>(bs: seq<seq<T>>): seq<T> {
    if bs == [] then [] else Flatten(bs[..|bs| - 1]) + bs[|bs| - 1]
  }

  /** The block of every message of the channel, in stored order. */
  function Blocks(c: Channel): (bs: seq<seq<Action>>)
    ensures |bs| == |c.messages|
  {
    seq(|c.messages|, k requires 0 <= k < |c.messages| => SendMessage(c, k))
  }

  /** The actions for every message of the channel, in stored order. */
  function RestoreMessages(c: Channel): seq<Action> {
    Flatten(Blocks(c))
  }

  function RestoreNotice(source: string, dest: string): string {
    "Restore slack/#" + source + " -> discord/#" + dest
  }

  /** Restoring the channel with the given id into the destination channel
      named `dest`: the answer to the selection, the topic, then every
      message in stored order. Nothing happens for an unknown id, where the
      lookup yields no channel. */
  function Restore(channels: seq<Channel>, id: string, dest: string): (r: Option<seq<Action>>)
    ensures r.None? <==> forall k :: 0 <= k < |channels| ==> channels[k].id != id
  {
    match GetChannelById(channels, id)
    case None => None
    case Some(c) =>
      Some([Respond(RestoreNotice(c.name, dest)), SetTopic(c.topic)] + RestoreMessages(c))
  }

  // ---------------------------------------------------------------------
  // Concatenating blocks
  // ---------------------------------------------------------------------

  lemma FlattenStep<T>(bs: seq<seq<T>>, k: nat)
    requires k < |bs|
    ensures Flatten(bs[..k + 1]) == Flatten(bs[..k]) + bs[k]
  {
    assert bs[..k + 1][..k] == bs[..k];
  }

  /** The blocks before index `j` are flattened into a prefix of the
      blocks before any later index. */
  lemma {:induction false} FlattenPrefix<T>(bs: seq<seq<T>>, j: nat, k: nat)
    requires j <= k <= |bs|
    ensures Flatten(bs[..j]) <= Flatten(bs[..k])
    decreases k
  {
    if j < k {
      FlattenPrefix(bs, j, k - 1);
      FlattenStep(bs, k - 1);
    }
  }

  /** The blocks before index `k`, then block `k`, begin the whole. */
  lemma FlattenBlockPrefix<T>(bs: seq<seq<T>>, k: nat)
    requires k < |bs|
    ensures Flatten(bs[..k]) + bs[k] <= Flatten(bs)
  {
    FlattenPrefix(bs, k + 1, |bs|);
    FlattenStep(bs, k);
    assert bs[..|bs|] == bs;
  }

  /** An element occurs in the concatenation exactly when it occurs in
      one of the blocks. */
  lemma {:induction false} FlattenMember<T>(bs: seq<seq<T>>, x: T)
    ensures x in Flatten(bs) <==> exists k :: 0 <= k < |bs| && x in bs[k]
    decreases |bs|
  {
    if bs != [] {
      var n := |bs| - 1;
      var init := bs[..n];
      FlattenMember(init, x);
      if x in Flatten(bs) && x !in bs[n] {
        var k :| 0 <= k < |init| && x in init[k];
        assert x in bs[k];
      }
      if exists k :: 0 <= k < |bs| && x in bs[k] {
        var k :| 0 <= k < |bs| && x in bs[k];
        if k < n {
          assert x in init[k];
        }
      }
    }
  }

  // ---------------------------------------------------------------------
  // Properties of a restore
  // ---------------------------------------------------------------------

  predicate IsRoot(m: Message) {
    !m.isReply
  }

  function ChannelPostOf(m: Message): Action {
    SendTo(ChannelTarget, m)
  }

  /** The posts into the destination channel itself, in order. */
  function ChannelPosts(acts: seq<Action>): seq<Action> {
    if acts == [] then []
    else (if acts[0].Send? && acts[0].target == ChannelTarget then [acts[0]] else []) + ChannelPosts(acts[1..])
  }

  /** The posts into the thread of the message at index `root`, in order. */
  function PostsInto(acts: seq<Action>, root: nat): seq<Action> {
    if acts == [] then []
    else (if acts[0].Send? && acts[0].target == ThreadTarget(root) then [acts[0]] else []) + PostsInto(acts[1..], root)
  }

  /** One channel post for each message that is not a reply, in order. */
  function RootPosts(ms: seq<Message>): seq<Action> {
    if ms == [] then [] else (if IsRoot(ms[0]) then [ChannelPostOf(ms[0])] else []) + RootPosts(ms[1..])
  }

  /** Filtering a concatenation `ab` of `a` and `b` filters each part. */
  lemma ChannelPostsAppend(a: seq<Action>, b: seq<Action>, ab: seq<Action>)
    requires ab == a + b
    ensures ChannelPosts(ab) == ChannelPosts(a) + ChannelPosts(b)
  {
    ChannelPostsConcat(a, b);
  }

  lemma {:induction false} ChannelPostsConcat(a: seq<Action>, b: seq<Action>)
    ensures ChannelPosts(a + b) == ChannelPosts(a) + ChannelPosts(b)
    decreases |a|
  {
    if a == [] {
      assert a + b == b;
    } else {
      assert (a + b)[0] == a[0];
      assert (a + b)[1..] == a[1..] + b;
      ChannelPostsConcat(a[1..], b);
    }
  }

  lemma PostsIntoAppend(a: seq<Action>, b: seq<Action>, ab: seq<Action>, root: nat)
    requires ab == a + b
    ensures PostsInto(ab, root) == PostsInto(a, root) + PostsInto(b, root)
  {
    PostsIntoConcat(a, b, root);
  }

  lemma {:induction false} PostsIntoConcat(a: seq<Action>, b: seq<Action>, root: nat)
    ensures PostsInto(a + b, root) == PostsInto(a, root) + PostsInto(b, root)
    decreases |a|
  {
    if a == [] {
      assert a + b == b;
    } else {
      assert (a + b)[0] == a[0];
      assert (a + b)[1..] == a[1..] + b;
      PostsIntoConcat(a[1..], b, root);
    }
  }

  lemma RootPostsAppend(a: seq<Message>, b: seq<Message>, ab: seq<Message>)
    requires ab == a + b
    ensures RootPosts(ab) == RootPosts(a) + RootPosts(b)
  {
    RootPostsConcat(a, b);
  }

  lemma {:induction false} RootPostsConcat(a: seq<Message>, b: seq<Message>)
    ensures RootPosts(a + b) == RootPosts(a) + RootPosts(b)
    decreases |a|
  {
    if a == [] {
      assert a + b == b;
    } else {
      assert (a + b)[0] == a[0];
      assert (a + b)[1..] == a[1..] + b;
      var head := if IsRoot(a[0]) then [ChannelPostOf(a[0])] else [];
      assert RootPosts(a + b) == head + RootPosts(a[1..] + b);
      assert RootPosts(a) == head + RootPosts(a[1..]);
      RootPostsConcat(a[1..], b);
    }
  }

  /** A thread's posts go to that thread and nowhere else. */
  lemma {:induction false} ThreadPostsTargets(replies: seq<Message>, root: nat, other: nat)
    ensures ChannelPosts(ThreadPosts(replies, root)) == []
    ensures PostsInto(ThreadPosts(replies, root), root) == ThreadPosts(replies, root)
    ensures other != root ==> PostsInto(ThreadPosts(replies, root), other) == []
    ensures CreateThread(other, ThreadName) !in ThreadPosts(replies, root)
    ensures forall a | a in ThreadPosts(replies, root) :: a.Send?
    decreases |replies|
  {
    if replies != [] {
      var posts := ThreadPosts(replies, root);
      ThreadPostsTargets(replies[1..], root, other);
      assert posts == [posts[0]] + ThreadPosts(replies[1..], root);
    }
  }

  /** The posts of message `i`'s thread, or none when it opens no thread. */
  function ThreadOf(c: Channel, i: nat): seq<Action>
    requires i < |c.messages|
  {
    if IsRoot(c.messages[i]) && c.messages[i].hasThread
    then ThreadPosts(FindRepliesByTs(c.messages, c.messages[i].threadTs), i)
    else []
  }

  /** A message's block: nothing for a reply; else its channel post, then
      for a thread root the thread and its posts. */
  lemma SendMessageParts(c: Channel, k: nat)
    requires k < |c.messages|
    ensures IsRoot(c.messages[k]) && c.messages[k].hasThread ==>
              SendMessage(c, k) == [ChannelPostOf(c.messages[k])] + ([CreateThread(k, ThreadName)] + ThreadOf(c, k))
    ensures IsRoot(c.messages[k]) && !c.messages[k].hasThread ==> SendMessage(c, k) == [ChannelPostOf(c.messages[k])]
    ensures !IsRoot(c.messages[k]) ==> SendMessage(c, k) == []
  {
  }

  /** What the channel itself receives from message `k`'s block. */
  lemma ChannelPostsOfMessage(c: Channel, k: nat)
    requires k < |c.messages|
    ensures ChannelPosts(SendMessage(c, k)) == RootPosts([c.messages[k]])
  {
    var m := c.messages[k];
    SendMessageParts(c, k);
    if IsRoot(m) && m.hasThread {
      var rest := [CreateThread(k, ThreadName)] + ThreadOf(c, k);
      ChannelPostsAppend([ChannelPostOf(m)], rest, SendMessage(c, k));
      ChannelPostsAppend([CreateThread(k, ThreadName)], ThreadOf(c, k), rest);
      ThreadPostsTargets(FindRepliesByTs(c.messages, m.threadTs), k, k);
    }
  }

  /** What the thread of message `i` receives from message `k`'s block. */
  lemma PostsIntoOfMessage(c: Channel, i: nat, k: nat)
    requires i < |c.messages| && k < |c.messages|
    ensures PostsInto(SendMessage(c, k), i) == if k == i then ThreadOf(c, i) else []
  {
    var m := c.messages[k];
    SendMessageParts(c, k);
    if IsRoot(m) && m.hasThread {
      var rest := [CreateThread(k, ThreadName)] + ThreadOf(c, k);
      PostsIntoAppend([ChannelPostOf(m)], rest, SendMessage(c, k), i);
      PostsIntoAppend([CreateThread(k, ThreadName)], ThreadOf(c, k), rest, i);
      ThreadPostsTargets(FindRepliesByTs(c.messages, m.threadTs), k, i);
    }
  }

  /** Joins the filtered parts of a step: `t` can come from the prefix or
      from the new block, never from both. */
  lemma JoinCases<T>(x: seq<T>, y: seq<T>, z: seq<T>, t: seq<T>, inPrefix: bool, inBlock: bool)
    requires z == x + y && !(inPrefix && inBlock)
    requires x == (if inPrefix then t else []) && y == (if inBlock then t else [])
    ensures z == if inPrefix || inBlock then t else []
  {
    if inPrefix {
      assert z == t + [];
    } else {
      assert z == [] + y;
    }
  }

  /** A block creates a thread only for its own message, and only when
      that message is a thread root. */
  lemma CreateThreadInBlock(c: Channel, j: nat, k: nat, name: string)
    requires j < |c.messages|
    ensures CreateThread(k, name) in SendMessage(c, j)
            <==> k == j && IsRoot(c.messages[j]) && c.messages[j].hasThread && name == ThreadName
  {
    var m := c.messages[j];
    SendMessageParts(c, j);
    if IsRoot(m) && m.hasThread {
      var posts := ThreadOf(c, j);
      ThreadPostsTargets(FindRepliesByTs(c.messages, m.threadTs), j, k);
      assert CreateThread(k, name) in SendMessage(c, j)
             <==> CreateThread(k, name) == CreateThread(j, ThreadName) || CreateThread(k, name) in posts;
    }
  }

  lemma PrefixSplit<T>(before: seq<T>, block: seq<T>, head: seq<T>, tail: seq<T>, all: seq<T>)
    requires before + block <= all && block == head + tail
    ensures before + head + tail <= all
  {
    assert before + head + tail == before + block;
  }

  /** Every action of a block is a post or a thread creation. */
  lemma BlockKinds(c: Channel, k: nat)
    requires k < |c.messages|
    ensures forall a | a in SendMessage(c, k) :: a.Send? || a.CreateThread?
  {
    var m := c.messages[k];
    SendMessageParts(c, k);
    if IsRoot(m) && m.hasThread {
      ThreadPostsTargets(FindRepliesByTs(c.messages, m.threadTs), k, k);
    }
  }

  /** The channel receives, from the concatenated blocks, one post per
      message that is not a reply, when each block brings its own. */
  lemma {:induction false} ChannelPostsFlatten(bs: seq<seq<Action>>, ms: seq<Message>)
    requires |bs| == |ms|
    requires forall k :: 0 <= k < |bs| ==> ChannelPosts(bs[k]) == RootPosts([ms[k]])
    ensures ChannelPosts(Flatten(bs)) == RootPosts(ms)
    decreases |bs|
  {
    if bs != [] {
      var n := |bs| - 1;
      ChannelPostsFlatten(bs[..n], ms[..n]);
      ChannelPostsAppend(Flatten(bs[..n]), bs[n], Flatten(bs));
      assert ms == ms[..n] + [ms[n]];
      RootPostsAppend(ms[..n], [ms[n]], ms);
    }
  }

  /** The thread of `root` receives `t` from the concatenated blocks when
      the block at `root` brings `t` and every other block brings nothing. */
  lemma {:induction false} PostsIntoFlatten(bs: seq<seq<Action>>, root: nat, t: seq<Action>)
    requires forall k :: 0 <= k < |bs| ==> PostsInto(bs[k], root) == if k == root then t else []
    ensures PostsInto(Flatten(bs), root) == if root < |bs| then t else []
    decreases |bs|
  {
    if bs != [] {
      var n := |bs| - 1;
      PostsIntoFlatten(bs[..n], root, t);
      PostsIntoAppend(Flatten(bs[..n]), bs[n], Flatten(bs), root);
      JoinCases(PostsInto(Flatten(bs[..n]), root), PostsInto(bs[n], root), PostsInto(Flatten(bs), root),
                t, root < n, root == n);
    }
  }

  /** The channel receives the messages that are not replies, one post
      each, in stored order. */
  lemma RestoreChannelPosts(c: Channel)
    ensures ChannelPosts(RestoreMessages(c)) == RootPosts(c.messages)
  {
    var bs := Blocks(c);
    forall k | 0 <= k < |bs|
      ensures ChannelPosts(bs[k]) == RootPosts([c.messages[k]])
    {
      ChannelPostsOfMessage(c, k);
    }
    ChannelPostsFlatten(bs, c.messages);
  }

  /** The thread of message `i` receives the replies of its thread, one
      post each, in stored order; nothing is posted into a thread for a
      message that is a reply or has no thread. */
  lemma RestoreThreadPosts(c: Channel, i: nat)
    requires i < |c.messages|
    ensures PostsInto(RestoreMessages(c), i) == ThreadOf(c, i)
  {
    var bs := Blocks(c);
    forall k | 0 <= k < |bs|
      ensures PostsInto(bs[k], i) == if k == i then ThreadOf(c, i) else []
    {
      PostsIntoOfMessage(c, i, k);
    }
    PostsIntoFlatten(bs, i, ThreadOf(c, i));
  }

  /** A thread is created exactly for the messages that are thread roots
      and not replies, always under the same name. */
  lemma ThreadCreatedIff(c: Channel, k: nat, name: string)
    ensures CreateThread(k, name) in RestoreMessages(c)
            <==> k < |c.messages| && IsRoot(c.messages[k]) && c.messages[k].hasThread && name == ThreadName
  {
    var bs := Blocks(c);
    var x := CreateThread(k, name);
    FlattenMember(bs, x);
    if x in RestoreMessages(c) {
      var j :| 0 <= j < |bs| && x in bs[j];
      CreateThreadInBlock(c, j, k, name);
    }
    if k < |c.messages| && IsRoot(c.messages[k]) && c.messages[k].hasThread && name == ThreadName {
      CreateThreadInBlock(c, k, k, name);
      assert x in bs[k];
    }
  }

  /** A thread root's post is followed directly by the creation of its
      thread and then by the posts of its replies, right after the actions
      for the messages before it. */
  lemma ThreadFollowsRoot(c: Channel, k: nat)
    requires k < |c.messages| && IsRoot(c.messages[k]) && c.messages[k].hasThread
    ensures Flatten(Blocks(c)[..k]) + [ChannelPostOf(c.messages[k]), CreateThread(k, ThreadName)] + ThreadOf(c, k)
            <= RestoreMessages(c)
  {
    var head := [ChannelPostOf(c.messages[k]), CreateThread(k, ThreadName)];
    SendMessageParts(c, k);
    BlockSplitPrefix(Blocks(c), k, head, ThreadOf(c, k));
  }

  lemma BlockSplitPrefix<T>(bs: seq<seq<T>>, k: nat, head: seq<T>, tail: seq<T>)
    requires k < |bs| && bs[k] == head + tail
    ensures Flatten(bs[..k]) + head + tail <= Flatten(bs)
  {
    FlattenBlockPrefix(bs, k);
    PrefixSplit(Flatten(bs[..k]), bs[k], head, tail, Flatten(bs));
  }

  /** Every action after the opening is a post or a thread creation. */
  lemma RestoreMessagesKinds(c: Channel)
    ensures forall a | a in RestoreMessages(c) :: a.Send? || a.CreateThread?
  {
    var bs := Blocks(c);
    forall a | a in RestoreMessages(c)
      ensures a.Send? || a.CreateThread?
    {
      FlattenMember(bs, a);
      var j :| 0 <= j < |bs| && a in bs[j];
      BlockKinds(c, j);
    }
  }

  /** A restore starts with the answer to the selection and the topic, and
      does neither again: everything after is a post or a thread. */
  lemma RestoreOpening(channels: seq<Channel>, id: string, dest: string)
    requires Restore(channels, id, dest).Some?
    ensures var r := Restore(channels, id, dest).value;
            var c := GetChannelById(channels, id).value;
            |r| >= 2 && r[0] == Respond(RestoreNotice(c.name, dest)) && r[1] == SetTopic(c.topic)
            && forall j :: 2 <= j < |r| ==> r[j].Send? || r[j].CreateThread?
  {
    var c := GetChannelById(channels, id).value;
    var rest := RestoreMessages(c);
    var r := Restore(channels, id, dest).value;
    RestoreMessagesKinds(c);
    assert r == [Respond(RestoreNotice(c.name, dest)), SetTopic(c.topic)] + rest;
    forall j | 2 <= j < |r|
      ensures r[j].Send? || r[j].CreateThread?
    {
      assert r[j] == rest[j - 2];
    }
  }

  /** A channel holding a thread root, one reply to it and a plain message
      is restored as: the answer, the topic, the root's post, its thread,
      the reply inside the thread, and the plain message's post. */
  lemma RestoreThreadScenario(c: Channel, dest: string)
    requires |c.messages| == 3
    requires IsRoot(c.messages[0]) && c.messages[0].hasThread
    requires c.messages[1].isReply && c.messages[1].threadTs == c.messages[0].threadTs
    requires IsRoot(c.messages[2]) && !c.messages[2].hasThread
    ensures Restore([c], c.id, dest)
            == Some([Respond(RestoreNotice(c.name, dest)), SetTopic(c.topic),
                     SendTo(ChannelTarget, c.messages[0]), CreateThread(0, ThreadName),
                     SendTo(ThreadTarget(0), c.messages[1]),
                     SendTo(ChannelTarget, c.messages[2])])
  {
    var ms := c.messages;
    var bs := Blocks(c);
    ScenarioThread(c);
    SendMessageParts(c, 0);
    SendMessageParts(c, 1);
    SendMessageParts(c, 2);
    FlattenThree(bs);
    var acts := [SendTo(ChannelTarget, ms[0]), CreateThread(0, ThreadName), SendTo(ThreadTarget(0), ms[1]),
                 SendTo(ChannelTarget, ms[2])];
    assert RestoreMessages(c) == acts;
    var opening := [Respond(RestoreNotice(c.name, dest)), SetTopic(c.topic)];
    assert GetChannelById([c], c.id) == Some(c);
    assert Restore([c], c.id, dest) == Some(opening + acts);
    assert opening + acts == [opening[0], opening[1], acts[0], acts[1], acts[2], acts[3]];
  }

  /** In that channel the root's thread holds exactly the one reply. */
  lemma ScenarioThread(c: Channel)
    requires |c.messages| == 3
    requires IsRoot(c.messages[0]) && c.messages[0].hasThread
    requires c.messages[1].isReply && c.messages[1].threadTs == c.messages[0].threadTs
    requires IsRoot(c.messages[2])
    ensures ThreadOf(c, 0) == [SendTo(ThreadTarget(0), c.messages[1])]
  {
    var ms := c.messages;
    assert FindRepliesByTs(ms[2..], ms[0].threadTs) == [];
    assert FindRepliesByTs(ms[1..], ms[0].threadTs) == [ms[1]];
    assert FindRepliesByTs(ms, ms[0].threadTs) == [ms[1]];
    assert ThreadPosts([ms[1]], 0) == [SendTo(ThreadTarget(0), ms[1])] + ThreadPosts([], 0);
  }

  lemma FlattenThree<T>(bs: seq<seq<T>>)
    requires |bs| == 3
    ensures Flatten(bs) == bs[0] + bs[1] + bs[2]
  {
    assert bs[..0] == [];
    FlattenStep(bs, 0);
    FlattenStep(bs, 1);
    FlattenStep(bs, 2);
    assert bs[..3] == bs;
  }
}
