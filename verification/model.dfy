/** The in-memory model of an export: users, channels, messages, their
    hosted files and link attachments, the registries' lookups, and the
    rendering of a message as target-platform text. */
module Model {
  import opened Results
  import opened Text

  // ---------------------------------------------------------------------
  // Missing keys
  // ---------------------------------------------------------------------

  /** A record lacked a key that the code reads unconditionally. */
  datatype ParseError = MissingKey(key: string)

  function Field<T>(o: Option<T>, key: string): (r: Result<T, ParseError>)
    ensures o.Some? ==> r == Ok(o.value)
    ensures o.None? ==> r == Err(MissingKey(key))
  {
    match o
    case Some(v) => Ok(v)
    case None => Err(MissingKey(key))
  }

  // ---------------------------------------------------------------------
  // Users
  // ---------------------------------------------------------------------

  /** The `profile` object of a user record. */
  datatype RawProfile = RawProfile(displayName: Option<string>, realName: Option<string>)

  /** A user record as the users index carries it; every key may be absent. */
  datatype RawUser = RawUser(id: Option<string>, name: Option<string>, profile: Option<RawProfile>)

  datatype User = User(id: string, name: string, displayName: string, realName: string)

  /** The key whose absence stops the load of a user record, in the
      order `id`, `name`, `profile`, `display_name`, `real_name`; nothing
      when the record has them all. */
  function UserMissingKey(raw: RawUser): Option<string> {
    if raw.id.None? then Some("id")
    else if raw.name.None? then Some("name")
    else if raw.profile.None? then Some("profile")
    else if raw.profile.value.displayName.None? then Some("display_name")
    else if raw.profile.value.realName.None? then Some("real_name")
    else None
  }

  /** A user whose empty display name is replaced by the real name. */
  function MakeUser(raw: RawUser): (r: Result<User, ParseError>)
    ensures r.Err? <==> UserMissingKey(raw).Some?
    ensures r.Err? ==> r.error == MissingKey(UserMissingKey(raw).value)
    ensures r.Ok? ==>
              var u, given, full := r.value, raw.profile.value.displayName.value, raw.profile.value.realName.value;
              && u.id == raw.id.value && u.name == raw.name.value && u.realName == full
              && (given != "" ==> u.displayName == given)
              && (given == "" ==> u.displayName == full)
              && (u.displayName == "" <==> given == "" && full == "")
  {
    var id :- Field(raw.id, "id");
    var name :- Field(raw.name, "name");
    var profile :- Field(raw.profile, "profile");
    var displayName :- Field(profile.displayName, "display_name");
    var realName :- Field(profile.realName, "real_name");
    Ok(User(id, name, if displayName == "" then realName else displayName, realName))
  }

  /** Position of the first element satisfying `p`, if any. */
  function FirstIndex<T>(s: seq<T>, p: T -> bool): (r: Option<nat>)
    ensures r.None? ==> forall k :: 0 <= k < |s| ==> !p(s[k])
    ensures r.Some? ==> r.value < |s| && p(s[r.value]) && forall k :: 0 <= k < r.value ==> !p(s[k])
  {
    if s == [] then None
    else if p(s[0]) then Some(0)
    else match FirstIndex(s[1..], p)
      case None => None
      case Some(k) => Some(k + 1)
  }

  /** The first user with the given id, or nothing. */
  function GetUserById(users: seq<User>, id: string): (r: Option<User>)
    ensures r.None? <==> forall k :: 0 <= k < |users| ==> users[k].id != id
    ensures forall k :: 0 <= k < |users| && users[k].id == id && (forall j :: 0 <= j < k ==> users[j].id != id)
              ==> r == Some(users[k])
  {
    match FirstIndex(users, (u: User) => u.id == id)
    case None => None
    case Some(k) => Some(users[k])
  }

  /** The display name of the first user with the given id, or the empty
      string when no user has it. */
  function GetDisplayNameById(users: seq<User>, id: string): (r: string)
    ensures (forall k :: 0 <= k < |users| ==> users[k].id != id) ==> r == ""
    ensures forall k :: 0 <= k < |users| && users[k].id == id && (forall j :: 0 <= j < k ==> users[j].id != id)
              ==> r == users[k].displayName
  {
    match FirstIndex(users, (u: User) => u.id == id)
    case None => ""
    case Some(k) => users[k].displayName
  }

  // ---------------------------------------------------------------------
  // Hosted files and link attachments
  // ---------------------------------------------------------------------

  /** Where a downloaded file is kept: the file named `name` inside the
      directory `dir`. */
  datatype LocalPath = LocalPath(dir: string, name: string)

  /** A hosted file of a message, kept under the files directory by id. */
  datatype MsgFile = MsgFile(
    id: string,
    timestamp: int,
    name: string,
    mimetype: string,
    filetype: string,
    url: string,
    path: LocalPath)

  function MakeMsgFile(id: string, timestamp: int, name: string, mimetype: string,
                       filetype: string, url: string, filesDir: string): (f: MsgFile)
    ensures f.id == id && f.timestamp == timestamp && f.name == name
    ensures f.mimetype == mimetype && f.filetype == filetype && f.url == url
    ensures f.path.dir == filesDir && f.path.name == f.id
  {
    MsgFile(id, timestamp, name, mimetype, filetype, url, LocalPath(filesDir, id))
  }

  /** Each newline becomes a newline followed by the quote marker `> `. */
  function QuoteNewlines(s: string): string {
    if s == [] then []
    else (if s[0] == '\n' then "\n> " else [s[0]]) + QuoteNewlines(s[1..])
  }

  /** The text quoted as a block: a leading `> ` and one after each newline. */
  function Quote(s: string): string {
    "> " + QuoteNewlines(s)
  }

  /** `q` follows every newline with the quote marker. */
  predicate MarksEveryNewline(q: string) {
    forall i :: 0 <= i < |q| && q[i] == '\n' ==> i + 2 < |q| && q[i + 1] == '>' && q[i + 2] == ' '
  }

  lemma {:induction false} QuoteNewlinesMarks(s: string)
    ensures MarksEveryNewline(QuoteNewlines(s))
    decreases |s|
  {
    if s != [] {
      var head := if s[0] == '\n' then "\n> " else [s[0]];
      var rest := QuoteNewlines(s[1..]);
      QuoteNewlinesMarks(s[1..]);
      assert QuoteNewlines(s) == head + rest;
      forall i | |head| <= i < |head + rest|
        ensures (head + rest)[i] == rest[i - |head|]
      {
      }
    }
  }

  /** A quoted block starts with the marker and follows every newline with
      it. */
  lemma QuoteMarks(s: string)
    ensures StartsWith(Quote(s), "> ")
    ensures MarksEveryNewline(Quote(s))
  {
    var rest := QuoteNewlines(s);
    QuoteNewlinesMarks(s);
    forall i | 2 <= i < |"> " + rest|
      ensures ("> " + rest)[i] == rest[i - 2]
    {
    }
  }

  /** Removes the marker after each newline. */
  function UnquoteNewlines(q: string): string {
    if q == [] then []
    else if q[0] == '\n' && |q| >= 3 && q[1..3] == "> " then "\n" + UnquoteNewlines(q[3..])
    else [q[0]] + UnquoteNewlines(q[1..])
  }

  /** Removes the leading marker and the one after each newline. */
  function Unquote(q: string): string {
    if StartsWith(q, "> ") then UnquoteNewlines(q[2..]) else UnquoteNewlines(q)
  }

  lemma {:induction false} UnquoteQuoteNewlines(s: string)
    ensures UnquoteNewlines(QuoteNewlines(s)) == s
  {
    if s != [] {
      UnquoteQuoteNewlines(s[1..]);
      var q := QuoteNewlines(s);
      if s[0] == '\n' {
        assert q == "\n> " + QuoteNewlines(s[1..]);
        assert q[1..3] == "> ";
        assert q[3..] == QuoteNewlines(s[1..]);
      } else {
        assert q == [s[0]] + QuoteNewlines(s[1..]);
        assert q[1..] == QuoteNewlines(s[1..]);
      }
    }
  }

  /** Quoting loses nothing: the quoted block unquotes to the original. */
  lemma UnquoteQuote(s: string)
    ensures Unquote(Quote(s)) == s
  {
    var q := Quote(s);
    assert q[2..] == QuoteNewlines(s);
    UnquoteQuoteNewlines(s);
  }

  lemma {:induction false} QuoteNewlinesKeepsNewlineCount(s: string)
    ensures CountChar(QuoteNewlines(s), '\n') == CountChar(s, '\n')
  {
    if s != [] {
      var head := if s[0] == '\n' then "\n> " else [s[0]];
      CountCharAppend(head, QuoteNewlines(s[1..]), '\n');
      QuoteNewlinesKeepsNewlineCount(s[1..]);
      if s[0] == '\n' {
        assert CountChar(" ", '\n') == 0 by {
          assert " "[1..] == [];
        }
        assert CountChar("> ", '\n') == 0 by {
          assert "> "[1..] == " ";
        }
        assert "\n> "[1..] == "> ";
      } else {
        assert [s[0]][1..] == [];
      }
    }
  }

  /** A rich link preview: optional title, body text, optional URL. */
  datatype MsgAttachment = MsgAttachment(title: string, text: string, url: string) {

    /** The unquoted block: a bold title line when there is a title, a URL
        line when there is a URL, then the text. */
    function Assembled(): string {
      (if title != "" then "**" + title + "**\n" else "")
      + (if url != "" then url + "\n" else "")
      + text
    }

    /** The block as it is sent: quoted when there is text, bare otherwise. */
    function ToText(): string {
      if text != "" then Quote(Assembled()) else Assembled()
    }
  }

  /** Without text the block is not quoted: an optional bold title line and
      an optional URL line, and nothing at all when all three are empty. */
  lemma AttachmentWithoutText(a: MsgAttachment)
    requires a.text == ""
    ensures a.ToText() == (if a.title != "" then "**" + a.title + "**\n" else "")
                          + (if a.url != "" then a.url + "\n" else "")
    ensures a.title == "" && a.url == "" ==> a.ToText() == ""
  {
  }

  /** With text the whole block is quoted: it starts with the marker and
      every newline in it is followed by the marker. */
  lemma AttachmentWithTextIsQuoted(a: MsgAttachment)
    requires a.text != ""
    ensures StartsWith(a.ToText(), "> ")
    ensures MarksEveryNewline(a.ToText())
  {
    QuoteMarks(a.Assembled());
  }

  /** Quoting a block with text keeps its line structure and its content. */
  lemma AttachmentQuoteKeepsLines(a: MsgAttachment)
    requires a.text != ""
    ensures CountChar(a.ToText(), '\n') == CountChar(a.Assembled(), '\n')
    ensures Unquote(a.ToText()) == a.Assembled()
  {
    var s := a.Assembled();
    CountCharAppend("> ", QuoteNewlines(s), '\n');
    QuoteNewlinesKeepsNewlineCount(s);
    UnquoteQuote(s);
  }

  // ---------------------------------------------------------------------
  // Messages
  // ---------------------------------------------------------------------

  /** A parsed message. `date` is the display form of `ts`. */
  datatype Message = Message(
    kind: string,
    userId: string,
    userName: string,
    ts: string,
    date: string,
    text: string,
    files: seq<MsgFile>,
    attachments: seq<MsgAttachment>,
    threadTs: string,
    hasThread: bool,
    isReply: bool,
    replyCount: int,
    repliesTs: seq<string>)
  {
    /** The first line: bold author name and italic date in parentheses. */
    function Header(): string {
      "**" + userName + "** *(" + date + ")*\n"
    }

    /** The message as sent: header, body, then each attachment block on a
        new line, in list order. */
    function ToText(): string {
      Header() + text + RenderAttachments(attachments)
    }
  }

  /** A rendered message starts with its header and body, and is exactly
      that when it has no attachments. */
  lemma MessageToTextLayout(m: Message)
    ensures StartsWith(m.ToText(), m.Header() + m.text)
    ensures m.attachments == [] ==> m.ToText() == m.Header() + m.text
  {
    var head := m.Header() + m.text;
    assert m.ToText()[..|head|] == head;
    if m.attachments == [] {
      assert m.ToText() == head + "";
    }
  }

  /** Each block preceded by a newline, in order. */
  function JoinLines(blocks: seq<string>): string {
    if blocks == [] then "" else "\n" + blocks[0] + JoinLines(blocks[1..])
  }

  /** The text of each attachment, in order. */
  function AttachmentTexts(atts: seq<MsgAttachment>): (r: seq<string>)
    ensures |r| == |atts|
  {
    seq(|atts|, i requires 0 <= i < |atts| => atts[i].ToText())
  }

  /** Each attachment block preceded by a newline, in order. */
  function RenderAttachments(atts: seq<MsgAttachment>): string {
    JoinLines(AttachmentTexts(atts))
  }

  lemma {:induction false} JoinLinesAppend(blocks: seq<string>, b: string)
    ensures JoinLines(blocks + [b]) == JoinLines(blocks) + "\n" + b
    decreases |blocks|
  {
    if blocks == [] {
      assert blocks + [b] == [b];
      assert [b][1..] == [];
    } else {
      assert (blocks + [b])[0] == blocks[0];
      assert (blocks + [b])[1..] == blocks[1..] + [b];
      JoinLinesAppend(blocks[1..], b);
      assert ("\n" + blocks[0]) + (JoinLines(blocks[1..]) + ("\n" + b))
          == (("\n" + blocks[0]) + JoinLines(blocks[1..])) + ("\n" + b);
    }
  }

  lemma RenderAttachmentsAppend(atts: seq<MsgAttachment>, a: MsgAttachment)
    ensures RenderAttachments(atts + [a]) == RenderAttachments(atts) + "\n" + a.ToText()
  {
    assert AttachmentTexts(atts + [a]) == AttachmentTexts(atts) + [a.ToText()];
    JoinLinesAppend(AttachmentTexts(atts), a.ToText());
  }

  /** Each further attachment adds exactly a newline and its block at the
      end of the rendered message. */
  lemma MessageToTextAppendAttachment(m: Message, a: MsgAttachment)
    ensures m.(attachments := m.attachments + [a]).ToText() == m.ToText() + "\n" + a.ToText()
  {
    RenderAttachmentsAppend(m.attachments, a);
  }

  /** The message list with `m` appended at the end. */
  function AddMessage(messages: seq<Message>, m: Message): (r: seq<Message>)
    ensures |r| == |messages| + 1
    ensures r[..|messages|] == messages && r[|messages|] == m
  {
    messages + [m]
  }

  /** The first message with the given timestamp, or nothing. */
  function FindMessageByTs(messages: seq<Message>, ts: string): (r: Option<Message>)
    ensures r.None? <==> forall k :: 0 <= k < |messages| ==> messages[k].ts != ts
    ensures forall k :: 0 <= k < |messages| && messages[k].ts == ts && (forall j :: 0 <= j < k ==> messages[j].ts != ts)
              ==> r == Some(messages[k])
  {
    match FirstIndex(messages, (m: Message) => m.ts == ts)
    case None => None
    case Some(k) => Some(messages[k])
  }

  /** `m` is a reply inside the thread rooted at timestamp `threadTs`. */
  predicate IsReplyIn(m: Message, threadTs: string) {
    m.isReply && m.threadTs == threadTs
  }

  /** The replies of the thread `threadTs`, in stored order. */
  function FindRepliesByTs(messages: seq<Message>, threadTs: string): (r: seq<Message>)
    ensures forall m :: m in r <==> m in messages && IsReplyIn(m, threadTs)
    ensures |r| <= |messages|
  {
    if messages == [] then []
    else (if IsReplyIn(messages[0], threadTs) then [messages[0]] else [])
         + FindRepliesByTs(messages[1..], threadTs)
  }

  lemma {:induction false} FindRepliesByTsAppend(a: seq<Message>, b: seq<Message>, threadTs: string)
    ensures FindRepliesByTs(a + b, threadTs) == FindRepliesByTs(a, threadTs) + FindRepliesByTs(b, threadTs)
  {
    if a == [] {
      assert a + b == b;
    } else {
      assert (a + b)[1..] == a[1..] + b;
      FindRepliesByTsAppend(a[1..], b, threadTs);
    }
  }

  /** Appending a message extends the replies of its thread by that message
      at the end, and leaves every other thread's replies alone. */
  lemma FindRepliesAfterAdd(messages: seq<Message>, m: Message, threadTs: string)
    ensures FindRepliesByTs(AddMessage(messages, m), threadTs)
            == FindRepliesByTs(messages, threadTs) + (if IsReplyIn(m, threadTs) then [m] else [])
  {
    FindRepliesByTsAppend(messages, [m], threadTs);
  }

  /** The replies of a thread root, or none for a message without a thread. */
  function FindRepliesByMessage(messages: seq<Message>, root: Message): (r: seq<Message>)
    ensures !root.hasThread ==> r == []
    ensures root.hasThread ==> r == FindRepliesByTs(messages, root.threadTs)
  {
    if !root.hasThread || messages == [] then []
    else (if messages[0].threadTs == root.threadTs && messages[0].isReply then [messages[0]] else [])
         + FindRepliesByMessage(messages[1..], root)
  }

  // ---------------------------------------------------------------------
  // Channels
  // ---------------------------------------------------------------------

  /** The `topic` or `purpose` object of a channel record. */
  datatype RawTopic = RawTopic(value: Option<string>)

  /** A channel record as the channels index carries it; every key may be
      absent. */
  datatype RawChannel = RawChannel(
    id: Option<string>,
    name: Option<string>,
    topic: Option<RawTopic>,
    purpose: Option<RawTopic>,
    members: Option<seq<string>>)

  /** A channel: `members` holds the user found for each listed id, or
      nothing for an id no user has. */
  datatype Channel = Channel(
    id: string,
    name: string,
    topic: string,
    purpose: string,
    members: seq<Option<User>>,
    messages: seq<Message>)

  function LookupMembers(ids: seq<string>, users: seq<User>): (r: seq<Option<User>>)
    ensures |r| == |ids|
    ensures forall i :: 0 <= i < |ids| ==> r[i] == GetUserById(users, ids[i])
  {
    if ids == [] then [] else [GetUserById(users, ids[0])] + LookupMembers(ids[1..], users)
  }

  /** The key whose absence stops the load of a channel record, in the
      order `id`, `name`, `topic`, its `value`, `purpose`, its `value`;
      nothing when the record has them all. */
  function ChannelMissingKey(raw: RawChannel): Option<string> {
    if raw.id.None? then Some("id")
    else if raw.name.None? then Some("name")
    else if raw.topic.None? then Some("topic")
    else if raw.topic.value.value.None? then Some("value")
    else if raw.purpose.None? then Some("purpose")
    else if raw.purpose.value.value.None? then Some("value")
    else None
  }

  /** A channel as loaded: one member entry per listed id, in order, and
      no messages yet. */
  function MakeChannel(raw: RawChannel, users: seq<User>): (r: Result<Channel, ParseError>)
    ensures r.Err? <==> ChannelMissingKey(raw).Some?
    ensures r.Err? ==> r.error == MissingKey(ChannelMissingKey(raw).value)
    ensures r.Ok? ==> var c := r.value;
              && c.id == raw.id.value && c.name == raw.name.value
              && c.topic == raw.topic.value.value.value && c.purpose == raw.purpose.value.value.value
    ensures r.Ok? && raw.members.None? ==> r.value.members == []
    ensures r.Ok? && raw.members.Some? ==> r.value.members == LookupMembers(raw.members.value, users)
    ensures r.Ok? && raw.members.Some? ==> |r.value.members| == |raw.members.value|
    ensures r.Ok? && raw.members.Some? ==> forall i :: 0 <= i < |r.value.members| ==>
              (r.value.members[i].None? <==> forall k :: 0 <= k < |users| ==> users[k].id != raw.members.value[i])
    ensures r.Ok? && raw.members.Some? ==> forall i :: 0 <= i < |r.value.members| && r.value.members[i].Some? ==>
              r.value.members[i].value.id == raw.members.value[i]
    ensures r.Ok? ==> r.value.messages == []
  {
    var id :- Field(raw.id, "id");
    var name :- Field(raw.name, "name");
    var topic :- Field(raw.topic, "topic");
    var topicValue :- Field(topic.value, "value");
    var purpose :- Field(raw.purpose, "purpose");
    var purposeValue :- Field(purpose.value, "value");
    var members := if raw.members.Some? then LookupMembers(raw.members.value, users) else [];
    Ok(Channel(id, name, topicValue, purposeValue, members, []))
  }

  /** The channel with `m` appended to its messages; nothing else changes. */
  function AddChannelMessage(c: Channel, m: Message): (r: Channel)
    ensures r.messages == AddMessage(c.messages, m)
    ensures r.(messages := c.messages) == c
  {
    c.(messages := AddMessage(c.messages, m))
  }

  /** The first channel with the given id, or nothing. */
  function GetChannelById(channels: seq<Channel>, id: string): (r: Option<Channel>)
    ensures r.None? <==> forall k :: 0 <= k < |channels| ==> channels[k].id != id
    ensures forall k :: 0 <= k < |channels| && channels[k].id == id && (forall j :: 0 <= j < k ==> channels[j].id != id)
              ==> r == Some(channels[k])
  {
    match FirstIndex(channels, (c: Channel) => c.id == id)
    case None => None
    case Some(k) => Some(channels[k])
  }

  /** The name of the first channel with the given id; nothing for an
      unknown id, where the lookup yields no channel to take a name from. */
  function GetNameById(channels: seq<Channel>, id: string): (r: Option<string>)
    ensures r.None? <==> forall k :: 0 <= k < |channels| ==> channels[k].id != id
    ensures r.Some? ==> GetChannelById(channels, id).Some? && r.value == GetChannelById(channels, id).value.name
  {
    match GetChannelById(channels, id)
    case None => None
    case Some(c) => Some(c.name)
  }

  /** The channel names, in registry order. */
  function ChannelNames(channels: seq<Channel>): (r: seq<string>)
    ensures |r| == |channels|
    ensures forall i :: 0 <= i < |channels| ==> r[i] == channels[i].name
  {
    if channels == [] then [] else [channels[0].name] + ChannelNames(channels[1..])
  }
}
