/** Building the model from raw export records: the parse of one message
    record, the substitution of user and channel mentions, and the order in
    which a channel's day files and their records are appended. */
module SlackData {
  import opened Results
  import opened Text
  import opened Util
  import opened Model

  // ---------------------------------------------------------------------
  // Raw export records
  // ---------------------------------------------------------------------

  /** An entry of a message's `files` list; every key may be absent. */
  datatype RawFile = RawFile(
    id: Option<string>,
    timestamp: Option<int>,
    name: Option<string>,
    mimetype: Option<string>,
    filetype: Option<string>,
    urlPrivateDownload: Option<string>,
    mode: Option<string>)

  /** An entry of a message's `attachments` list. */
  datatype RawAttachment = RawAttachment(title: Option<string>, text: Option<string>, originalUrl: Option<string>)

  /** An entry of a thread root's `replies` list. */
  datatype RawReply = RawReply(ts: Option<string>)

  /** One message record of a day file; `kind` is the record's `type`. */
  datatype RawMessage = RawMessage(
    kind: Option<string>,
    user: Option<string>,
    botId: Option<string>,
    ts: Option<string>,
    text: Option<string>,
    files: Option<seq<RawFile>>,
    attachments: Option<seq<RawAttachment>>,
    threadTs: Option<string>,
    replyCount: Option<int>,
    replies: Option<seq<RawReply>>,
    parentUserId: Option<string>)

  /** The library text functions the parse relies on: HTML entity
      un-escaping, and the display form of a timestamp. */
  datatype Library = Library(unescape: string -> string, tsToDate: string -> string)

  /** The loaded registries and the directory downloaded files go to. */
  datatype Export = Export(users: seq<User>, channels: seq<Channel>, filesDir: string)


  // ---------------------------------------------------------------------
  // Mention substitution
  // ---------------------------------------------------------------------

  const UserMentionOpen: string := "<@"
  const ChannelMentionOpen: string := "<#"

  /** Replaces `<@id>` by `@display name`, one user after another in
      registry order. */
  function FillUsers(text: string, users: seq<User>): (r: string)
    ensures !Contains(text, UserMentionOpen) ==> r == text
    decreases |users|
  {
    if users == [] then text
    else
      var token := Token(UserMentionOpen, users[0].id);
      NoLongerPattern(text, UserMentionOpen, users[0].id + ">");
      FillUsers(ReplaceAll(text, token, "@" + users[0].displayName), users[1..])
  }

  /** Replaces `<#id>` by `#name`, one channel after another in registry
      order. */
  function FillChannels(text: string, channels: seq<Channel>): (r: string)
    ensures !Contains(text, ChannelMentionOpen) ==> r == text
    decreases |channels|
  {
    if channels == [] then text
    else
      var token := Token(ChannelMentionOpen, channels[0].id);
      NoLongerPattern(text, ChannelMentionOpen, channels[0].id + ">");
      FillChannels(ReplaceAll(text, token, "#" + channels[0].name), channels[1..])
  }

  /** A text without `p` holds no pattern that starts with `p`. */
  lemma NoLongerPattern(s: string, p: string, q: string)
    ensures !Contains(s, p) ==> !Contains(s, p + q)
  {
    if Contains(s, p + q) {
      ContainsPrefixOf(s, p, q);
    }
  }

  /** User mentions first, then channel mentions. */
  function FillReferences(text: string, users: seq<User>, channels: seq<Channel>): (r: string)
    ensures !Contains(text, UserMentionOpen) && !Contains(text, ChannelMentionOpen) ==> r == text
  {
    FillChannels(FillUsers(text, users), channels)
  }

  /** A pattern whose first character `a` lacks cannot start inside `a`. */
  lemma NoOccurrenceBefore(a: string, p: string, b: string)
    requires |p| > 0 && Lacks(a, p[0])
    ensures forall i :: 0 <= i < |a| ==> !OccursAt(a + p + b, p, i)
  {
    forall i | 0 <= i < |a|
      ensures !OccursAt(a + p + b, p, i)
    {
      assert (a + p + b)[i] == a[i];
    }
  }

  /** An id as the export writes them: no angle brackets. */
  predicate PlainId(id: string) {
    Lacks(id, '<') && Lacks(id, '>')
  }

  /** A mention token: the two-character opening `<@` or `<#`, the id,
      then `>`. */
  function Token(open: string, id: string): string {
    open + (id + ">")
  }

  /** In a text made of `a`, one token and `b`, where neither `a`, `b` nor
      the id holds `<`, the only `<` is the token's first character. */
  lemma OnlyTokenOpens(a: string, open: string, id: string, b: string, i: int)
    requires |open| == 2 && open[0] == '<' && open[1] != '<'
    requires Lacks(a, '<') && Lacks(id, '<') && Lacks(b, '<')
    requires 0 <= i < |a + Token(open, id) + b| && (a + Token(open, id) + b)[i] == '<'
    ensures i == |a|
  {
  }

  /** The first `>` after an id without one closes it. */
  lemma FirstClose(id: string, rest: string)
    requires Lacks(id, '>')
    ensures (id + ">" + rest)[|id|] == '>'
    ensures forall j :: 0 <= j < |id| ==> (id + ">" + rest)[j] != '>'
  {
  }

  /** Ids without `>` whose closed forms start alike are equal. */
  lemma ClosedIdPrefix(id: string, id2: string, b: string)
    requires Lacks(id, '>') && Lacks(id2, '>')
    requires id2 + ">" <= id + ">" + b
    ensures id2 == id
  {
    var x := id2 + ">";
    var y := id + ">" + b;
    FirstClose(id2, "");
    FirstClose(id, b);
    assert x == id2 + ">" + "";
    assert |id2| == |id|;
    assert id2 == x[..|id2|] && id == y[..|id|];
  }

  /** Such a text holds no other opening. */
  lemma OtherOpenAbsent(a: string, open: string, id: string, b: string, open2: string)
    requires |open| == 2 && open[0] == '<' && open[1] != '<'
    requires |open2| == 2 && open2[0] == '<' && open2[1] != open[1]
    requires Lacks(a, '<') && Lacks(id, '<') && Lacks(b, '<')
    ensures !Contains(a + Token(open, id) + b, open2)
  {
    var s := a + Token(open, id) + b;
    if Contains(s, open2) {
      var i :| 0 <= i <= |s| - |open2| && OccursAt(s, open2, i);
      assert s[i] == open2[0];
      OnlyTokenOpens(a, open, id, b, i);
    }
  }

  /** Such a text holds no token of the same kind for another plain id. */
  lemma OtherTokenAbsent(a: string, open: string, id: string, b: string, id2: string)
    requires |open| == 2 && open[0] == '<' && open[1] != '<'
    requires Lacks(a, '<') && Lacks(b, '<') && PlainId(id) && PlainId(id2) && id2 != id
    ensures !Contains(a + Token(open, id) + b, Token(open, id2))
  {
    var s := a + Token(open, id) + b;
    var p := Token(open, id2);
    if Contains(s, p) {
      var i :| 0 <= i <= |s| - |p| && OccursAt(s, p, i);
      assert s[i] == p[0] == '<';
      OnlyTokenOpens(a, open, id, b, i);
      assert s[|a| + 2..] == id + ">" + b;
      assert p[2..] == id2 + ">";
      assert s[|a|..|a| + |p|] == p;
      assert id2 + ">" <= id + ">" + b by {
        assert s[|a| + 2..|a| + |p|] == p[2..];
      }
      ClosedIdPrefix(id, id2, b);
    }
  }

  lemma LacksPrepend(c: char, s: string, x: char)
    requires c != x && Lacks(s, x)
    ensures Lacks([c] + s, x)
  {
    LacksConcat([c], s, x);
  }

  /** The one token in the text is replaced, and no `<` remains. */
  lemma TokenReplaced(a: string, open: string, id: string, b: string, replacement: string)
    requires |open| == 2 && open[0] == '<'
    requires Lacks(a, '<') && Lacks(b, '<') && Lacks(replacement, '<')
    ensures ReplaceAll(a + Token(open, id) + b, Token(open, id), replacement) == a + replacement + b
    ensures Lacks(a + replacement + b, '<')
  {
    var token := Token(open, id);
    NoOccurrenceBefore(a, token, b);
    ReplaceAllLeftmost(a, token, b, replacement);
    NotContainsWithoutChar(b, token, '<');
    LacksConcat(a, replacement, '<');
    LacksConcat(a + replacement, b, '<');
  }

  /** A mention of the user at index `k`, the first with its id, becomes
      `@` and that user's display name; the users before it find no token
      of theirs, the users after it find no `<` left. */
  lemma {:induction false} FillUsersMention(a: string, b: string, users: seq<User>, k: nat)
    requires k < |users|
    requires Lacks(a, '<') && Lacks(b, '<') && Lacks(users[k].displayName, '<') && PlainId(users[k].id)
    requires forall j :: 0 <= j < k ==> users[j].id != users[k].id && PlainId(users[j].id)
    ensures FillUsers(a + Token(UserMentionOpen, users[k].id) + b, users) == a + ("@" + users[k].displayName) + b
    ensures Lacks(a + ("@" + users[k].displayName) + b, '<')
    decreases k
  {
    var u := users[k];
    var text := a + Token(UserMentionOpen, u.id) + b;
    var after := a + ("@" + u.displayName) + b;
    LacksPrepend('@', u.displayName, '<');
    TokenReplaced(a, UserMentionOpen, u.id, b, "@" + u.displayName);
    if k == 0 {
      NotContainsWithoutChar(after, UserMentionOpen, '<');
      assert FillUsers(text, users) == FillUsers(after, users[1..]);
    } else {
      OtherTokenAbsent(a, UserMentionOpen, u.id, b, users[0].id);
      assert FillUsers(text, users) == FillUsers(text, users[1..]);
      assert users[1..][k - 1] == u;
      FillUsersMention(a, b, users[1..], k - 1);
    }
  }

  /** A mention of the channel at index `k`, the first with its id,
      becomes `#` and that channel's name. */
  lemma {:induction false} FillChannelsMention(a: string, b: string, channels: seq<Channel>, k: nat)
    requires k < |channels|
    requires Lacks(a, '<') && Lacks(b, '<') && Lacks(channels[k].name, '<') && PlainId(channels[k].id)
    requires forall j :: 0 <= j < k ==> channels[j].id != channels[k].id && PlainId(channels[j].id)
    ensures FillChannels(a + Token(ChannelMentionOpen, channels[k].id) + b, channels) == a + ("#" + channels[k].name) + b
    decreases k
  {
    var c := channels[k];
    var text := a + Token(ChannelMentionOpen, c.id) + b;
    var after := a + ("#" + c.name) + b;
    LacksPrepend('#', c.name, '<');
    TokenReplaced(a, ChannelMentionOpen, c.id, b, "#" + c.name);
    if k == 0 {
      NotContainsWithoutChar(after, ChannelMentionOpen, '<');
      assert FillChannels(text, channels) == FillChannels(after, channels[1..]);
    } else {
      OtherTokenAbsent(a, ChannelMentionOpen, c.id, b, channels[0].id);
      assert FillChannels(text, channels) == FillChannels(text, channels[1..]);
      assert channels[1..][k - 1] == c;
      FillChannelsMention(a, b, channels[1..], k - 1);
    }
  }

  /** In a text whose only `<` opens `<@id>`, where the user at index `k`
      is the first with that id, the mention becomes `@` and the user's
      display name and nothing else changes, whatever the channels. */
  lemma FillReferencesUserMention(a: string, b: string, users: seq<User>, k: nat, channels: seq<Channel>)
    requires k < |users|
    requires Lacks(a, '<') && Lacks(b, '<') && Lacks(users[k].displayName, '<') && PlainId(users[k].id)
    requires forall j :: 0 <= j < k ==> users[j].id != users[k].id && PlainId(users[j].id)
    ensures FillReferences(a + "<@" + users[k].id + ">" + b, users, channels) == a + "@" + users[k].displayName + b
  {
    var u := users[k];
    var after := a + ("@" + u.displayName) + b;
    assert a + "<@" + u.id + ">" + b == a + Token(UserMentionOpen, u.id) + b;
    FillUsersMention(a, b, users, k);
    NotContainsWithoutChar(after, ChannelMentionOpen, '<');
    assert after == a + "@" + u.displayName + b;
  }

  /** In a text whose only `<` opens `<#id>`, where the channel at index
      `k` is the first with that id, the mention becomes `#` and the
      channel's name and nothing else changes, whatever the users. */
  lemma FillReferencesChannelMention(a: string, b: string, users: seq<User>, channels: seq<Channel>, k: nat)
    requires k < |channels|
    requires Lacks(a, '<') && Lacks(b, '<') && Lacks(channels[k].name, '<') && PlainId(channels[k].id)
    requires forall j :: 0 <= j < k ==> channels[j].id != channels[k].id && PlainId(channels[j].id)
    ensures FillReferences(a + "<#" + channels[k].id + ">" + b, users, channels) == a + "#" + channels[k].name + b
  {
    var c := channels[k];
    var text := a + Token(ChannelMentionOpen, c.id) + b;
    assert a + "<#" + c.id + ">" + b == text;
    OtherOpenAbsent(a, ChannelMentionOpen, c.id, b, UserMentionOpen);
    assert FillUsers(text, users) == text;
    FillChannelsMention(a, b, channels, k);
    assert a + ("#" + c.name) + b == a + "#" + c.name + b;
  }

  // ---------------------------------------------------------------------
  // Hosted files, attachments and replies of one record
  // ---------------------------------------------------------------------

  const HostedMode: string := "hosted"

  /** A file entry the parse rejects: it has no `mode`, or it is hosted and
      lacks one of the keys read for hosted files. */
  predicate MalformedFile(raw: RawFile) {
    raw.mode.None?
    || (raw.mode == Some(HostedMode)
        && (raw.id.None? || raw.timestamp.None? || raw.name.None? || raw.mimetype.None?
            || raw.filetype.None? || raw.urlPrivateDownload.None?))
  }

  predicate IsHosted(raw: RawFile) {
    raw.mode == Some(HostedMode)
  }

  /** `f` is the hosted file entry `raw` turned into a message file: the
      mime type and the download URL lose their JSON slash escapes, and the
      file is kept under `filesDir` by its id. */
  predicate ConvertedFile(raw: RawFile, f: MsgFile, filesDir: string) {
    raw.id == Some(f.id) && raw.timestamp == Some(f.timestamp) && raw.name == Some(f.name)
    && raw.mimetype.Some? && f.mimetype == UrlUnescape(raw.mimetype.value)
    && raw.filetype == Some(f.filetype)
    && raw.urlPrivateDownload.Some? && f.url == UrlUnescape(raw.urlPrivateDownload.value)
    && f.path == LocalPath(filesDir, f.id)
  }

  /** One file entry: nothing for a file that is not hosted, the message
      file for a hosted one; keys are read in the order id, timestamp,
      name, mimetype, filetype, url_private_download. */
  function ParseFile(raw: RawFile, filesDir: string): (r: Result<Option<MsgFile>, ParseError>)
    ensures r.Err? <==> MalformedFile(raw)
    ensures r.Ok? && r.value.None? <==> !MalformedFile(raw) && !IsHosted(raw)
    ensures r.Ok? && r.value.Some? ==> IsHosted(raw) && ConvertedFile(raw, r.value.value, filesDir)
  {
    var mode :- Field(raw.mode, "mode");
    if mode != HostedMode then Ok(None)
    else
      var id :- Field(raw.id, "id");
      var timestamp :- Field(raw.timestamp, "timestamp");
      var name :- Field(raw.name, "name");
      var mimetype :- Field(raw.mimetype, "mimetype");
      var filetype :- Field(raw.filetype, "filetype");
      var url :- Field(raw.urlPrivateDownload, "url_private_download");
      Ok(Some(MakeMsgFile(id, timestamp, name, UrlUnescape(mimetype), filetype, UrlUnescape(url), filesDir)))
  }

  /** The hosted entries of a file list, in order. */
  function HostedFiles(raws: seq<RawFile>): (r: seq<RawFile>)
    ensures forall f :: f in r <==> f in raws && IsHosted(f)
  {
    if raws == [] then []
    else (if IsHosted(raws[0]) then [raws[0]] else []) + HostedFiles(raws[1..])
  }

  /** Selecting the hosted entries keeps their order and their copies: a
      single entry is kept exactly when it is hosted, and the selection of
      a concatenation is the concatenation of the selections. */
  lemma {:induction false} HostedFilesAppend(a: seq<RawFile>, b: seq<RawFile>)
    ensures HostedFiles(a + b) == HostedFiles(a) + HostedFiles(b)
    ensures |a| == 1 ==> HostedFiles(a) == (if IsHosted(a[0]) then a else [])
    decreases |a|
  {
    if a == [] {
      assert a + b == b;
    } else {
      assert (a + b)[0] == a[0];
      assert (a + b)[1..] == a[1..] + b;
      HostedFilesAppend(a[1..], b);
      if |a| == 1 {
        assert a[1..] == [];
      }
    }
  }

  /** A message's file list: the first malformed entry stops the parse;
      otherwise one message file per hosted entry, in list order. */
  function ParseFiles(raws: seq<RawFile>, filesDir: string): (r: Result<seq<MsgFile>, ParseError>)
    ensures r.Err? <==> exists i :: 0 <= i < |raws| && MalformedFile(raws[i])
    ensures r.Ok? ==> |r.value| == |HostedFiles(raws)|
    ensures r.Ok? ==> forall i :: 0 <= i < |r.value| ==> ConvertedFile(HostedFiles(raws)[i], r.value[i], filesDir)
    decreases |raws|
  {
    if raws == [] then Ok([])
    else
      var f :- ParseFile(raws[0], filesDir);
      var rest :- ParseFiles(raws[1..], filesDir);
      ConvertedPrepend(raws, f, rest, filesDir);
      Ok((if f.Some? then [f.value] else []) + rest)
  }

  /** The files of the first entry, then those of the rest, convert the
      hosted entries of the whole list. */
  lemma ConvertedPrepend(raws: seq<RawFile>, f: Option<MsgFile>, rest: seq<MsgFile>, filesDir: string)
    requires raws != []
    requires f.Some? ==> IsHosted(raws[0]) && ConvertedFile(raws[0], f.value, filesDir)
    requires f.None? ==> !IsHosted(raws[0])
    requires |rest| == |HostedFiles(raws[1..])|
    requires forall i :: 0 <= i < |rest| ==> ConvertedFile(HostedFiles(raws[1..])[i], rest[i], filesDir)
    ensures var fs := (if f.Some? then [f.value] else []) + rest;
            |fs| == |HostedFiles(raws)| && forall i :: 0 <= i < |fs| ==> ConvertedFile(HostedFiles(raws)[i], fs[i], filesDir)
  {
    var tail := HostedFiles(raws[1..]);
    assert HostedFiles(raws) == (if IsHosted(raws[0]) then [raws[0]] else []) + tail;
    if f.Some? {
      ConvertedCons(raws[0], f.value, tail, rest, filesDir);
    } else {
      assert [] + rest == rest && [] + tail == tail;
    }
  }

  /** A converted entry put in front of entries converted pointwise. */
  lemma ConvertedCons(h: RawFile, x: MsgFile, hs: seq<RawFile>, fs: seq<MsgFile>, filesDir: string)
    requires ConvertedFile(h, x, filesDir) && |hs| == |fs|
    requires forall i :: 0 <= i < |fs| ==> ConvertedFile(hs[i], fs[i], filesDir)
    ensures forall i :: 0 <= i < |fs| + 1 ==> ConvertedFile(([h] + hs)[i], ([x] + fs)[i], filesDir)
  {
    forall i | 0 <= i < |fs| + 1
      ensures ConvertedFile(([h] + hs)[i], ([x] + fs)[i], filesDir)
    {
      if i > 0 {
        assert ([h] + hs)[i] == hs[i - 1];
        assert ([x] + fs)[i] == fs[i - 1];
      }
    }
  }

  /** One link attachment. Its body is looked up under a key no export
      record carries, so it always starts out empty before the date macro
      rewrite, the mention substitution and the entity un-escaping. */
  function ParseAttachment(raw: RawAttachment, users: seq<User>, channels: seq<Channel>, lib: Library): (a: MsgAttachment)
    ensures raw.title.None? ==> a.title == ""
    ensures raw.title.Some? ==> a.title == raw.title.value
    ensures raw.originalUrl.None? ==> a.url == ""
    ensures raw.originalUrl.Some? ==> a.url == UrlUnescape(raw.originalUrl.value)
    ensures a.text == lib.unescape("")
  {
    var title := raw.title.GetOr("");
    assert !Contains("", DateMacroOpen);
    var text := lib.unescape(FillReferences(ModifyGooglecalDate(""), users, channels));
    var url := UrlUnescape(raw.originalUrl.GetOr(""));
    MsgAttachment(title, text, url)
  }

  function ParseAttachments(raws: seq<RawAttachment>, users: seq<User>, channels: seq<Channel>, lib: Library): (r: seq<MsgAttachment>)
    ensures |r| == |raws|
    ensures forall i :: 0 <= i < |raws| ==> r[i] == ParseAttachment(raws[i], users, channels, lib)
  {
    if raws == [] then [] else [ParseAttachment(raws[0], users, channels, lib)] + ParseAttachments(raws[1..], users, channels, lib)
  }

  /** The reply timestamps of a thread root, in list order; an entry
      without `ts` stops the parse. */
  function ParseReplies(raws: seq<RawReply>): (r: Result<seq<string>, ParseError>)
    ensures r.Err? <==> exists i :: 0 <= i < |raws| && raws[i].ts.None?
    ensures r.Err? ==> r.error == MissingKey("ts")
    ensures r.Ok? ==> |r.value| == |raws| && forall i :: 0 <= i < |raws| ==> raws[i].ts == Some(r.value[i])
  {
    if raws == [] then Ok([])
    else
      var ts :- Field(raws[0].ts, "ts");
      var rest :- ParseReplies(raws[1..]);
      Ok([ts] + rest)
  }

  // ---------------------------------------------------------------------
  // One message record
  // ---------------------------------------------------------------------

  /** A record the parse rejects with a missing key. */
  predicate MalformedMessage(raw: RawMessage) {
    raw.kind.None? || raw.ts.None? || raw.text.None?
    || (raw.files.Some? && exists i :: 0 <= i < |raw.files.value| && MalformedFile(raw.files.value[i]))
    || (raw.replyCount.Some?
        && (raw.replies.None? || exists i :: 0 <= i < |raw.replies.value| && raw.replies.value[i].ts.None?))
  }

  /** The author: the `user` key, else the `bot_id` key, else nobody. */
  function AuthorId(raw: RawMessage): (id: string)
    ensures raw.user.Some? ==> id == raw.user.value
    ensures raw.user.None? && raw.botId.Some? ==> id == raw.botId.value
    ensures raw.user.None? && raw.botId.None? ==> id == ""
  {
    if raw.user.Some? then raw.user.value
    else if raw.botId.Some? then raw.botId.value
    else ""
  }

  /** The reply timestamps of a record that carries `reply_count`; its
      `replies` list is then required. */
  function ParseThread(raw: RawMessage): (r: Result<seq<string>, ParseError>)
    ensures raw.replyCount.None? ==> r == Ok([])
    ensures raw.replyCount.Some? && raw.replies.None? ==> r == Err(MissingKey("replies"))
    ensures raw.replyCount.Some? && raw.replies.Some? ==> r == ParseReplies(raw.replies.value)
    ensures raw.replyCount.Some? && raw.replies.Some? ==>
              (r.Err? <==> exists i :: 0 <= i < |raw.replies.value| && raw.replies.value[i].ts.None?)
    ensures r.Err? ==> r.error == MissingKey("replies") || r.error == MissingKey("ts")
    ensures raw.replyCount.Some? && r.Ok? ==>
              && raw.replies.Some?
              && |r.value| == |raw.replies.value|
              && forall i :: 0 <= i < |r.value| ==> raw.replies.value[i].ts == Some(r.value[i])
  {
    if raw.replyCount.None? then Ok([])
    else
      var replies :- Field(raw.replies, "replies");
      ParseReplies(replies)
  }

  /** The message body: mentions substituted, entities un-escaped, and
      every backslash turned into a slash. */
  function MessageText(text: string, ex: Export, lib: Library): string {
    Replace(lib.unescape(FillReferences(text, ex.users, ex.channels)))
  }

  /** `m` is what the well-formed record `raw` becomes. */
  predicate ParsedFrom(raw: RawMessage, ex: Export, lib: Library, m: Message)
    requires !MalformedMessage(raw)
  {
    && m.kind == raw.kind.value
    && m.userId == AuthorId(raw)
    && m.userName == GetDisplayNameById(ex.users, m.userId)
    && m.ts == raw.ts.value
    && m.date == lib.tsToDate(m.ts)
    && m.text == MessageText(raw.text.value, ex, lib)
    && (raw.files.None? ==> m.files == [])
    && (raw.files.Some? ==>
          (|m.files| == |HostedFiles(raw.files.value)|
           && forall i :: 0 <= i < |m.files| ==> ConvertedFile(HostedFiles(raw.files.value)[i], m.files[i], ex.filesDir)))
    && (raw.attachments.None? ==> m.attachments == [])
    && (raw.attachments.Some? ==> m.attachments == ParseAttachments(raw.attachments.value, ex.users, ex.channels, lib))
    && (raw.threadTs.Some? ==> m.threadTs == raw.threadTs.value)
    && (raw.threadTs.None? ==> m.threadTs == "")
    && (m.hasThread <==> raw.replyCount.Some?)
    && (m.isReply <==> raw.parentUserId.Some?)
    && (raw.replyCount.Some? ==>
          (m.replyCount == raw.replyCount.value
           && |m.repliesTs| == |raw.replies.value|
           && forall i :: 0 <= i < |m.repliesTs| ==> raw.replies.value[i].ts == Some(m.repliesTs[i])))
    && (raw.replyCount.None? ==> m.replyCount == 0 && m.repliesTs == [])
  }

  /** One export record as a message. Keys are required in the order
      `type`, `ts`, `text`, the file entries, then `replies`; the first
      missing one is the error. */
  function ParseMessage(raw: RawMessage, ex: Export, lib: Library): (r: Result<Message, ParseError>)
    ensures r.Err? <==> MalformedMessage(raw)
    ensures raw.kind.None? ==> r == Err(MissingKey("type"))
    ensures raw.kind.Some? && raw.ts.None? ==> r == Err(MissingKey("ts"))
    ensures raw.kind.Some? && raw.ts.Some? && raw.text.None? ==> r == Err(MissingKey("text"))
    ensures r.Ok? ==> ParsedFrom(raw, ex, lib, r.value)
  {
    var kind :- Field(raw.kind, "type");
    var userId := AuthorId(raw);
    var userName := GetDisplayNameById(ex.users, userId);
    var ts :- Field(raw.ts, "ts");
    var text :- Field(raw.text, "text");
    var files :- if raw.files.Some? then ParseFiles(raw.files.value, ex.filesDir) else Ok([]);
    var attachments := if raw.attachments.Some? then ParseAttachments(raw.attachments.value, ex.users, ex.channels, lib) else [];
    var repliesTs :- ParseThread(raw);
    Ok(Message(kind, userId, userName, ts, lib.tsToDate(ts), MessageText(text, ex, lib), files, attachments,
               raw.threadTs.GetOr(""), raw.replyCount.Some?, raw.parentUserId.Some?, raw.replyCount.GetOr(0), repliesTs))
  }

  /** Having a thread and being a reply are read from independent keys:
      a record carrying both `reply_count` and `parent_user_id` is both. */
  lemma ParseFlagsIndependent(raw: RawMessage, ex: Export, lib: Library)
    requires !MalformedMessage(raw)
    requires raw.replyCount.Some? && raw.parentUserId.Some?
    ensures ParseMessage(raw, ex, lib).Ok?
    ensures ParseMessage(raw, ex, lib).value.hasThread && ParseMessage(raw, ex, lib).value.isReply
  {
  }

  /** An author id no user has (a bot, or no author at all) gets an empty
      name. */
  lemma UnknownAuthorHasEmptyName(raw: RawMessage, ex: Export, lib: Library)
    requires !MalformedMessage(raw)
    requires forall k :: 0 <= k < |ex.users| ==> ex.users[k].id != AuthorId(raw)
    ensures ParseMessage(raw, ex, lib).Ok?
    ensures ParseMessage(raw, ex, lib).value.userName == ""
  {
  }

  /** A body without mentions, entities or backslashes is kept as it is. */
  lemma PlainTextKept(t: string, ex: Export, lib: Library)
    requires !Contains(t, UserMentionOpen) && !Contains(t, ChannelMentionOpen)
    requires lib.unescape(t) == t && Lacks(t, '\\')
    ensures MessageText(t, ex, lib) == t
  {
    ReplaceFixedPoint(t);
  }

  /** Whatever the attachment record holds as its body, the parsed
      attachment's text is the un-escaping of the empty string; with an
      un-escaping that keeps the empty string empty, it is empty, and the
      rendered block is just the bold title and the URL. */
  lemma AttachmentTextAlwaysEmpty(raw: RawAttachment, users: seq<User>, channels: seq<Channel>, lib: Library)
    ensures ParseAttachment(raw, users, channels, lib).text == lib.unescape("")
    ensures forall t :: ParseAttachment(raw.(text := t), users, channels, lib) == ParseAttachment(raw, users, channels, lib)
    ensures lib.unescape("") == "" ==>
              ParseAttachment(raw, users, channels, lib).ToText()
              == (if raw.title.Some? && raw.title.value != "" then "**" + raw.title.value + "**\n" else "")
                 + (var url := UrlUnescape(raw.originalUrl.GetOr("")); if url != "" then url + "\n" else "")
  {
    assert !Contains("", DateMacroOpen);
    if lib.unescape("") == "" {
      AttachmentWithoutText(ParseAttachment(raw, users, channels, lib));
    }
  }

  // ---------------------------------------------------------------------
  // Day files of a channel
  // ---------------------------------------------------------------------

  /** A `.json` file in a channel's directory: its name and its records. */
  datatype DayFile = DayFile(name: string, records: seq<RawMessage>)

  /** The date pattern on a window of 15 characters: four digits, `-`,
      two digits, `-`, two digits, any character but a newline (the
      pattern's unescaped dot), then `json`. */
  predicate DayPattern(t: string) {
    |t| == 15
    && IsDigit(t[0]) && IsDigit(t[1]) && IsDigit(t[2]) && IsDigit(t[3])
    && t[4] == '-' && IsDigit(t[5]) && IsDigit(t[6])
    && t[7] == '-' && IsDigit(t[8]) && IsDigit(t[9])
    && t[10] != '\n' && t[11..] == "json"
  }

  predicate DayPatternAt(s: string, i: int) {
    0 <= i && i + 15 <= |s| && DayPattern(s[i..i + 15])
  }

  /** The pattern occurs anywhere in `s`: the search is not anchored. */
  predicate SearchDayPattern(s: string) {
    exists i | 0 <= i <= |s| - 15 :: DayPatternAt(s, i)
  }

  /** A file is read when its name ends in `.json` and the date pattern
      occurs somewhere in its full path, the channel directory included. */
  predicate IsDayFile(chpath: string, name: string) {
    EndsWith(name, ".json") && SearchDayPattern(chpath + "/" + name)
  }

  /** The pattern found in a piece of a path is found in the whole path. */
  lemma DayPatternInContext(a: string, s: string, b: string, i: int)
    requires DayPatternAt(s, i)
    ensures SearchDayPattern(a + s + b)
  {
    var w := a + s + b;
    assert w[|a| + i..|a| + i + 15] == s[i..i + 15];
    assert DayPatternAt(w, |a| + i);
  }

  predicate IsDigits(s: string, n: nat) {
    |s| == n && forall k :: 0 <= k < n ==> IsDigit(s[k])
  }

  lemma DayPatternOfParts(y: string, m: string, d: string, c: char)
    requires IsDigits(y, 4) && IsDigits(m, 2) && IsDigits(d, 2) && c != '\n'
    ensures DayPattern(y + "-" + m + "-" + d + [c] + "json")
  {
    var t := y + "-" + m + "-" + d + [c] + "json";
    assert t[..4] == y;
    assert t[5..7] == m;
    assert t[8..10] == d;
    assert t[11..] == "json";
  }

  /** A name made of any prefix, a window matching the pattern, and the
      `.json` extension is a day file. */
  lemma PatternNameAccepted(chpath: string, pre: string, core: string)
    requires DayPattern(core)
    ensures IsDayFile(chpath, pre + core + ".json")
  {
    var name := pre + core + ".json";
    assert core[0..15] == core;
    DayPatternInContext(chpath + "/" + pre, core, ".json", 0);
    assert chpath + "/" + pre + core + ".json" == chpath + "/" + name;
    assert name[|name| - 5..] == ".json";
  }

  /** The strict day name is accepted: `YYYY-MM-DD.json`. */
  lemma StrictDayNameAccepted(chpath: string, y: string, m: string, d: string)
    requires IsDigits(y, 4) && IsDigits(m, 2) && IsDigits(d, 2)
    ensures IsDayFile(chpath, y + "-" + m + "-" + d + ".json")
  {
    var name := y + "-" + m + "-" + d + ".json";
    DayPatternOfParts(y, m, d, '.');
    assert name == y + "-" + m + "-" + d + ['.'] + "json";
    assert name[0..15] == name;
    DayPatternInContext(chpath + "/", name, "", 0);
    assert chpath + "/" + name + "" == chpath + "/" + name;
    assert name[|name| - 5..] == ".json";
  }

  /** The search is not anchored: any prefix before a strict day name, and
      any character but a newline in place of its dot, are accepted too. */
  lemma LooseDayNameAccepted(chpath: string, pre: string, y: string, m: string, d: string, c: char)
    requires IsDigits(y, 4) && IsDigits(m, 2) && IsDigits(d, 2) && c != '\n'
    ensures IsDayFile(chpath, pre + y + "-" + m + "-" + d + [c] + "json.json")
  {
    var core := y + "-" + m + "-" + d + [c] + "json";
    DayPatternOfParts(y, m, d, c);
    PatternNameAccepted(chpath, pre, core);
    assert pre + core + ".json" == pre + y + "-" + m + "-" + d + [c] + "json.json";
  }

  /** A channel directory whose own path holds the date pattern makes
      every `.json` file in it a day file. */
  lemma PathPatternAcceptsAll(chpath: string, name: string)
    requires SearchDayPattern(chpath) && EndsWith(name, ".json")
    ensures IsDayFile(chpath, name)
  {
    var i :| 0 <= i <= |chpath| - 15 && DayPatternAt(chpath, i);
    DayPatternInContext("", chpath, "/" + name, i);
    assert "" + chpath + ("/" + name) == chpath + "/" + name;
  }

  /** A name without digits in a directory without digits is not read. */
  lemma NoDigitsRejected(chpath: string, name: string)
    requires forall k :: 0 <= k < |chpath| ==> !IsDigit(chpath[k])
    requires forall k :: 0 <= k < |name| ==> !IsDigit(name[k])
    ensures !IsDayFile(chpath, name)
  {
    var s := chpath + "/" + name;
    forall i | 0 <= i <= |s| - 15
      ensures !DayPatternAt(s, i)
    {
      assert s[i..i + 15][0] == s[i];
      if i < |chpath| {
        assert s[i] == chpath[i];
      } else if i > |chpath| {
        assert s[i] == name[i - |chpath| - 1];
      } else {
        assert s[i] == '/';
      }
    }
  }

  /** The day files of a directory listing, in listing order. */
  function DayFiles(chpath: string, listing: seq<DayFile>): (r: seq<DayFile>)
    ensures forall f :: f in r <==> f in listing && IsDayFile(chpath, f.name)
    ensures |r| <= |listing|
  {
    if listing == [] then []
    else (if IsDayFile(chpath, listing[0].name) then [listing[0]] else []) + DayFiles(chpath, listing[1..])
  }

  /** Ascending by name, in the code-point order of path comparison. */
  predicate SortedByName(fs: seq<DayFile>) {
    forall i, j :: 0 <= i < j < |fs| ==> LexLe(fs[i].name, fs[j].name)
  }

  /** Every name in `fs` is at least `b`. */
  predicate NamesAtLeast(b: string, fs: seq<DayFile>) {
    forall i :: 0 <= i < |fs| ==> LexLe(b, fs[i].name)
  }

  /** `f` placed before the first file whose name it does not exceed. */
  function InsertByName(f: DayFile, fs: seq<DayFile>): (r: seq<DayFile>)
    decreases |fs|
  {
    if fs == [] || LexLe(f.name, fs[0].name) then [f] + fs
    else [fs[0]] + InsertByName(f, fs[1..])
  }

  lemma {:induction false} InsertKeepsLowerBound(b: string, f: DayFile, fs: seq<DayFile>)
    requires NamesAtLeast(b, fs) && LexLe(b, f.name)
    ensures NamesAtLeast(b, InsertByName(f, fs))
    decreases |fs|
  {
    if fs == [] || LexLe(f.name, fs[0].name) {
      assert InsertByName(f, fs) == [f] + fs;
    } else {
      InsertKeepsLowerBound(b, f, fs[1..]);
      assert InsertByName(f, fs) == [fs[0]] + InsertByName(f, fs[1..]);
    }
  }

  lemma SortedCons(f: DayFile, fs: seq<DayFile>)
    requires SortedByName(fs) && NamesAtLeast(f.name, fs)
    ensures SortedByName([f] + fs)
  {
    forall i, j | 0 <= i < j < |[f] + fs|
      ensures LexLe(([f] + fs)[i].name, ([f] + fs)[j].name)
    {
      if i > 0 {
        assert ([f] + fs)[i] == fs[i - 1];
      }
      assert ([f] + fs)[j] == fs[j - 1];
    }
  }

  lemma {:induction false} InsertByNameSorted(f: DayFile, fs: seq<DayFile>)
    requires SortedByName(fs)
    ensures SortedByName(InsertByName(f, fs))
    ensures multiset(InsertByName(f, fs)) == multiset(fs) + multiset{f}
    decreases |fs|
  {
    if fs == [] || LexLe(f.name, fs[0].name) {
      if fs != [] {
        forall i | 0 <= i < |fs|
          ensures LexLe(f.name, fs[i].name)
        {
          if i > 0 {
            LexLeTransitive(f.name, fs[0].name, fs[i].name);
          }
        }
      }
      SortedCons(f, fs);
    } else {
      var tail := fs[1..];
      assert SortedByName(tail) by {
        forall i, j | 0 <= i < j < |tail|
          ensures LexLe(tail[i].name, tail[j].name)
        {
          assert tail[i] == fs[i + 1] && tail[j] == fs[j + 1];
        }
      }
      InsertByNameSorted(f, tail);
      LexLeTotal(f.name, fs[0].name);
      assert NamesAtLeast(fs[0].name, tail) by {
        forall i | 0 <= i < |tail|
          ensures LexLe(fs[0].name, tail[i].name)
        {
          assert tail[i] == fs[i + 1];
        }
      }
      InsertKeepsLowerBound(fs[0].name, f, tail);
      SortedCons(fs[0], InsertByName(f, tail));
      assert fs == [fs[0]] + tail;
    }
  }

  /** Insertion sort by name: sorted, and the same files. */
  function SortByName(fs: seq<DayFile>): (r: seq<DayFile>)
    ensures SortedByName(r)
    ensures multiset(r) == multiset(fs)
    decreases |fs|
  {
    if fs == [] then []
    else
      var rest := SortByName(fs[1..]);
      InsertByNameSorted(fs[0], rest);
      assert fs == [fs[0]] + fs[1..];
      InsertByName(fs[0], rest)
  }

  // ---------------------------------------------------------------------
  // Appending a channel's messages
  // ---------------------------------------------------------------------

  /** The records parsed one after another and appended to the channel;
      the first malformed record stops the parse. */
  function ParseRecordsInto(c: Channel, records: seq<RawMessage>, ex: Export, lib: Library): (r: Result<Channel, ParseError>)
    ensures r.Err? <==> exists i :: 0 <= i < |records| && MalformedMessage(records[i])
    ensures r.Ok? ==> r.value.(messages := c.messages) == c
    decreases |records|
  {
    if records == [] then Ok(c)
    else
      var m :- ParseMessage(records[0], ex, lib);
      ParseRecordsInto(AddChannelMessage(c, m), records[1..], ex, lib)
  }

  /** `ms` is `before` followed by one parsed value per record, in record
      order. */
  ghost predicate AppendsAll<R, M, E>(before: seq<M>, records: seq<R>, parse: R -> Result<M, E>, ms: seq<M>) {
    && |ms| == |before| + |records| && ms[..|before|] == before
    && forall i :: 0 <= i < |records| ==> parse(records[i]) == Ok(ms[|before| + i])
  }

  /** Appending the first record's value, then the rest, appends them all. */
  lemma AppendsAllStep<R, M, E>(before: seq<M>, m: M, records: seq<R>, parse: R -> Result<M, E>, ms: seq<M>)
    requires records != [] && parse(records[0]) == Ok(m)
    requires AppendsAll(before + [m], records[1..], parse, ms)
    ensures AppendsAll(before, records, parse, ms)
  {
    assert ms[..|before|] == (ms[..|before| + 1])[..|before|];
    forall i | 0 <= i < |records|
      ensures parse(records[i]) == Ok(ms[|before| + i])
    {
      if i == 0 {
        assert ms[|before|] == (ms[..|before| + 1])[|before|];
      } else {
        assert records[i] == records[1..][i - 1];
      }
    }
  }

  /** On success the channel's messages are the old ones followed by one
      message per record, in record order. */
  ghost predicate AppendsParsed(c: Channel, records: seq<RawMessage>, ex: Export, lib: Library, ms: seq<Message>) {
    AppendsAll(c.messages, records, (raw: RawMessage) => ParseMessage(raw, ex, lib), ms)
  }

  lemma {:induction false} ParseRecordsIntoAppends(c: Channel, records: seq<RawMessage>, ex: Export, lib: Library)
    requires ParseRecordsInto(c, records, ex, lib).Ok?
    ensures AppendsParsed(c, records, ex, lib, ParseRecordsInto(c, records, ex, lib).value.messages)
    decreases |records|
  {
    if records != [] {
      var m := ParseMessage(records[0], ex, lib).value;
      var c' := AddChannelMessage(c, m);
      ParseRecordsIntoAppends(c', records[1..], ex, lib);
      var ms := ParseRecordsInto(c, records, ex, lib).value.messages;
      assert ms == ParseRecordsInto(c', records[1..], ex, lib).value.messages;
      AppendsAllStep(c.messages, m, records, (raw: RawMessage) => ParseMessage(raw, ex, lib), ms);
    }
  }

  /** Day files in the given order, each file's records in file order. */
  function ParseDayFilesInto(c: Channel, files: seq<DayFile>, ex: Export, lib: Library): Result<Channel, ParseError>
    decreases |files|
  {
    if files == [] then Ok(c)
    else
      var c' :- ParseRecordsInto(c, files[0].records, ex, lib);
      ParseDayFilesInto(c', files[1..], ex, lib)
  }

  /** All records of the files, file after file. */
  function AllRecords(files: seq<DayFile>): seq<RawMessage> {
    if files == [] then [] else files[0].records + AllRecords(files[1..])
  }

  /** Parsing two record lists in a row is parsing their concatenation. */
  lemma {:induction false} ParseRecordsIntoAppend(c: Channel, a: seq<RawMessage>, b: seq<RawMessage>, ex: Export, lib: Library)
    ensures ParseRecordsInto(c, a + b, ex, lib)
            == (match ParseRecordsInto(c, a, ex, lib)
                case Err(e) => Err(e)
                case Ok(c') => ParseRecordsInto(c', b, ex, lib))
    decreases |a|
  {
    if a == [] {
      assert a + b == b;
    } else {
      assert (a + b)[0] == a[0];
      assert (a + b)[1..] == a[1..] + b;
      match ParseMessage(a[0], ex, lib)
      case Err(_) =>
      case Ok(m) => ParseRecordsIntoAppend(AddChannelMessage(c, m), a[1..], b, ex, lib);
    }
  }

  /** The file-by-file parse equals one parse of all records in order. */
  lemma {:induction false} ParseDayFilesIntoFlat(c: Channel, files: seq<DayFile>, ex: Export, lib: Library)
    ensures ParseDayFilesInto(c, files, ex, lib) == ParseRecordsInto(c, AllRecords(files), ex, lib)
    decreases |files|
  {
    if files != [] {
      ParseRecordsIntoAppend(c, files[0].records, AllRecords(files[1..]), ex, lib);
      match ParseRecordsInto(c, files[0].records, ex, lib)
      case Err(_) =>
      case Ok(c') => ParseDayFilesIntoFlat(c', files[1..], ex, lib);
    }
  }

  /** The directory of a channel: the export directory joined with the
      channel's name. */
  function ChannelDir(datadir: string, c: Channel): string {
    datadir + "/" + c.name
  }

  /** A channel's messages: the day files of its directory under `datadir`
      sorted by name, every record of every file appended in that order. */
  function ParseMessagesInChannel(c: Channel, datadir: string, listing: seq<DayFile>, ex: Export, lib: Library): (r: Result<Channel, ParseError>)
    ensures r == ParseRecordsInto(c, AllRecords(SortByName(DayFiles(ChannelDir(datadir, c), listing))), ex, lib)
  {
    var files := SortByName(DayFiles(ChannelDir(datadir, c), listing));
    ParseDayFilesIntoFlat(c, files, ex, lib);
    ParseDayFilesInto(c, files, ex, lib)
  }

  /** Within a listing, files that share a name are the same file. */
  predicate NameDetermines(m: multiset<DayFile>) {
    forall f, g | f in m && g in m :: f.name == g.name ==> f == g
  }

  /** The day-file filter keeps every copy of a day file and drops the
      rest. */
  lemma {:induction false} DayFilesCount(chpath: string, listing: seq<DayFile>, f: DayFile)
    ensures multiset(DayFiles(chpath, listing))[f] == if IsDayFile(chpath, f.name) then multiset(listing)[f] else 0
    decreases |listing|
  {
    if listing != [] {
      DayFilesCount(chpath, listing[1..], f);
      assert listing == [listing[0]] + listing[1..];
    }
  }

  /** Two orders of one listing select the same day files. */
  lemma DayFilesOfReordering(chpath: string, l1: seq<DayFile>, l2: seq<DayFile>)
    requires multiset(l1) == multiset(l2)
    ensures multiset(DayFiles(chpath, l1)) == multiset(DayFiles(chpath, l2))
    ensures multiset(DayFiles(chpath, l1)) <= multiset(l1)
  {
    forall f
      ensures multiset(DayFiles(chpath, l1))[f] == multiset(DayFiles(chpath, l2))[f]
      ensures multiset(DayFiles(chpath, l1))[f] <= multiset(l1)[f]
    {
      DayFilesCount(chpath, l1, f);
      DayFilesCount(chpath, l2, f);
    }
  }

  /** The tail of a sorted list is sorted. */
  lemma SortedTail(fs: seq<DayFile>)
    requires SortedByName(fs) && |fs| > 0
    ensures SortedByName(fs[1..])
  {
    forall i, j | 0 <= i < j < |fs[1..]|
      ensures LexLe(fs[1..][i].name, fs[1..][j].name)
    {
      assert fs[1..][i] == fs[i + 1] && fs[1..][j] == fs[j + 1];
    }
  }

  /** Two sorted lists of the same files start with the same file. */
  lemma SortedHeadsEqual(s1: seq<DayFile>, s2: seq<DayFile>)
    requires SortedByName(s1) && SortedByName(s2) && |s1| > 0 && |s2| > 0
    requires multiset(s1) == multiset(s2) && NameDetermines(multiset(s1))
    ensures s1[0] == s2[0]
  {
    assert s1[0] in multiset(s2);
    var j :| 0 <= j < |s2| && s2[j] == s1[0];
    assert s2[0] in multiset(s1);
    var k :| 0 <= k < |s1| && s1[k] == s2[0];
    if j > 0 { assert LexLe(s2[0].name, s2[j].name); } else { LexLeReflexive(s2[0].name); }
    if k > 0 { assert LexLe(s1[0].name, s1[k].name); } else { LexLeReflexive(s1[0].name); }
    LexLeAntisymmetric(s1[0].name, s2[0].name);
  }

  lemma NameDeterminesSub(m1: multiset<DayFile>, m2: multiset<DayFile>)
    requires m1 <= m2 && NameDetermines(m2)
    ensures NameDetermines(m1)
  {
  }

  /** Two lists of the same elements with the same head have tails of the
      same elements, each within its whole list. */
  lemma MultisetTail<T>(s1: seq<T>, s2: seq<T>)
    requires |s1| > 0 && |s2| > 0 && s1[0] == s2[0] && multiset(s1) == multiset(s2)
    ensures multiset(s1[1..]) == multiset(s2[1..]) && multiset(s1[1..]) <= multiset(s1)
  {
    assert s1 == [s1[0]] + s1[1..];
    assert s2 == [s2[0]] + s2[1..];
    assert multiset(s1) == multiset{s1[0]} + multiset(s1[1..]);
    assert multiset(s2) == multiset{s1[0]} + multiset(s2[1..]);
    assert multiset(s1[1..]) == multiset(s1) - multiset{s1[0]};
  }

  /** A list with the same elements as the empty list is empty. */
  lemma MultisetEmpty<T>(s1: seq<T>, s2: seq<T>)
    requires multiset(s1) == multiset(s2) && (s1 == [] || s2 == [])
    ensures s1 == s2
  {
    assert |s1| == |multiset(s1)| && |s2| == |multiset(s2)|;
  }

  /** Where a name determines its file, the sorted order of a collection
      of files is unique. */
  lemma {:induction false} SortedUnique(s1: seq<DayFile>, s2: seq<DayFile>)
    requires SortedByName(s1) && SortedByName(s2)
    requires multiset(s1) == multiset(s2) && NameDetermines(multiset(s1))
    ensures s1 == s2
    decreases |s1|
  {
    if s1 == [] || s2 == [] {
      MultisetEmpty(s1, s2);
    } else {
      SortedUniqueHeads(s1, s2);
      SortedUnique(s1[1..], s2[1..]);
      ConsEqual(s1, s2);
    }
  }

  /** The step of `SortedUnique`: equal heads, and tails that again meet
      its requirements. */
  lemma SortedUniqueHeads(s1: seq<DayFile>, s2: seq<DayFile>)
    requires SortedByName(s1) && SortedByName(s2) && |s1| > 0 && |s2| > 0
    requires multiset(s1) == multiset(s2) && NameDetermines(multiset(s1))
    ensures s1[0] == s2[0]
    ensures SortedByName(s1[1..]) && SortedByName(s2[1..])
    ensures multiset(s1[1..]) == multiset(s2[1..]) && NameDetermines(multiset(s1[1..]))
  {
    SortedHeadsEqual(s1, s2);
    MultisetTail(s1, s2);
    NameDeterminesSub(multiset(s1[1..]), multiset(s1));
    SortedTail(s1);
    SortedTail(s2);
  }

  lemma ConsEqual<T>(s1: seq<T>, s2: seq<T>)
    requires |s1| > 0 && |s2| > 0 && s1[0] == s2[0] && s1[1..] == s2[1..]
    ensures s1 == s2
  {
    assert s1 == [s1[0]] + s1[1..] && s2 == [s2[0]] + s2[1..];
  }

  /** The messages a channel ends up with do not depend on the order in
      which its directory is listed. */
  lemma ListingOrderIrrelevant(c: Channel, datadir: string, l1: seq<DayFile>, l2: seq<DayFile>, ex: Export, lib: Library)
    requires multiset(l1) == multiset(l2) && NameDetermines(multiset(l1))
    ensures ParseMessagesInChannel(c, datadir, l1, ex, lib) == ParseMessagesInChannel(c, datadir, l2, ex, lib)
  {
    var chpath := ChannelDir(datadir, c);
    DayFilesOfReordering(chpath, l1, l2);
    var s1 := SortByName(DayFiles(chpath, l1));
    var s2 := SortByName(DayFiles(chpath, l2));
    SortedUnique(s1, s2);
  }
}
