# slack2discord in Dafny

A model of the core of slack2discord, a tool that rebuilds a Slack
workspace export inside a Discord server. The model covers four parts:

- **Results** (`results.dfy`) provides `Option` and `Result`, used for
  lookups that can miss and for records missing a required key.
- **Text** (`text.dfy`) provides the string operations the Python code
  takes from the standard library:
  - `str.replace` with a non-empty pattern, as a left-to-right scan of
    non-overlapping occurrences;
  - substring occurrence;
  - the code-point order in which `sorted` compares paths.
- **Util** (`util.py` → `util.dfy`) holds the character-level rewrites:
  - `replace` turns every backslash into `/`;
  - `url_unescape` turns every `\/` into `/`;
  - `modify_googlecal_date` finds the matches of the date pattern
    `<!date^<digits>...|label>` with a hand-written matcher for the
    regular expression, then replaces each match in turn by its label
    using `str.replace`.
- **Model** (`model.py` → `model.dfy`) is the in-memory export:
  - users, with the display-name fallback;
  - the first-match lookups of the user and channel registries;
  - hosted files, kept under the files directory by id;
  - the text form of link attachments and of messages;
  - the append-only message list and its thread and reply queries;
  - channels, whose member entries are looked up per listed id.
- **SlackData** (`slackdata.py` → `slackdata.dfy`) turns raw export
  records into the model:
  - `parse_message` maps one record to a message: author, text pipeline,
    hosted files, attachments and thread flags;
  - `fill_references` substitutes `<@id>` and `<#id>` mentions;
  - `parse_messages_in_channel` filters a channel's day files by the date
    pattern, sorts them by name, and appends every record of every file in
    order.

  A raw record is a datatype whose keys are all optional. A key the
  Python code reads unconditionally and finds missing raises `KeyError`
  there; here it yields `Err(MissingKey(key))`, for the first missing key
  in the order the code reads them. The same holds for the records of the
  users and channels indexes, which `Model.MakeUser` and
  `Model.MakeChannel` load.
- **Replay** (`s2d.py` → `replay.dfy`) turns `send_message` and the loop
  in `S2D.restore` into a pure function. It maps a channel to the trace of
  calls the bot makes:
  - the answer to the selection;
  - the topic change;
  - a post for each message that is not a reply;
  - for a thread root, a thread named `Replies`, followed by the posts of
    its replies.

In these places the model follows the code as written:

- A message can be both a thread root and a reply. `has_thread` and
  `is_reply` come from independent keys, and the replay skips any reply.
- Day files are selected by an unanchored search of the date pattern over
  the whole path. The pattern's `.` is unescaped, so the search also
  accepts names other than strict `YYYY-MM-DD.json`.
- Replay does no chunking, no throttling and no retry of oversized posts.
  None of these exist in the code.
- Attachment text is always the un-escaping of the empty string. The parse
  reads the body only when the record has a key spelled `texte`, which no
  export record carries.
- `str.replace` rewrites every copy of a match, not just the one that was
  found. A later match can hold a copy of an earlier one, and then the
  later match is destroyed before its turn and never reduced. For
  example, `<!date^2x|L><!date^1<!date^2x|L>` holds two matches but
  becomes `L<!date^1L`.
- A message body never goes through `modify_googlecal_date`. Its pipeline
  is references, then HTML un-escaping, then backslashes
  (`slackdata.py:83-86`), so a date macro in message text is kept
  verbatim.

## Model

| member | source | states |
|---|---|---|
| Model.MakeUser | slack2discord/model.py:12-20 | A record fails exactly when it lacks `id`, `name`, `profile`, `display_name` or `real_name`, and the first missing key in that order is reported. Otherwise id, name and real name are copied. The display name is the raw one when non-empty, else the real name. It is empty only when both are. |
| Model.GetUserById | slack2discord/model.py:38-43 | The result is nothing exactly when no user has the id. Otherwise it is the first user with the id in registry order. |
| Model.GetDisplayNameById | slack2discord/model.py:45-50 | The result is the display name of the first user with the id, or the empty string when no user has it. |
| Model.MakeMsgFile | slack2discord/model.py:64-70 | Id, timestamp, name, mime type, file type and URL are copied. The file is kept in the files directory, under its own id as file name. |
| Model.AttachmentWithoutText | slack2discord/model.py:86-95 | Without text a link block is not quoted. It is an optional bold title line followed by an optional URL line, and it is empty when title and URL are empty too. |
| Model.AttachmentWithTextIsQuoted | slack2discord/model.py:92-94 | With text, the block starts with `> ` and every newline in it is followed by `> `. |
| Model.AttachmentQuoteKeepsLines | slack2discord/model.py:92-94 | Quoting keeps the newline count of the assembled block, and removing the markers gives the assembled block back. |
| Model.UnquoteQuote | slack2discord/model.py:93-94 | Quoting loses nothing: removing the leading marker and the marker after each newline restores any text. |
| Model.MessageToTextLayout | slack2discord/model.py:128-132 | A rendered message starts with the header (bold author, italic date) and the body. Without attachments it is exactly header and body. |
| Model.MessageToTextAppendAttachment | slack2discord/model.py:128-132 | One more attachment adds exactly a newline and that attachment's block at the end of the message text. |
| Model.AddMessage | slack2discord/model.py:151-152 | The list grows by one. The old messages keep their order, and the new one is last. |
| Model.FindMessageByTs | slack2discord/model.py:154-159 | The result is nothing exactly when no message has the timestamp. Otherwise it is the first message with it. |
| Model.FindRepliesByTs | slack2discord/model.py:161-166 | The result holds exactly the stored messages that are replies in the given thread, and it is no longer than the list. |
| Model.FindRepliesAfterAdd | slack2discord/model.py:161-166 | Appending a message appends it to the replies of its own thread and leaves every other thread's replies unchanged. |
| Model.FindRepliesByMessage | slack2discord/model.py:168-177 | A message without a thread has no replies. A thread root's replies are the replies found by its thread timestamp. |
| Model.LookupMembers | slack2discord/model.py:186-189 | There is one entry per listed id, in order, each the user lookup of that id. |
| Model.MakeChannel | slack2discord/model.py:181-190 | A record fails exactly when it lacks `id`, `name`, `topic`, the topic's `value`, `purpose` or the purpose's `value`, and the first missing key in that order is reported. Otherwise id, name, topic and purpose are copied. Members are empty when the record lists none. Otherwise there is one entry per listed id: each the lookup of that id, so nothing for an unknown id and otherwise the first user with that id. The channel starts with no messages. |
| Model.AddChannelMessage | slack2discord/model.py:192-193 | The message is appended to the channel's list, and nothing else about the channel changes. |
| Model.GetChannelById | slack2discord/model.py:210-213 | The result is nothing exactly when no channel has the id. Otherwise it is the first channel with it. |
| Model.GetNameById | slack2discord/model.py:215-216 | An unknown id gives nothing. Otherwise the result is the name of the channel the lookup finds. |
| Model.ChannelNames | slack2discord/model.py:218-219 | There is one name per channel, in registry order. |
| Text.ReplaceAllLeftmost | slack2discord/util.py:33 | String replacement keeps everything before the leftmost occurrence, substitutes that occurrence, and resumes the scan after it. |
| Util.Replace | slack2discord/util.py:15-20 | Length is preserved. Every backslash becomes `/` and every other character is unchanged, so no backslash remains. |
| Util.ReplaceIdempotent | slack2discord/util.py:18-20 | Substituting twice is substituting once. |
| Util.ReplaceFixedPoint | slack2discord/util.py:18-20 | The substitution leaves a text unchanged exactly when the text holds no backslash. |
| Util.UrlUnescape | slack2discord/util.py:23-24 | A text without a `\/` pair is unchanged. The result is shorter than the input by the number of `\/` pairs it holds. |
| Util.UrlUnescapeDropsEscapingBackslashes | slack2discord/util.py:23-24 | The scan equals the reference rewrite that deletes every backslash immediately followed by `/`. |
| Util.UrlUnescapeNotIdempotent | slack2discord/util.py:23-24 | Un-escaping is not idempotent: `\\/` becomes `\/`, then `/`. |
| Util.MatchDateMacroAtSound | slack2discord/util.py:28-29 | Whatever the matcher accepts is a well-formed macro: `<!date^`, a digit and at least one more character before the first bar, the bar, a non-empty label without `>`, then `>`. The captured text is that label. |
| Util.MatchDateMacroOf | slack2discord/util.py:28-29 | Every well-formed macro is accepted, whatever follows it, and its label is captured. |
| Util.FindDateMacros | slack2discord/util.py:30-31 | Every reported pair is a well-formed macro and that macro's label. A text without `<!date^` has no matches. |
| Util.FindDateMacrosSkip | slack2discord/util.py:30-31 | Where no match starts at the first character, the search moves on by one character and reports nothing for it. |
| Util.FindDateMacrosAfterPlain | slack2discord/util.py:30-31 | Text without `<` in front contributes no matches. |
| Util.FindDateMacrosAfterMacro | slack2discord/util.py:30-31 | A macro at the start of the text is the first match, and the search continues right after it. |
| Util.FindRepeatedMacros | slack2discord/util.py:30-31 | `n` copies of a macro give `n` matches, each the macro with its label. |
| Util.ModifyGooglecalDate | slack2discord/util.py:27-34 | A text without `<!date^` is returned unchanged. |
| Util.ModifyRepeatedMacro | slack2discord/util.py:27-34 | Any number of copies of a well-formed macro reduce to the same number of copies of its label. |
| Util.ModifyCalendarExample | slack2discord/util.py:27-34 | The macro of a calendar event at timestamp 1700000000 with the label `Jan 1` reduces to `Jan 1`. |
| Util.ModifyNestedMacro | slack2discord/util.py:30-33 | Take a macro `m`, then `<!date^`, a digit other than the first of m's segment, and `m` again. The text yields two matches, `m` and the whole rest. Replacing `m` also rewrites its copy inside the second, so `<!date^` and the digit are left between the two labels. |
| Util.ModifyOverlappingExample | slack2discord/util.py:27-34 | With `m` the macro of segment `2x` and label `L`, the text `m`, `<!date^1`, `m` becomes `L<!date^1L`. |
| SlackData.FillUsers | slack2discord/slackdata.py:158-159 | A text without `<@` is unchanged by the user substitutions. |
| SlackData.FillChannels | slack2discord/slackdata.py:160-161 | A text without `<#` is unchanged by the channel substitutions. |
| SlackData.FillUsersMention | slack2discord/slackdata.py:158-159 | A mention `<@id>` of the user at any index, the first user with that id, becomes `@` and that user's display name. The users before it find nothing to replace, and no `<` is left for the users after it. |
| SlackData.FillChannelsMention | slack2discord/slackdata.py:160-161 | A mention `<#id>` of the channel at any index, the first channel with that id, becomes `#` and that channel's name. The rest of the text is kept. |
| SlackData.FillReferences | slack2discord/slackdata.py:157-162 | A text with neither `<@` nor `<#` is unchanged. |
| SlackData.FillReferencesUserMention | slack2discord/slackdata.py:157-162 | A single user mention becomes `@` and the display name of the first user with that id, at any index. The rest of the text is kept, whatever the channels. |
| SlackData.FillReferencesChannelMention | slack2discord/slackdata.py:157-162 | A single channel mention becomes `#` and the name of the first channel with that id, at any index. The user substitutions leave it alone, whatever the users. |
| SlackData.ParseFile | slack2discord/slackdata.py:89-107 | An entry fails exactly when it has no `mode`, or is hosted and lacks a hosted key. Otherwise a non-hosted entry gives nothing. A hosted entry gives a file whose mime type and URL are un-escaped and which is kept under the files directory by id. |
| SlackData.HostedFiles | slack2discord/slackdata.py:89-90 | The result holds exactly the entries whose mode is `hosted`. |
| SlackData.HostedFilesAppend | slack2discord/slackdata.py:89-90 | The selection keeps order: the hosted entries of two lists in a row are those of the first, then those of the second. A single entry is kept exactly when it is hosted. |
| SlackData.ParseFiles | slack2discord/slackdata.py:88-107 | The list fails exactly when some entry is malformed. Otherwise it gives one file per hosted entry, in order, each converted from its entry. |
| SlackData.ParseAttachment | slack2discord/slackdata.py:110-128 | The title is copied, or empty when missing. The URL is the `\/` un-escaping of the original URL, or empty when missing. The text is the HTML un-escaping of the empty string. |
| SlackData.ParseAttachments | slack2discord/slackdata.py:109-128 | There is one attachment per raw attachment, in order. |
| SlackData.AttachmentTextAlwaysEmpty | slack2discord/slackdata.py:114-116 | The attachment body is ignored: the text is the un-escaping of the empty string whatever the record holds. With an un-escaping that keeps `""` empty, the block is just the bold title line and the un-escaped URL line. |
| SlackData.ParseReplies | slack2discord/slackdata.py:136-137 | The list fails with the missing key `ts` exactly when some entry lacks `ts`. Otherwise it holds the reply timestamps, in order. |
| SlackData.AuthorId | slack2discord/slackdata.py:74-77 | The author is `user` if present, else `bot_id` if present, else the empty id. |
| SlackData.ParseThread | slack2discord/slackdata.py:133-137 | A record without `reply_count` has no reply timestamps. With `reply_count`, a missing `replies` fails with that key, and a reply without `ts` fails with `ts`. Otherwise the result is the replies' timestamps, one per reply, in order. |
| SlackData.ParseMessage | slack2discord/slackdata.py:58-155 | A record fails exactly when it is malformed, and `type`, `ts` and `text` are reported in that order. On success every field is what the record determines: author and name lookup, date, body text pipeline, hosted files, attachments, thread timestamp defaulting to `""`, `has_thread` iff `reply_count`, `is_reply` iff `parent_user_id`, and the reply timestamps. |
| SlackData.ParseFlagsIndependent | slack2discord/slackdata.py:133-140 | A record with both `reply_count` and `parent_user_id` parses to a message that is both a thread root and a reply. |
| SlackData.UnknownAuthorHasEmptyName | slack2discord/slackdata.py:74-79 | An author id no user has gets an empty name. |
| SlackData.PlainTextKept | slack2discord/slackdata.py:83-86 | A body without mentions, entities or backslashes comes through the text pipeline unchanged. |
| SlackData.StrictDayNameAccepted | slack2discord/slackdata.py:43-49 | `YYYY-MM-DD.json` is read, in any directory. |
| SlackData.LooseDayNameAccepted | slack2discord/slackdata.py:47 | The search is unanchored. Any prefix is accepted, and any character but a newline in place of the dot. |
| SlackData.PathPatternAcceptsAll | slack2discord/slackdata.py:46-47 | When the directory path itself holds the date pattern, every `.json` file in it is read. |
| SlackData.NoDigitsRejected | slack2discord/slackdata.py:47 | A file without digits in a directory without digits is not read. |
| SlackData.DayFiles | slack2discord/slackdata.py:43-49 | The selected files are exactly the listed files that pass the filter. |
| SlackData.SortByName | slack2discord/slackdata.py:43-49 | The result is sorted by name in code-point order and is a permutation of its input. |
| SlackData.ParseRecordsInto | slack2discord/slackdata.py:54-55 | The parse fails exactly when some record is malformed. Otherwise only the channel's messages change. |
| SlackData.ParseRecordsIntoAppends | slack2discord/slackdata.py:54-55 | On success the old messages are kept, followed by one parsed message per record, in record order. |
| SlackData.ParseRecordsIntoAppend | slack2discord/slackdata.py:51-55 | Parsing two record lists in a row equals parsing their concatenation, and the first failure stops it. |
| SlackData.ParseDayFilesIntoFlat | slack2discord/slackdata.py:51-55 | Parsing file after file equals one parse of all records concatenated, in file order. |
| SlackData.ParseMessagesInChannel | slack2discord/slackdata.py:42-55 | A channel receives the records of the day files in the export directory's sub-directory named after the channel, sorted by name and concatenated in file order. |
| SlackData.SortedUnique | slack2discord/slackdata.py:43-49 | When a name determines its file, two sorted arrangements of the same files are equal. |
| SlackData.ListingOrderIrrelevant | slack2discord/slackdata.py:43-55 | The messages a channel ends up with do not depend on the order in which the directory is listed. |
| Replay.FilesArg | s2d.py:44-50 | Files are passed exactly when the message has some, and then they are all passed. |
| Replay.SendMessage | s2d.py:41-58 | A message produces no action at top level exactly when it is a reply, even if it also has a thread. |
| Replay.SendMessageParts | s2d.py:41-58 | A non-reply gives one channel post. A thread root's post is followed by a thread named `Replies` and its replies' posts, and a reply gives nothing. |
| Replay.ThreadPostsTargets | s2d.py:53-58 | A thread's posts go only into that thread, create no thread, and are all posts. |
| Replay.Restore | s2d.py:66-78 | A restore happens exactly when some channel has the selected id. |
| Replay.RestoreOpening | s2d.py:69-78 | A restore starts with the answer naming source and destination, then the topic. Neither happens again; everything after is a post or a thread creation. |
| Replay.RestoreChannelPosts | s2d.py:44-50 | The destination channel receives one post per message that is not a reply, once each, in stored order. |
| Replay.RestoreThreadPosts | s2d.py:51-58 | The thread of a message receives exactly that message's thread posts, one per reply, in stored order. |
| Replay.ThreadCreatedIff | s2d.py:51-52 | A thread is created for a message exactly when it is a thread root and not a reply, always named `Replies`. |
| Replay.ThreadFollowsRoot | s2d.py:46-58 | A thread root's post is immediately followed by its thread's creation and then its replies' posts, right after the actions for the earlier messages. |
| Replay.RestoreMessagesKinds | s2d.py:75-78 | The message loop only posts and creates threads. |
| Replay.RestoreThreadScenario | s2d.py:63-78 | A channel of a thread root, one reply to it, and a plain message restores as: answer, topic, root post, thread, the reply in the thread, plain post. |

## Left out

- File download, `MsgFile.downloadfile`, `to_discord_file` and
  `get_discord_files`: these are network and Discord objects. A file is
  modelled as its metadata and local path only.
- Reading `users.json`, `channels.json` and the day files, and the
  `sys.exit` on a missing index: these are I/O. Records and directory
  listings are inputs to the model.
- `glob`, `pathlib` normalisation and `str(path)`: a path is the channel
  directory and the file name joined by `/`, and the listing holds the
  `.json` files.
- `ts2date` and `html.unescape`: they are library code (float parsing,
  local time, the HTML entity table). They are the function-valued
  parameters of `SlackData.Library`.
- `print` and the `tqdm` progress bar: output only.
- `parse_all_messages`: only a loop over the channel registry, calling
  the modelled per-channel parse.
- `discord_ui.py`, the bot setup, `.env` loading, the `restore` command,
  `on_ready` and `async`/`await`: these are the user interface and the
  chat service. The destination channel's name is a parameter of
  `Replay.Restore`.
- Replay.Restore: the answer to the selection is the
  `Respond(text)` action. An unknown channel id gives no trace, where the
  Python code raises `AttributeError` on the missing channel.
- Model.GetNameById: an unknown id gives nothing, where the Python code
  raises `AttributeError`.
- Util.FindDateMacros: the pattern's `\d` is taken as an ASCII digit,
  though Python also accepts other Unicode decimal digits.
- SlackData.DayPattern: the same ASCII-digit reading of `\d` in the
  day-file pattern.
- Util.ModifyGooglecalDate: the result is proved for any number of copies
  of one macro, for texts without macros, and for a macro nested in a
  later one. It is not proved for texts that mix different macros with
  other text.
- SlackData.FillReferences: the substitution is proved for a text with
  one user or one channel mention, of any registered index, and for texts
  without mentions. It is not proved for arbitrary mixes of mentions.
- SlackData.FillUsers: the mention lemma assumes that ids hold neither `<`
  nor `>` and that display names and the surrounding text hold no `<`.
  Slack ids are alphanumeric. Other texts are not proved.
- SlackData.FillChannels: the same assumptions on channel ids, channel
  names and the surrounding text.
- SlackData.ListingOrderIrrelevant: requires that a file name determines
  the file, which holds for the listing of one directory.
- Text.ReplaceAll: models `str.replace` for non-empty patterns only.
  Every pattern the code replaces is non-empty.
- `Message.date` is an opaque string computed by the `tsToDate`
  parameter.
- Chunking, throttling and retry of oversized posts: the code does none of
  them.
