# CalcChat client rules in Dafny

CalcChat is a browser chat client that sits behind a calculator. The
calculator's keypad builds a digit string, and `=` checks it as the passcode
that unlocks the chat. Behind the lock are a one-to-one inbox, stories,
message bubbles, GIF search and profile settings. Almost everything the
client does goes through a hosted backend. This project models the local,
deterministic rules in `app.js` that decide what the client keeps and what it
shows. Backend rows come in as plain values, and the backend's answers are
parameters.

The modules follow the parts of the client:

- `JsText`: the JavaScript string built-ins the rules rely on. These are the
  `\s` class, `trim`, `replace(/\s+/g, ' ')`, `split(/\s+/)` with empty
  parts dropped, `String(n)` for a count, and the UTF-16 code units behind
  `charCodeAt` and `length`.
- `Optional`: `Option`, and JavaScript truthiness of a string that may be missing.
- `Calculator`: the lock-screen keypad. It is a class holding `input` and the
  display, with a pure step function that specifies it.
- `Forms`: the passcode rule at the passcode modal, at sign-up and after
  sign-in; the username rule; the three upload checks; and the media type of a
  story.
- `MessageViews`: the inbox snippet, the reply preview, the unread badge, the
  delivery status, the "(edited)" mark, the edit policy and the swipe-to-reply
  offset.
- `Inbox`: `unreadCountByPeer`, which is a class whose rebuild loop is proved
  against a fold, and the merge of the latest message per peer. The merge is a
  loop method over a map.
- `Stories`: the grouping loop of `loadStories`, the stable newest-first
  ordering of authors, and the viewer. The viewer is a class holding
  `storiesByUser`, `storyOrder` and `currentView`.
- `Avatars`: the placeholder initials, and the 32-bit polynomial hash behind
  the placeholder colour.
- `Tenor`: which rendition of a GIF result is shown, and the query parameters
  of a Tenor request.
- `StoragePaths`: sanitised upload paths, and the rewrite of legacy story URLs.

Timestamps are integer milliseconds. A missing `type`, `content` or name is
the empty string wherever the code treats `null`, `undefined` and `''` alike.

## Model

| member | source | states |
|---|---|---|
| Calculator.Shown | app.js:567-569 | The display is never empty. It shows the input when there is one, and reads "0" exactly when the input is empty or is "0". |
| Calculator.Step | app.js:572-598 | `C` empties the input. `⌫` drops exactly the last character and does nothing on an empty input. A digit key appends that digit. Any other key except `=` changes nothing. `=` enters the chat exactly when signed in with a non-empty input and a reply of exactly `true`, and only then is the input cleared. With a session, a non-empty input and any other reply it shakes and keeps the input. A digits-only input stays digits-only. |
| Calculator.RunKeepsDigits | app.js:570-599 | After any sequence of key presses and backend replies, `input` holds only ASCII digits, and it grew by at most one character per digit key. |
| Calculator.TypingAppends | app.js:597 | Typing a code one digit key at a time appends exactly that code to the input. |
| Calculator.Keypad.constructor | app.js:566 | The keypad starts with an empty input, which is made of digits. |
| Calculator.Keypad.Click | app.js:570-599 | The new input and the effect are those of `Step`. The display is refreshed after every press except the two early returns on a signed-in `=`: the one for an empty input and the one for a failed call. The digits-only invariant is kept. |
| Forms.CheckPasscodeForm | app.js:988-993 | Accepted exactly when the trimmed first entry is at least four ASCII digits and equals the trimmed second entry, and the trimmed code is the one accepted. The "at least 4 digits" outcome happens exactly when the first entry breaks the digit rule, whatever the second entry is. The "do not match" outcome happens only for a valid first entry. |
| Forms.PaddedPasscodeAccepted | app.js:990-991 | White space typed around a valid passcode in the first entry does not stop it being accepted as the bare digits. |
| Forms.SignupPasscode | app.js:871-873 | A passcode is set at sign-up exactly when the trimmed entries pass the digit rule and agree. The code set is the trimmed first entry. |
| Forms.SignupAgreesWithModal | app.js:871-873 | Sign-up sets exactly the passcodes the passcode modal accepts, with the same code. |
| Forms.PendingToApply | app.js:1872-1873 | The stashed passcode is applied exactly when it is present and passes the digit rule, and it is applied unchanged. |
| Forms.StashedIsApplied | app.js:889-892 | Whatever sign-up stashes is applied after sign-in as it is. |
| Forms.CheckUsername | app.js:2084-2085 | A username is accepted exactly when its trimmed form is 2 to 24 UTF-16 code units long, and the trimmed form is what is kept. |
| Forms.CheckStoryUpload | app.js:798-802 | A story upload goes ahead exactly when the user is signed in and the file is an `image/` or `video/` type of at most 20 MiB. The refusal follows the order of the checks. "Not signed in" is given exactly without a session. "No file" is given exactly when signed in with no file. "Unsupported" is given exactly for a file that is neither an image nor a video. "Too large" is given exactly for an image or video over the limit. The story form never ignores a submit. |
| Forms.StoryMediaType | app.js:807 | The media type is a video exactly for a `video/` MIME type. It is a GIF exactly for a non-video type that contains "gif". Otherwise it is an image. |
| Forms.CheckChatImage | app.js:1791-1795 | A chat image goes ahead exactly when a chat is open and the file is an `image/` type of at most 5 MiB. With no chat open, "No chat selected" is given, whatever the file. With a chat open and no file, nothing happens. "Unsupported" is given exactly for a file that is not an image. "Too large" is given exactly for an image over the limit. |
| Forms.CheckAvatar | app.js:2018-2029 | An avatar goes ahead exactly for an `image/` file of at most 3 MiB. Nothing happens exactly when there is no file. "Please select an image file" is given exactly for a file that is not an image. "Too large" is given exactly for an image over the limit. |
| Forms.UploadLimitsNest | app.js:1794-1795 | Any file accepted as an avatar is accepted as a chat image. Any file accepted as a chat image is accepted as a story. A file of exactly 3 MiB is still accepted as an avatar. |
| StoragePaths.Sanitize | app.js:808 | The pattern works on UTF-16 code units, as a regular expression without the `u` flag does. The result has one character per code unit of the input. A unit that is an ASCII character in `[a-zA-Z0-9-_.]`, or `/` where it is kept, stays as it is. Every other unit, each half of a surrogate pair included, becomes `_`. |
| StoragePaths.SanitizeBmp | app.js:808 | On text whose characters all lie in the Basic Multilingual Plane, sanitising is character by character. A kept character stays in its place, every other character becomes `_`, and the length is kept. |
| StoragePaths.SanitizeIdempotent | app.js:1819 | A sanitised path holds only kept characters, sanitising it again changes nothing, and an already clean string is left alone. |
| StoragePaths.StoryPathShape | app.js:808 | A story is stored at the user's folder, the upload time and a hyphen, followed by a non-empty name with no `/`. So every story lands directly in the user's folder. A non-empty file name gives a name with as many characters as the file name has UTF-16 code units. |
| StoragePaths.ChatImageObjectPath | app.js:1819 | A chat image path is the whole raw path `<user id>/<now>-<file name>` sanitised with `/` kept, so each code unit of it is kept or replaced in place. It holds only kept characters or `/`, and it has as many characters as the raw path has code units. The `/` after the user id stays, right after the user id's code units. |
| StoragePaths.NormalizeStoryUrl | app.js:674-679 | A missing URL stays missing. A present URL comes back present and never shorter. |
| StoragePaths.NormalizeRewritesFirstOnly | app.js:677 | A URL with a legacy segment is rewritten at its first legacy segment only. The text before it is kept, the segment becomes the public one, and the text after it is kept, later legacy segments included. A URL without one is unchanged. |
| JsText.Words | app.js:175 | The parts of a name are non-empty and contain no white space. There are none exactly when the name is all white space. Joined together they are exactly the name's visible characters, in order. |
| JsText.WordsSkipSpaces | app.js:175 | White space in front of a string starts no part, so it does not change the parts. |
| JsText.WordsTakeWord | app.js:175 | A run of visible characters followed by white space, or by nothing, is exactly the first part. The parts after it are those of the rest. So the parts are the maximal runs, in order. |
| Avatars.Initials | app.js:174-179 | The initials are 1 or 2 characters long: the upper-cased first letters of the first two words, or of the first word alone. With no words, it is the first character of the name, or "U" for an empty name. |
| Avatars.InitialsVisible | app.js:178 | A name that is not all white space gets a visible first initial. A missing name gives "U". A name that is only white space gives its own first character. |
| Avatars.HashIsPolynomial | app.js:182 | The `>>>0` running hash equals the polynomial sum of the code units with base 31, reduced modulo 2^32. |
| Avatars.Hue | app.js:183 | The hue is below 360. |
| Avatars.ColorFromString | app.js:181-184 | The hash loop over the name's UTF-16 code units yields `hsl(<hue> 60% 40%)`, where the hue is the 32-bit hash modulo 360. |
| Tenor.PickTenorUrl | app.js:60-71 | A missing item or missing formats give null. A URL that is picked is never empty. |
| Tenor.PickIsMostPreferred | app.js:63-69 | The picked URL is the first usable one in the order nanogif, tinygif, gif, mediumgif, and it is null when none is usable. |
| Tenor.DistinctNamesPairwise | app.js:79-85 | The "no parameter set twice" property holds exactly when no two positions of the list carry the same name. |
| Tenor.TenorRequest | app.js:73-86 | The endpoint is `search` exactly for a non-empty query. No parameter is set twice. `key`, `limit=24`, `media_filter=gif` and `contentfilter=high` are always present. `searchfilter=sticker` is present exactly for stickers, `q` exactly for a search, and `pos` exactly for a non-empty cursor. |
| MessageViews.TextBody | app.js:1174-1175 | The collapsed and trimmed text is shown whole when it is at most 42 characters. Otherwise its first 42 characters are shown followed by `…`, so the body is never longer than 43. |
| MessageViews.TextBodyIsWords | app.js:1174-1175 | The text of a text snippet is the message's words joined by single blanks, then cut to 42 characters. |
| MessageViews.TextBodyShape | app.js:1174-1175 | The text body is empty exactly for content that is all white space. Otherwise it starts with a visible character. Its only white space is single blanks, never two in a row. |
| MessageViews.SnippetBody | app.js:1170-1181 | A deleted type or the deletion marker always gives the deleted text, whatever the type. A text message gives the text body. An image gives "[Photo]", a video "[Video]", a GIF "[GIF]" and an audio message "[Audio]". Any other type gives "[Attachment]". The body is at most 43 characters. |
| MessageViews.ListSnippetFacts | app.js:1165-1182 | The snippet starts with "Received: " exactly when I am the row's receiver, and with "You: " exactly otherwise. A deleted row always reads as deleted. The snippet is never longer than its prefix plus 43. |
| MessageViews.ReplyPreview | app.js:1477-1484 | A missing message gives "". An image shows "Image", a GIF "GIF", a sticker "Sticker" and a TikTok "TikTok". Any other type shows a prefix of the content: exactly 80 characters for long content, and the whole content otherwise. The preview is at most 80 characters. |
| MessageViews.UnreadBadge | app.js:1216-1228 | The badge is hidden exactly for counts of 0 or less. It shows the one-digit count for 1 to 9 and "9+" above 9. |
| MessageViews.BadgeReadsBack | app.js:1222 | A badge for 1 to 9 reads back as the exact count. Every count above 9 shows the same badge. A shown badge is never empty. |
| MessageViews.DeliveryOf | app.js:1357-1361 | The status is "Seen" exactly when `seen_at` is set. It is "Delivered" exactly when `seen_at` is unset and `delivered_at` is set. Otherwise it is "Sent". |
| MessageViews.DeliveryIndicator | app.js:1349-1364 | A status is shown exactly when the thread is not empty and its last message is mine, and it is that message's status. |
| MessageViews.IndicatorFollowsLastMessage | app.js:1354-1356 | Appending the peer's message removes the status. Appending mine shows that message's own status. |
| MessageViews.IsEdited | app.js:1441-1446 | A message is marked edited exactly when `updated_at` is present and more than 2000 ms later than `created_at`. |
| MessageViews.EditedMarkStays | app.js:1444-1445 | An `updated_at` equal to `created_at`, as an insert writes it, is not marked edited. A marked message stays marked after a later update. |
| MessageViews.CanEdit | app.js:224-228 | A message can be edited exactly when edits are unlimited or at most five minutes have passed since it was created. |
| MessageViews.EditPolicy | app.js:222-228 | With the shipped `UNLIMITED_EDIT` every message is editable. With the limit on, a message editable now was editable at every earlier time, and none is editable more than five minutes after creation. |
| MessageViews.LocksHorizontal | app.js:1547-1549 | A locked gesture stays locked. An unlocked one locks exactly on a move whose sideways travel exceeds both its vertical travel and 10 px. |
| MessageViews.LockAfterFacts | app.js:1543-1549 | A touch is horizontal exactly when some move since its start was sideways enough, so the lock never comes undone before the next touch. |
| MessageViews.SwipeOffset | app.js:1553-1556 | The offset is within ±90 px. My bubbles move only left and the peer's only right. A drag in the allowed direction within range is followed exactly. A drag the other way gives 0. A drag of 90 px or more in the allowed direction gives exactly 90 px. |
| Inbox.TallyCounts | app.js:1099-1103 | After the tally, a sender has an entry exactly when it sent an unseen row, and its count is the number of such rows. |
| Inbox.TallySum | app.js:1099-1103 | The counts add up to the number of unseen rows. |
| Inbox.BadgeAfterRebuild | app.js:1155-1156 | After the rebuild, a peer's badge is hidden exactly when the peer has no unseen row, and otherwise it is the badge of that peer's row count. |
| Inbox.UnreadTally.constructor | app.js:1025 | The tally starts empty. |
| Inbox.UnreadTally.Rebuild | app.js:1099-1103 | The loop clears the map, so earlier contents are dropped, and then leaves exactly the tally of the senders. |
| Inbox.UnreadTally.SetCount | app.js:1230-1231 | One peer's count is replaced and every other peer keeps its count. |
| Inbox.Combine | app.js:1077-1084 | The loop over one batch gives the fold of `Offer` over the batch, where a row replaces its peer's entry only when there is none or the row is strictly newer. |
| Inbox.LatestByPeer | app.js:1085-1086 | `lastByPeer` is the outgoing batch combined first, then the incoming batch. |
| Inbox.CombineKeys | app.js:1077-1084 | After combining, a peer has an entry exactly when it had one before or one of the rows is with that peer. |
| Inbox.CombineMax | app.js:1077-1084 | Every row's peer ends with an entry at least as new as the row. |
| Inbox.CombineKeeps | app.js:1080-1083 | An entry that was there before the batch is kept unless a strictly newer row replaced it. |
| Inbox.CombineOrigin | app.js:1077-1084 | Every entry is either the earlier one or one of the batch's rows with that peer, flagged with the batch. |
| Inbox.LatestFacts | app.js:1069-1087 | A peer has an entry exactly when some row is with that peer. The entry has the largest `created_at` among that peer's rows and is one of them. `incoming` names the batch it came from. An incoming row wins only when it is strictly newer than every row I sent to that peer, so I win a tie. |
| Inbox.InboxAgreesWithLiveSnippet | app.js:1130-1149 | For rows I sent to others and rows sent to me, the merged `incoming` flag means exactly "I am the receiver". So the line drawn at load is the line the realtime snippet function draws for the same row. |
| Inbox.InboxStatus | app.js:1130-1153 | With a merged latest message, the line is the prefix of its batch followed by the snippet body. It starts with "Received: " exactly for an incoming message and with "You: " exactly otherwise. With no message, the line is "Active now" for an online peer. For a peer who is offline, it is the time since the peer was last active, or "Offline" when that time is unknown. |
| Stories.GroupStories | app.js:649-658 | The grouping loop computes the fold of one turn per story row: the map of entries and its key insertion order. |
| Stories.GroupKeys | app.js:649-658 | The keys list each grouped author once, in the order the map iterates. |
| Stories.GroupEntries | app.js:650-658 | An author has an entry exactly when it wrote one of the stories. Each entry holds exactly that author's stories in input order, carries the author's profile or the "User" placeholder, and has `allViewed` set exactly when all of those stories are in the viewed set. |
| Stories.SortFacts | app.js:660-664 | The comparator sort orders the authors newest first and keeps every author as often as given. Authors with equal keys stay in input order, which makes it a stable sort. |
| Stories.StoryOrderFacts | app.js:659-665 | `storyOrder` lists every grouped author exactly once, as a permutation of the map's keys. It is sorted by the time of each author's first story, newest first, and ties keep the order in which authors were first seen. |
| Stories.FirstIsNewest | app.js:630 | When the rows come newest first, an author's sort key is the time of that author's newest story. |
| Stories.FirstUnviewed | app.js:759 | The result is the first story `isStoryViewedLocal` reports unviewed, or -1 exactly when it reports every story viewed. |
| Stories.StartIndex | app.js:759-760 | A non-negative explicit start is used as given, and a negative one becomes 0. Without a start, the index is the first story reported unviewed, or 0 when every story reads as viewed. So the index is never negative, and without a start it lands on a story when there is one. |
| Stories.ViewedLocalIsEntryFlag | app.js:768-778 | When story ids are not shared between authors, every story of an author reads as that author's one `allViewed` flag. |
| Stories.OpenStartsAtFirst | app.js:755-761 | Without an explicit start, the viewer always starts at index 0, because all of an author's stories read as viewed or unviewed together. |
| Stories.LoadedViewerStartsAtFirst | app.js:755-761 | After grouping rows with distinct ids, opening any author without a start shows that author's first story. |
| Stories.StoryViewer.constructor | app.js:617-619 | The map and the order start empty, and `currentView` starts with no author at index 0 with the viewer closed. The viewer invariant holds: the keys list each grouped author once, and no story id is held by two authors. |
| Stories.StoryViewer.Load | app.js:649-665 | The state becomes the grouping and the sorted order of the rows. The viewer position is untouched. Distinct keys and unshared story ids are established. |
| Stories.StoryViewer.IsStoryViewedLocal | app.js:768-778 | The loop over the entries, in map order, returns the flag of the first entry that holds the story, and false when none does. |
| Stories.StoryViewer.OpenStoryViewer | app.js:755-766 | Nothing changes for an author without an entry. Otherwise the view moves to that author at the start index, and the viewer opens. Without an explicit start, the index is 0, because an author's stories read as all viewed or all unviewed. The grouping is never touched, and the viewer invariant is kept. |
| Stories.StoryViewer.StartingIndex | app.js:759-760 | The `findIndex` loop returns the start index. |
| Stories.StoryViewer.NextStory | app.js:780-793 | The index moves by `step` and is clamped at 0 from below. When the target reaches the story count, the viewer closes and the index stays where it was. Otherwise the index lands on a story. Without an open author nothing happens. The grouping and the viewer invariant are kept. |
| JsText.Trim | app.js:990 | Trimming gives a string with no white space at either end. The result is empty exactly when the input is all white space. |
| JsText.CollapseSpaces | app.js:1174 | The visible characters survive in order, and nothing visible is added. The result is empty exactly when the input is. It starts with white space exactly when the input does, and it ends with white space exactly when the input does. All its white space is single blanks, and no two are adjacent. The result is never longer than the input. |
| JsText.CollapseIsJoin | app.js:1174 | Collapsing and then trimming gives the words of the input joined by single blanks. |
| JsText.NatToStringRoundTrip | app.js:1222 | `String(n)` reads back as `n`. |
| JsText.Utf16Units | app.js:182 | A string's code units, one or two per character and each below 2^16, decode back to exactly that string. So they are the string's UTF-16 encoding. |
| JsText.CharUnits | app.js:182 | A character below U+10000 is the one unit of its own code. Any other character is a high surrogate followed by a low surrogate. Their offsets from 0xD800 and 0xDC00 give the top and bottom ten bits of the character's distance from U+10000. |
| JsText.Utf16Append | app.js:182 | The code units of two strings one after the other are the units of the first followed by those of the second. |

## Left out

- Lengths and slices outside the username rule, the colour hash and the upload path rule count Unicode characters, not UTF-16 code units. This affects the 42- and 80-character cuts in the snippets, and it differs only for characters outside the Basic Multilingual Plane. The upload paths are sanitised per code unit, as the browser does.
- MessageViews.LocksHorizontal: takes whole-pixel `dx` and `dy`, as does MessageViews.LockAfterFacts. The browser's `clientX` and `clientY` are fractional, so a move of 10.5 px sideways, which locks in the browser, has no counterpart in the model.
- MessageViews.SwipeOffset: takes a whole-pixel `dx`, while the browser's is fractional. The direction rule and the ±90 px clamp act the same way on fractional offsets. Only the offsets between whole pixels are not modelled.
- Avatars.Initials: `toUpperCase` is modelled for ASCII letters only. Other letters are kept as they are.
- Invalid dates (`isFinite`, `NaN` from `new Date`) are not modelled. Timestamps are integers. Neither the `isFinite` guard on "(edited)" nor the `NaN` case of the story comparator can arise.
- Every backend call is left out: authentication, RPCs, row queries, storage uploads and public URLs. Their results are parameters: the passcode check's reply, and the rows handed to the tally, the merge and the grouping.
- Realtime channels, the typing bus, `setTimeout`, and the interleaving of key presses with pending `await`s are concurrency and are left out.
- DOM work is left out: rendering, toasts, modals, the shake animation, the `swiping` class, `setStoryMedia` and `recordStoryView`. The viewer dialog's `showModal`/`close` is the `viewerOpen` field.
- `formatBytes` and `formatTimeAgo` use floating point and the clock. Inbox.InboxStatus takes the time-ago text as a parameter.
- localStorage and sessionStorage are not modelled. The stashed passcode is passed in as a value.
- `renderTikTokEmbed` is DOM construction and is left out.
- `fetchTenor`'s network fetch and the percent-encoding done by `URLSearchParams.toString()` are left out. Tenor.TenorRequest stops at the endpoint and the parameter list.
- The comment at app.js:659 promises "me first" ordering of the stories bar. The code does not do it, so the model does not either.
- The temporary "uploading" bubble that the chat image handler adds to the thread is not modelled by MessageViews.DeliveryIndicator.
- Stories.StoryViewer.Load requires distinct story ids. They are primary keys of the stories table, and the order facts hold without this.
- supabaseClient.js and config.example.js are not part of this model. They only create the backend client and declare credentials.
