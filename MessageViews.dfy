/** How a message row is presented: the one-line inbox snippet
    (app.js:1165-1182), the reply preview text (app.js:1477-1484), the unread
    badge (app.js:1216-1228), the delivery status under the last outgoing
    message (app.js:1349-1364), the "(edited)" mark (app.js:1439-1446), the
    edit policy (app.js:221-228) and the swipe-to-reply offset
    (app.js:1540-1557). */
module MessageViews {
  import opened JsText
  import opened Optional

  /** A row of the `messages` table. A missing `type` or `content` is "";
      timestamps are milliseconds. */
  datatype Message = Message(
    id: string, senderId: string, receiverId: string,
    msgType: string, content: string,
    createdAt: int, updatedAt: Option<int>,
    deliveredAt: Option<string>, seenAt: Option<string>)

  const DeletedMarker: string := "::deleted::"
  const DeletedText: string := "This message was deleted"
  const Ellipsis: char := '\U{2026}'
  const SnippetLimit: nat := 42

  /** `m.type || 'text'`. */
  function EffectiveType(msgType: string): string {
    if msgType == [] then "text" else msgType
  }

  /** A message is shown as deleted when its type says so or when its
      content is the deletion marker, whatever its type. */
  predicate IsDeleted(msgType: string, content: string) {
    EffectiveType(msgType) == "deleted" || content == DeletedMarker
  }

  /** `text.length > 42 ? text.slice(0, 42) + '…' : text`. */
  function Shorten(text: string): (r: string)
    ensures |text| <= SnippetLimit ==> r == text
    ensures |text| > SnippetLimit ==>
      |r| == SnippetLimit + 1 && r[..SnippetLimit] == text[..SnippetLimit] && r[SnippetLimit] == Ellipsis
  {
    if |text| > SnippetLimit then text[..SnippetLimit] + [Ellipsis] else text
  }

  /** The text of a text message in the inbox: white-space runs collapsed to
      one blank, trimmed, and cut to 42 characters with an ellipsis. */
  function TextBody(content: string): (r: string)
    ensures var text := Trim(CollapseSpaces(content));
      (|text| <= SnippetLimit ==> r == text) &&
      (|text| > SnippetLimit ==> |r| == SnippetLimit + 1 && r[..SnippetLimit] == text[..SnippetLimit] && r[SnippetLimit] == Ellipsis)
    ensures |r| <= SnippetLimit + 1
  {
    Shorten(Trim(CollapseSpaces(content)))
  }

  /** The text of a text snippet is the message's words joined by single
      blanks, cut to 42 characters. */
  lemma TextBodyIsWords(content: string)
    ensures TextBody(content) == Shorten(JoinWithBlank(Words(content)))
  {
    CollapseIsJoin(content);
  }

  /** A text snippet is empty exactly for a message of nothing but white
      space; otherwise it starts with a visible character, and its only white
      space is single blanks. */
  lemma TextBodyShape(content: string)
    ensures var r := TextBody(content);
      (r == [] <==> AllSpaces(content)) && (r != [] ==> !IsSpace(r[0])) && BlanksOnly(r)
  {
    CleanText(content);
    ShortenShape(Trim(CollapseSpaces(content)));
  }

  /** The collapsed and trimmed text is empty exactly for white space only,
      and has only single blanks. */
  lemma CleanText(content: string)
    ensures var text := Trim(CollapseSpaces(content));
      (text == [] <==> AllSpaces(content)) && BlanksOnly(text)
  {
    var c := CollapseSpaces(content);
    assert Trim(c) == [] <==> AllSpaces(content) by {
      CollapseEmpty(content);
    }
    assert BlanksOnly(Trim(c)) by {
      assert BlanksOnly(c);
      TrimBlanksOnly(c);
    }
  }

  /** Trimming a string with only single blanks leaves only single blanks. */
  lemma TrimBlanksOnly(s: string)
    requires BlanksOnly(s)
    ensures BlanksOnly(Trim(s))
  {
    TrimIsSlice(s);
    SliceBlanksOnly(s, Lead(s), Lead(s) + |Trim(s)|);
  }

  /** Cutting a text keeps it empty or not, keeps its first character and
      keeps single blanks. */
  lemma ShortenShape(text: string)
    requires BlanksOnly(text)
    ensures var r := Shorten(text);
      (r == [] <==> text == []) && (r != [] ==> r[0] == text[0]) && BlanksOnly(r)
  {
    if |text| > SnippetLimit {
      var head := text[..SnippetLimit];
      SliceBlanksOnly(text, 0, SnippetLimit);
      assert text[0..SnippetLimit] == head;
      AppendVisible(head, Ellipsis);
    }
  }

  /** A slice of a string with only single blanks has only single blanks. */
  lemma SliceBlanksOnly(s: string, lo: nat, hi: nat)
    requires lo <= hi <= |s|
    requires BlanksOnly(s)
    ensures BlanksOnly(s[lo..hi])
  {
    var t := s[lo..hi];
    assert forall i :: 0 <= i < |t| ==> t[i] == s[lo + i];
    assert forall i :: 0 <= i < |t| - 1 ==> SpacePairAt(t, i) == SpacePairAt(s, lo + i);
  }

  /** Appending a visible character keeps single blanks. */
  lemma AppendVisible(s: string, c: char)
    requires BlanksOnly(s) && !IsSpace(c)
    ensures BlanksOnly(s + [c])
  {
    var t := s + [c];
    assert forall i :: 0 <= i < |s| ==> t[i] == s[i];
    assert forall i :: 0 <= i < |s| - 1 ==> SpacePairAt(t, i) == SpacePairAt(s, i);
    assert |t| >= 2 ==> !SpacePairAt(t, |t| - 2);
  }

  /** The body of an inbox snippet, after the prefix. */
  function SnippetBody(msgType: string, content: string): (r: string)
    ensures IsDeleted(msgType, content) ==> r == DeletedText
    ensures !IsDeleted(msgType, content) && EffectiveType(msgType) == "text" ==> r == TextBody(content)
    ensures !IsDeleted(msgType, content) && EffectiveType(msgType) == "image" ==> r == "[Photo]"
    ensures !IsDeleted(msgType, content) && EffectiveType(msgType) == "video" ==> r == "[Video]"
    ensures !IsDeleted(msgType, content) && EffectiveType(msgType) == "gif" ==> r == "[GIF]"
    ensures !IsDeleted(msgType, content) && EffectiveType(msgType) == "audio" ==> r == "[Audio]"
    ensures !IsDeleted(msgType, content) && EffectiveType(msgType) !in {"text", "image", "video", "gif", "audio"} ==>
      r == "[Attachment]"
    ensures |r| <= SnippetLimit + 1
  {
    var t := EffectiveType(msgType);
    if IsDeleted(msgType, content) then DeletedText
    else if t == "text" then TextBody(content)
    else if t == "image" then "[Photo]"
    else if t == "video" then "[Video]"
    else if t == "gif" then "[GIF]"
    else if t == "audio" then "[Audio]"
    else "[Attachment]"
  }

  /** Which side of the conversation a snippet speaks for. */
  function SnippetPrefix(incoming: bool): string {
    if incoming then "Received: " else "You: "
  }

  /** `formatListSnippetFromRow(m, meId)`: "" for no row; otherwise "Received: "
      when I am the receiver, "You: " otherwise, then the body. A missing
      `meId` matches no receiver. */
  function ListSnippet(m: Option<Message>, meId: Option<string>): (r: string)
    ensures m.None? ==> r == []
    ensures m.Some? ==> r == SnippetPrefix(meId == Some(m.value.receiverId)) + SnippetBody(m.value.msgType, m.value.content)
  {
    if m.None? then []
    else SnippetPrefix(meId == Some(m.value.receiverId)) + SnippetBody(m.value.msgType, m.value.content)
  }

  /** The snippet says "Received: " exactly for rows I received and
      "You: " exactly for the others; a deleted row always reads as deleted,
      and the body never runs past 43 characters. */
  lemma ListSnippetFacts(m: Message, meId: Option<string>)
    ensures var r := ListSnippet(Some(m), meId);
      (StartsWith(r, "Received: ") <==> meId == Some(m.receiverId)) &&
      (StartsWith(r, "You: ") <==> meId != Some(m.receiverId)) &&
      (IsDeleted(m.msgType, m.content) ==> r == SnippetPrefix(meId == Some(m.receiverId)) + DeletedText) &&
      |r| <= |SnippetPrefix(meId == Some(m.receiverId))| + SnippetLimit + 1
  {
    PrefixTells(meId == Some(m.receiverId), SnippetBody(m.msgType, m.content));
  }

  /** Either prefix can be told from the text that follows it. */
  lemma PrefixTells(incoming: bool, body: string)
    ensures StartsWith(SnippetPrefix(incoming) + body, "Received: ") <==> incoming
    ensures StartsWith(SnippetPrefix(incoming) + body, "You: ") <==> !incoming
  {
    var r := SnippetPrefix(incoming) + body;
    if incoming {
      assert r[..10] == "Received: ";
      assert r[0] == 'R';
    } else {
      assert r[..5] == "You: ";
      assert r[0] == 'Y';
    }
  }

  /** `messageSnippet(m)`: the reply preview text. Media types get a fixed
      word; anything else shows the first 80 characters of the content. */
  function ReplyPreview(m: Option<Message>): (r: string)
    ensures m.None? ==> r == []
    ensures |r| <= 80
    ensures m.Some? && m.value.msgType == "image" ==> r == "Image"
    ensures m.Some? && m.value.msgType == "gif" ==> r == "GIF"
    ensures m.Some? && m.value.msgType == "sticker" ==> r == "Sticker"
    ensures m.Some? && m.value.msgType == "tiktok" ==> r == "TikTok"
    ensures m.Some? && m.value.msgType !in {"image", "gif", "sticker", "tiktok"} ==>
      StartsWith(m.value.content, r) && (|m.value.content| >= 80 ==> |r| == 80) &&
      (|m.value.content| < 80 ==> r == m.value.content)
  {
    if m.None? then []
    else if m.value.msgType == "image" then "Image"
    else if m.value.msgType == "gif" then "GIF"
    else if m.value.msgType == "sticker" then "Sticker"
    else if m.value.msgType == "tiktok" then "TikTok"
    else if |m.value.content| <= 80 then m.value.content
    else m.value.content[..80]
  }

  /** The unread badge: hidden and empty, or shown with its text. */
  datatype Badge = Hidden | Shown(text: string)

  /** `applyUnreadBadge(li, count)`. */
  function UnreadBadge(count: int): (b: Badge)
    ensures b == Hidden <==> count <= 0
    ensures 1 <= count <= 9 ==> b == Shown(NatToString(count)) && |b.text| == 1
    ensures count > 9 ==> b == Shown("9+")
  {
    if count > 0 then Shown(if count > 9 then "9+" else NatToString(count)) else Hidden
  }

  /** The text a badge shows once hidden means "" (`textContent = ''`). */
  function BadgeText(b: Badge): string {
    if b.Hidden? then "" else b.text
  }

  /** A shown badge of 1 to 9 reads back as the exact count, and every
      count above 9 reads the same; a shown badge is never empty. */
  lemma BadgeReadsBack(count: int)
    ensures 1 <= count <= 9 ==>
      AllAsciiDigits(BadgeText(UnreadBadge(count))) && DigitsValue(BadgeText(UnreadBadge(count))) == count
    ensures count > 9 ==> UnreadBadge(count) == UnreadBadge(10)
    ensures UnreadBadge(count).Shown? ==> BadgeText(UnreadBadge(count)) != []
  {
    if 1 <= count <= 9 {
      NatToStringRoundTrip(count);
    }
  }

  /** The status shown under my last message. */
  datatype Delivery = Seen | Delivered | Sent

  /** The status a message row yields: its `data-seen-at` and
      `data-delivered-at` attributes are set only from non-empty values. */
  function DeliveryOf(m: Message): (d: Delivery)
    ensures d == Seen <==> Truthy(m.seenAt)
    ensures d == Delivered <==> !Truthy(m.seenAt) && Truthy(m.deliveredAt)
  {
    if Truthy(m.seenAt) then Seen else if Truthy(m.deliveredAt) then Delivered else Sent
  }

  function DeliveryText(d: Delivery): string {
    match d
    case Seen => "Seen"
    case Delivered => "Delivered"
    case Sent => "Sent"
  }

  /** `updateDeliveryStatus()` over the messages of the open thread, in
      display order: a status appears only under the last message, and only
      when that message is mine. */
  function DeliveryIndicator(thread: seq<Message>, meId: Option<string>): (r: Option<Delivery>)
    ensures r.Some? <==> thread != [] && meId == Some(thread[|thread| - 1].senderId)
    ensures r.Some? ==> r.value == DeliveryOf(thread[|thread| - 1])
  {
    if thread == [] then None
    else
      var last := thread[|thread| - 1];
      if meId == Some(last.senderId) then Some(DeliveryOf(last)) else None
  }

  /** Replies from the peer never change the status shown: appending a
      message that is not mine removes it, and appending mine shows that
      message's own status. */
  lemma IndicatorFollowsLastMessage(thread: seq<Message>, m: Message, meId: Option<string>)
    ensures meId != Some(m.senderId) ==> DeliveryIndicator(thread + [m], meId).None?
    ensures meId == Some(m.senderId) ==> DeliveryIndicator(thread + [m], meId) == Some(DeliveryOf(m))
  {
  }

  const EditedGapMs: int := 2000

  /** The "(edited)" mark: set only when `updated_at` is present and more
      than two seconds after `created_at`. */
  function IsEdited(m: Message): (e: bool)
    ensures e <==> m.updatedAt.Some? && m.updatedAt.value > m.createdAt + EditedGapMs
  {
    m.updatedAt.Some? && m.updatedAt.value - m.createdAt > EditedGapMs
  }

  /** The default `updated_at` an insert writes does not mark a row as
      edited, and a row marked edited stays marked when it is updated again
      later. */
  lemma EditedMarkStays(m: Message, later: int)
    ensures m.updatedAt == Some(m.createdAt) ==> !IsEdited(m)
    ensures IsEdited(m) && later >= m.updatedAt.value ==> IsEdited(m.(updatedAt := Some(later)))
  {
  }

  const EditLimitMs: int := 5 * 60 * 1000

  /** The shipped setting of `UNLIMITED_EDIT`. */
  const UnlimitedEdit: bool := true

  /** `canEditMessage(m)` at time `now`, for either setting of the switch. */
  function CanEdit(unlimited: bool, createdAt: int, now: int): (ok: bool)
    ensures ok <==> unlimited || now - createdAt <= EditLimitMs
  {
    if unlimited then true else now - createdAt <= EditLimitMs
  }

  /** With the shipped setting every message may be edited at any time;
      with the limit on, a message editable now was editable at every
      earlier moment, and stops being editable five minutes after it was
      created. */
  lemma EditPolicy(createdAt: int, now: int, earlier: int)
    ensures CanEdit(UnlimitedEdit, createdAt, now)
    ensures earlier <= now && CanEdit(false, createdAt, now) ==> CanEdit(false, createdAt, earlier)
    ensures now > createdAt + EditLimitMs ==> !CanEdit(false, createdAt, now)
  {
  }

  const SwipeMax: int := 90
  const SwipeLockThreshold: int := 10

  function Abs(x: int): nat {
    if x < 0 then -x else x
  }

  /** A move whose sideways travel from the touch start exceeds both its
      vertical travel and 10 px. */
  predicate SidewaysMove(dx: int, dy: int) {
    Abs(dx) > Abs(dy) && Abs(dx) > SwipeLockThreshold
  }

  /** Whether the gesture is horizontal after a touch move: a locked gesture
      stays locked, and an unlocked one locks on a sideways move. */
  function LocksHorizontal(locked: bool, dx: int, dy: int): (h: bool)
    ensures locked ==> h
    ensures !locked ==> (h <==> SidewaysMove(dx, dy))
  {
    locked || SidewaysMove(dx, dy)
  }

  /** The lock after the moves of one touch, each given as its travel from
      the touch start; `touchstart` begins unlocked. */
  function LockAfter(moves: seq<(int, int)>): bool {
    if moves == [] then false
    else LocksHorizontal(LockAfter(moves[..|moves| - 1]), moves[|moves| - 1].0, moves[|moves| - 1].1)
  }

  /** A touch is horizontal exactly when some move so far was sideways: the
      lock never comes undone before the next touch. */
  lemma {:induction false} LockAfterFacts(moves: seq<(int, int)>)
    ensures LockAfter(moves) <==> exists k :: 0 <= k < |moves| && SidewaysMove(moves[k].0, moves[k].1)
  {
    if moves != [] {
      var init := moves[..|moves| - 1];
      LockAfterFacts(init);
      assert forall k :: 0 <= k < |init| ==> init[k] == moves[k];
    }
  }

  function Min(a: int, b: int): int { if a <= b then a else b }
  function Max(a: int, b: int): int { if a >= b then a else b }

  /** The horizontal offset of a swiped bubble: my messages move left only,
      the peer's right only, never further than 90 px. */
  function SwipeOffset(isMine: bool, dx: int): (r: int)
    ensures -SwipeMax <= r <= SwipeMax
    ensures isMine ==> r <= 0
    ensures !isMine ==> r >= 0
    ensures (isMine && -SwipeMax <= dx <= 0) || (!isMine && 0 <= dx <= SwipeMax) ==> r == dx
    ensures (isMine && dx >= 0) || (!isMine && dx <= 0) ==> r == 0
    ensures Abs(dx) >= SwipeMax && ((isMine && dx < 0) || (!isMine && dx > 0)) ==> Abs(r) == SwipeMax
  {
    var dirDx := if isMine then Min(0, dx) else Max(0, dx);
    Max(-SwipeMax, Min(SwipeMax, dirDx))
  }
}
