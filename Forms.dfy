/** The client-side checks on what a user types or picks before anything is
    sent: the passcode rule (at the passcode modal, at sign-up, and for the
    passcode stashed across sign-in), the username length, and the file
    checks of the three upload paths. */
module Forms {
  import opened JsText
  import opened Optional

  /** `/^[0-9]{4,}$/.test(s)`: four or more ASCII digits and nothing else. */
  predicate IsPasscode(s: string) {
    |s| >= 4 && AllAsciiDigits(s)
  }

  /** The outcome of the passcode modal's submit handler. */
  datatype PasscodeCheck = TooShort | Mismatch | Accepted(code: string)

  /** The modal's check (app.js:990-993): both entries are trimmed; the
      digit rule is checked on the first entry before the two are compared. */
  function CheckPasscodeForm(entry1: string, entry2: string): (r: PasscodeCheck)
    ensures r.Accepted? <==> IsPasscode(Trim(entry1)) && Trim(entry1) == Trim(entry2)
    ensures r.Accepted? ==> r.code == Trim(entry1) == Trim(entry2)
    ensures r == TooShort <==> !IsPasscode(Trim(entry1))
    ensures r == Mismatch <==> IsPasscode(Trim(entry1)) && Trim(entry1) != Trim(entry2)
  {
    var p1 := Trim(entry1);
    var p2 := Trim(entry2);
    if !IsPasscode(p1) then TooShort
    else if p1 != p2 then Mismatch
    else Accepted(p1)
  }

  /** The text shown for a refused passcode. */
  function PasscodeError(r: PasscodeCheck): (msg: string)
    requires !r.Accepted?
    ensures msg != []
  {
    if r == TooShort then "Passcode must be at least 4 digits." else "Passcodes do not match."
  }

  /** White space typed around a valid passcode does not matter: the
      modal accepts it, with the bare digits as the code. */
  lemma PaddedPasscodeAccepted(code: string, pad1: string, pad2: string)
    requires IsPasscode(code)
    requires AllSpaces(pad1) && AllSpaces(pad2)
    ensures CheckPasscodeForm(pad1 + code + pad2, code) == Accepted(code)
  {
    TrimPadded(pad1, code, pad2);
    AcceptedWhenTrimmed(pad1 + code + pad2, code);
  }

  /** A first entry that trims to a valid passcode is accepted when the
      second entry is that passcode as it is. */
  lemma AcceptedWhenTrimmed(entry1: string, code: string)
    requires IsPasscode(code) && Trim(entry1) == code
    ensures CheckPasscodeForm(entry1, code) == Accepted(code)
  {
    assert Trim(code) == code by {
      TrimUnchanged(code);
    }
    assert IsPasscode(Trim(entry1)) && Trim(entry1) == Trim(code);
  }

  /** Trimming white space that was added around a digit string gives the
      digit string back. */
  lemma TrimPadded(pad1: string, code: string, pad2: string)
    requires IsPasscode(code)
    requires AllSpaces(pad1) && AllSpaces(pad2)
    ensures Trim(pad1 + code + pad2) == code
  {
    assert pad1 + code + pad2 == pad1 + (code + pad2);
    assert (code + pad2)[0] == code[0];
    TrimStartSkips(pad1, code + pad2);
    TrimEndSkips(code, pad2);
  }

  /** The passcode taken from the sign-up form (app.js:871-873, repeated at
      888-891 when it is stashed for after sign-in): both entries trimmed, a
      missing field read as "", set only if it passes the digit rule and the
      two agree. */
  function SignupPasscode(entry1: string, entry2: string): (r: Option<string>)
    ensures r.Some? <==> IsPasscode(Trim(entry1)) && Trim(entry1) == Trim(entry2)
    ensures r.Some? ==> r.value == Trim(entry1)
  {
    var p1 := Trim(entry1);
    var p2 := Trim(entry2);
    if p1 != [] && IsPasscode(p1) && p1 == p2 then Some(p1) else None
  }

  /** Sign-up applies exactly the passcodes the passcode modal accepts. */
  lemma SignupAgreesWithModal(entry1: string, entry2: string)
    ensures SignupPasscode(entry1, entry2).Some? <==> CheckPasscodeForm(entry1, entry2).Accepted?
    ensures SignupPasscode(entry1, entry2).Some? ==>
      SignupPasscode(entry1, entry2).value == CheckPasscodeForm(entry1, entry2).code
  {
  }

  /** The passcode stashed in session storage is applied after sign-in only
      if it still passes the digit rule (app.js:1872-1873); it is not
      trimmed again. */
  function PendingToApply(pending: Option<string>): (r: Option<string>)
    ensures r.Some? <==> pending.Some? && IsPasscode(pending.value)
    ensures r.Some? ==> r == pending
  {
    if pending.Some? && pending.value != [] && IsPasscode(pending.value) then pending else None
  }

  /** Whatever sign-up stashed is applied after sign-in, unchanged. */
  lemma StashedIsApplied(entry1: string, entry2: string)
    ensures PendingToApply(SignupPasscode(entry1, entry2)) == SignupPasscode(entry1, entry2)
  {
  }

  /** The profile form's username rule (app.js:2084-2085): after trimming, 2
      to 24 UTF-16 code units (`length`). Gives the trimmed name, or None
      for "Username must be 2-24 characters.". */
  function CheckUsername(raw: string): (r: Option<string>)
    ensures r.Some? <==> 2 <= |Utf16Units(Trim(raw))| <= 24
    ensures r.Some? ==> r.value == Trim(raw) && 1 <= |r.value| <= 24
  {
    var name := Trim(raw);
    var len := |Utf16Units(name)|;
    if len < 2 || len > 24 then None else Some(name)
  }

  /** A chosen file as the browser describes it: name, MIME type, bytes. */
  datatype FileInfo = FileInfo(name: string, mimeType: string, size: nat)

  const MiB: nat := 1024 * 1024
  const StoryMaxBytes: nat := 20 * MiB
  const ChatImageMaxBytes: nat := 5 * MiB
  const AvatarMaxBytes: nat := 3 * MiB

  /** Why an upload is refused, in the order the handlers check. */
  datatype UploadError = NotSignedIn | NoFile | NoChatSelected | Unsupported | TooLarge

  /** What a handler does with the chosen file: refuse it with a message,
      return silently, or go on to upload it. */
  datatype UploadVerdict = Refused(reason: UploadError) | Ignored | Proceed

  predicate IsImageType(mimeType: string) { StartsWith(mimeType, "image/") }
  predicate IsVideoType(mimeType: string) { StartsWith(mimeType, "video/") }

  /** The story form (app.js:798-802): signed in, a file, an image or a
      video, at most 20 MiB. */
  function CheckStoryUpload(signedIn: bool, file: Option<FileInfo>): (r: UploadVerdict)
    ensures r != Ignored
    ensures r == Proceed <==>
      signedIn && file.Some? &&
      (IsImageType(file.value.mimeType) || IsVideoType(file.value.mimeType)) &&
      file.value.size <= StoryMaxBytes
    ensures r == Refused(NotSignedIn) <==> !signedIn
    ensures r == Refused(NoFile) <==> signedIn && file.None?
    ensures r == Refused(Unsupported) <==>
      signedIn && file.Some? && !IsImageType(file.value.mimeType) && !IsVideoType(file.value.mimeType)
    ensures r == Refused(TooLarge) <==>
      signedIn && file.Some? &&
      (IsImageType(file.value.mimeType) || IsVideoType(file.value.mimeType)) &&
      file.value.size > StoryMaxBytes
  {
    if !signedIn then Refused(NotSignedIn)
    else if file.None? then Refused(NoFile)
    else if !IsImageType(file.value.mimeType) && !IsVideoType(file.value.mimeType) then Refused(Unsupported)
    else if file.value.size > StoryMaxBytes then Refused(TooLarge)
    else Proceed
  }

  /** The three kinds of story media. */
  datatype StoryMedia = ImageMedia | VideoMedia | GifMedia

  /** The `media_type` a story is saved with (app.js:807): a `video/` type
      is a video, otherwise any type mentioning "gif" is a GIF, otherwise an
      image. */
  function StoryMediaType(mimeType: string): (r: StoryMedia)
    ensures r == VideoMedia <==> IsVideoType(mimeType)
    ensures r == GifMedia <==> !IsVideoType(mimeType) && Includes(mimeType, "gif")
  {
    if IsVideoType(mimeType) then VideoMedia
    else if Includes(mimeType, "gif") then GifMedia
    else ImageMedia
  }

  /** The chat image picker (app.js:1791-1795): a chat must be open; no
      file means nothing happens; then an `image/` type of at most 5 MiB. */
  function CheckChatImage(chatOpen: bool, file: Option<FileInfo>): (r: UploadVerdict)
    ensures r == Proceed <==>
      chatOpen && file.Some? && IsImageType(file.value.mimeType) && file.value.size <= ChatImageMaxBytes
    ensures r == Ignored <==> chatOpen && file.None?
    ensures r == Refused(NoChatSelected) <==> !chatOpen
    ensures r == Refused(Unsupported) <==> chatOpen && file.Some? && !IsImageType(file.value.mimeType)
    ensures r == Refused(TooLarge) <==>
      chatOpen && file.Some? && IsImageType(file.value.mimeType) && file.value.size > ChatImageMaxBytes
  {
    if !chatOpen then Refused(NoChatSelected)
    else if file.None? then Ignored
    else if !IsImageType(file.value.mimeType) then Refused(Unsupported)
    else if file.value.size > ChatImageMaxBytes then Refused(TooLarge)
    else Proceed
  }

  /** The avatar picker (app.js:2018-2029): no file means nothing happens;
      then an `image/` type of at most 3 MiB. */
  function CheckAvatar(file: Option<FileInfo>): (r: UploadVerdict)
    ensures r == Proceed <==>
      file.Some? && IsImageType(file.value.mimeType) && file.value.size <= AvatarMaxBytes
    ensures r == Ignored <==> file.None?
    ensures r == Refused(Unsupported) <==> file.Some? && !IsImageType(file.value.mimeType)
    ensures r == Refused(TooLarge) <==>
      file.Some? && IsImageType(file.value.mimeType) && file.value.size > AvatarMaxBytes
  {
    if file.None? then Ignored
    else if !IsImageType(file.value.mimeType) then Refused(Unsupported)
    else if file.value.size > AvatarMaxBytes then Refused(TooLarge)
    else Proceed
  }

  /** The three limits nest: a file good enough for an avatar may be sent in
      a chat, and one that may be sent in a chat may be posted as a story;
      a file of exactly the limit is still accepted. */
  lemma UploadLimitsNest(file: FileInfo, signedIn: bool)
    requires signedIn
    ensures CheckAvatar(Some(file)) == Proceed ==> CheckChatImage(true, Some(file)) == Proceed
    ensures CheckChatImage(true, Some(file)) == Proceed ==> CheckStoryUpload(signedIn, Some(file)) == Proceed
    ensures IsImageType(file.mimeType) && file.size == AvatarMaxBytes ==> CheckAvatar(Some(file)) == Proceed
  {
  }
}
