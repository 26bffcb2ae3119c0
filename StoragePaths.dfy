/** Object-storage paths for uploads and the rewrite of legacy story URLs:
    the story path sanitises only the file name (app.js:808), the chat image
    path sanitises the whole path but keeps `/` (app.js:1819), and
    `normalizeStoryUrl` inserts the `public/` segment into the first legacy
    segment it finds (app.js:674-679). */
module StoragePaths {
  import opened JsText
  import opened Optional

  /** Characters outside `[^a-zA-Z0-9-_.]` (in a character class a `-` right
      after a range is a literal hyphen), and, for the chat image path, `/`. */
  predicate IsKept(c: char, keepSlash: bool) {
    || 'a' <= c <= 'z' || 'A' <= c <= 'Z' || '0' <= c <= '9'
    || c == '-' || c == '_' || c == '.'
    || (keepSlash && c == '/')
  }

  /** What the pattern leaves of one UTF-16 code unit: a kept character
      (all of them ASCII) stays, any other unit becomes an underscore. */
  function UnitSanitized(u: int, keepSlash: bool): char {
    if 0 <= u < 0x80 && IsKept(u as char, keepSlash) then u as char else '_'
  }

  /** `s.replace(/[^…]/g, '_')`. Without the `u` flag the pattern walks
      the UTF-16 code units, so a character outside the Basic Multilingual
      Plane (two units) becomes two underscores: one character per unit,
      each kept or replaced. */
  function Sanitize(s: string, keepSlash: bool): (r: string)
    ensures var u := Utf16Units(s);
      |r| == |u| && forall i :: 0 <= i < |u| ==> r[i] == UnitSanitized(u[i], keepSlash)
  {
    var u := Utf16Units(s);
    seq(|u|, i requires 0 <= i < |u| => UnitSanitized(u[i], keepSlash))
  }

  /** On text of the Basic Multilingual Plane the rule is character by
      character: a kept character stays where it was, any other becomes an
      underscore, and the length is kept. */
  lemma SanitizeBmp(s: string, keepSlash: bool)
    requires forall i :: 0 <= i < |s| ==> (s[i] as int) < 0x1_0000
    ensures var r := Sanitize(s, keepSlash);
      |r| == |s| && forall i :: 0 <= i < |s| ==> r[i] == if IsKept(s[i], keepSlash) then s[i] else '_'
  {
    BmpUnits(s);
  }

  /** A string of Basic Multilingual Plane characters has one code unit per
      character, its own code. */
  lemma {:induction false} BmpUnits(s: string)
    requires forall i :: 0 <= i < |s| ==> (s[i] as int) < 0x1_0000
    ensures var u := Utf16Units(s);
      |u| == |s| && forall i :: 0 <= i < |s| ==> u[i] == s[i] as int
  {
    if s != [] {
      BmpUnits(s[1..]);
      var u := Utf16Units(s);
      assert u == [s[0] as int] + Utf16Units(s[1..]);
      assert forall i :: 1 <= i < |s| ==> u[i] == Utf16Units(s[1..])[i - 1] && s[i] == s[1..][i - 1];
    }
  }

  /** Sanitising leaves only kept characters, so doing it again changes
      nothing, and a string made only of kept characters is left alone. */
  lemma SanitizeIdempotent(s: string, keepSlash: bool)
    ensures forall i :: 0 <= i < |Sanitize(s, keepSlash)| ==> IsKept(Sanitize(s, keepSlash)[i], keepSlash)
    ensures Sanitize(Sanitize(s, keepSlash), keepSlash) == Sanitize(s, keepSlash)
    ensures (forall i :: 0 <= i < |s| ==> IsKept(s[i], keepSlash)) ==> Sanitize(s, keepSlash) == s
  {
    SanitizedKept(s, keepSlash);
    SanitizeClean(Sanitize(s, keepSlash), keepSlash);
    if forall i :: 0 <= i < |s| ==> IsKept(s[i], keepSlash) {
      SanitizeClean(s, keepSlash);
    }
  }

  /** Every character of a sanitised string is a kept one. */
  lemma SanitizedKept(s: string, keepSlash: bool)
    ensures forall i :: 0 <= i < |Sanitize(s, keepSlash)| ==> IsKept(Sanitize(s, keepSlash)[i], keepSlash)
  {
  }

  /** A string made only of kept characters is left alone. */
  lemma SanitizeClean(s: string, keepSlash: bool)
    requires forall i :: 0 <= i < |s| ==> IsKept(s[i], keepSlash)
    ensures Sanitize(s, keepSlash) == s
  {
    assert forall i :: 0 <= i < |s| ==> (s[i] as int) < 0x80;
    SanitizeBmp(s, keepSlash);
  }

  /** Where a story file is uploaded: `<user id>/<now>-<safe name>`, the file
      name defaulting to "story" when it is empty. */
  function StoryObjectPath(userId: string, now: nat, fileName: string): (r: string)
  {
    userId + "/" + NatToString(now) + "-" + Sanitize(if fileName == [] then "story" else fileName, false)
  }

  /** The story path is the user's folder, the upload time, a hyphen, and a
      non-empty name with no `/` in it, as long as the file name is in code
      units: whatever the file is called, it lands directly in the user's
      folder. */
  lemma StoryPathShape(userId: string, now: nat, fileName: string)
    ensures var name := Sanitize(if fileName == [] then "story" else fileName, false);
      StoryObjectPath(userId, now, fileName) == userId + "/" + NatToString(now) + "-" + name &&
      name != [] && (forall i :: 0 <= i < |name| ==> name[i] != '/') &&
      (fileName != [] ==> |name| == |Utf16Units(fileName)|)
  {
    var name := Sanitize(if fileName == [] then "story" else fileName, false);
    SanitizeIdempotent(if fileName == [] then "story" else fileName, false);
    assert forall i :: 0 <= i < |name| ==> IsKept(name[i], false);
  }

  /** Where a chat image is uploaded: the whole of
      `<user id>/<now>-<file name>` sanitised, keeping `/`. The `/` after the
      user id survives, after as many units as the user id has. */
  function ChatImageObjectPath(userId: string, now: nat, fileName: string): (r: string)
    ensures r == Sanitize(userId + "/" + NatToString(now) + "-" + fileName, true)
    ensures |r| == |Utf16Units(userId)| + 1 + |NatToString(now)| + 1 + |Utf16Units(fileName)|
    ensures forall i :: 0 <= i < |r| ==> IsKept(r[i], true)
    ensures r[|Utf16Units(userId)|] == '/'
  {
    ChatPathFacts(userId, now, fileName);
    Sanitize(userId + "/" + NatToString(now) + "-" + fileName, true)
  }

  /** The facts behind the chat image path, stated on the sanitised string. */
  lemma ChatPathFacts(userId: string, now: nat, fileName: string)
    ensures var r := Sanitize(userId + "/" + NatToString(now) + "-" + fileName, true);
      |r| == |Utf16Units(userId)| + 1 + |NatToString(now)| + 1 + |Utf16Units(fileName)| &&
      (forall i :: 0 <= i < |r| ==> IsKept(r[i], true)) &&
      r[|Utf16Units(userId)|] == '/'
  {
    var d := NatToString(now);
    assert forall i :: 0 <= i < |d| ==> (d[i] as int) < 0x80 by {
      assert AllAsciiDigits(d);
    }
    PathUnits(userId, d, fileName);
    SanitizedSlash(userId + "/" + d + "-" + fileName, |Utf16Units(userId)|);
  }

  /** A `/` unit survives sanitising with `/` kept, in its place, and the
      rest of the result holds only kept characters. */
  lemma SanitizedSlash(raw: string, k: int)
    requires 0 <= k < |Utf16Units(raw)| && Utf16Units(raw)[k] == '/' as int
    ensures var r := Sanitize(raw, true);
      |r| == |Utf16Units(raw)| && r[k] == '/' && forall i :: 0 <= i < |r| ==> IsKept(r[i], true)
  {
    SanitizeIdempotent(raw, true);
  }

  /** The units of `<user id>/<digits>-<file name>` for an ASCII time stamp:
      the `/` is the unit right after the user id's units. */
  lemma PathUnits(userId: string, d: string, fileName: string)
    requires forall i :: 0 <= i < |d| ==> (d[i] as int) < 0x80
    ensures var u := Utf16Units(userId + "/" + d + "-" + fileName);
      |u| == |Utf16Units(userId)| + 1 + |d| + 1 + |Utf16Units(fileName)| &&
      u[|Utf16Units(userId)|] == '/' as int
  {
    AsciiUnits(d);
    AsciiUnits("/");
    AsciiUnits("-");
    Utf16Append(userId, "/");
    Utf16Append(userId + "/", d);
    Utf16Append(userId + "/" + d, "-");
    Utf16Append(userId + "/" + d + "-", fileName);
  }

  /** A string of ASCII characters has its codes as code units. */
  lemma AsciiUnits(s: string)
    requires forall i :: 0 <= i < |s| ==> (s[i] as int) < 0x80
    ensures |Utf16Units(s)| == |s| && forall i :: 0 <= i < |s| ==> Utf16Units(s)[i] == s[i] as int
  {
    BmpUnits(s);
  }

  const LegacySegment: string := "/storage/v1/object/stories/"
  const PublicSegment: string := "/storage/v1/object/public/stories/"

  /** Whether `pat` occurs in `s` starting at index `i`. */
  predicate OccursAt(s: string, pat: string, i: int) {
    0 <= i && i + |pat| <= |s| && s[i..i + |pat|] == pat
  }

  /** The first index at or after `from` where `pat` occurs, or -1. */
  function IndexOfFrom(s: string, pat: string, from: nat): (r: int)
    decreases |s| - from
    ensures r == -1 || (from <= r && OccursAt(s, pat, r))
    ensures forall j :: from <= j && (r == -1 || j < r) ==> !OccursAt(s, pat, j)
  {
    if from + |pat| > |s| then -1
    else if s[from..from + |pat|] == pat then from
    else IndexOfFrom(s, pat, from + 1)
  }

  /** `s.indexOf(pat)`. */
  function IndexOf(s: string, pat: string): (r: int)
    ensures r == -1 <==> forall j :: !OccursAt(s, pat, j)
    ensures r != -1 ==> OccursAt(s, pat, r) && forall j :: j < r ==> !OccursAt(s, pat, j)
  {
    IndexOfFrom(s, pat, 0)
  }

  /** `s.replace(pat, rep)` with a string pattern: only the first occurrence
      is replaced. */
  function ReplaceFirst(s: string, pat: string, rep: string): (r: string)
    ensures IndexOf(s, pat) == -1 ==> r == s
    ensures IndexOf(s, pat) != -1 ==>
      var i := IndexOf(s, pat);
      r == s[..i] + rep + s[i + |pat|..]
  {
    var i := IndexOf(s, pat);
    if i == -1 then s else s[..i] + rep + s[i + |pat|..]
  }

  /** `normalizeStoryUrl`: an absent or empty URL comes back as it was;
      otherwise the first legacy segment gets its `public/`. */
  function NormalizeStoryUrl(url: Option<string>): (r: Option<string>)
    ensures url.None? ==> r.None?
    ensures url.Some? ==> r.Some? && |r.value| >= |url.value|
  {
    if url.None? || url.value == [] then url
    else Some(ReplaceFirst(url.value, LegacySegment, PublicSegment))
  }

  /** A URL with a legacy segment is rewritten at its first one and nowhere
      else: everything before it is kept, it becomes the public segment, and
      everything after it is kept, later legacy segments included. A URL
      without one comes back unchanged. */
  lemma NormalizeRewritesFirstOnly(url: string)
    ensures var r := NormalizeStoryUrl(Some(url)).value;
      var i := IndexOf(url, LegacySegment);
      (i == -1 ==> r == url) &&
      (i != -1 ==>
        r[..i] == url[..i] &&
        r[i..i + |PublicSegment|] == PublicSegment &&
        r[i + |PublicSegment|..] == url[i + |LegacySegment|..] &&
        (forall j :: 0 <= j < i ==> !OccursAt(url, LegacySegment, j)))
  {
    var i := IndexOf(url, LegacySegment);
    if i != -1 {
      var r := url[..i] + PublicSegment + url[i + |LegacySegment|..];
      assert r[..i] == url[..i];
      assert r[i..i + |PublicSegment|] == PublicSegment;
      assert r[i + |PublicSegment|..] == url[i + |LegacySegment|..];
    }
  }
}
