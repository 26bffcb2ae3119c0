/** The JavaScript built-ins the client's string rules lean on: the white-space
    class `\s` (which is also what `String.prototype.trim` removes), `trim`,
    `replace(/\s+/g, ' ')`, `String(n)` for a non-negative integer, and the
    UTF-16 code units behind `charCodeAt`.
    Strings are sequences of Unicode scalar values. */
module JsText {
  import opened Optional

  /** WhiteSpace and LineTerminator of ECMAScript: the characters `\s` matches
      and `trim` strips. */
  predicate IsSpace(c: char) {
    || c == '\t' || c == '\n' || c == '\U{000B}' || c == '\U{000C}' || c == '\r' || c == ' '
    || c == '\U{00A0}' || c == '\U{1680}' || ('\U{2000}' <= c <= '\U{200A}')
    || c == '\U{2028}' || c == '\U{2029}' || c == '\U{202F}' || c == '\U{205F}'
    || c == '\U{3000}' || c == '\U{FEFF}'
  }

  predicate IsAsciiDigit(c: char) {
    '0' <= c <= '9'
  }

  predicate AllAsciiDigits(s: string) {
    forall i :: 0 <= i < |s| ==> IsAsciiDigit(s[i])
  }

  predicate AllSpaces(s: string) {
    forall i :: 0 <= i < |s| ==> IsSpace(s[i])
  }

  /** Drops the leading white space: what is left is a suffix of `s` that
      starts with a non-space, and everything dropped was white space. */
  function TrimStart(s: string): (r: string)
    ensures |r| <= |s| && r == s[|s| - |r|..]
    ensures r == [] || !IsSpace(r[0])
    ensures forall i :: 0 <= i < |s| - |r| ==> IsSpace(s[i])
  {
    if s != [] && IsSpace(s[0]) then
      var r := TrimStart(s[1..]);
      assert s[1..][|s| - 1 - |r|..] == s[|s| - |r|..];
      assert forall i :: 1 <= i < |s| - |r| ==> s[i] == s[1..][i - 1];
      r
    else s
  }

  /** Drops the trailing white space: what is left is a prefix of `s` that
      ends with a non-space, and everything dropped was white space. */
  function TrimEnd(s: string): (r: string)
    ensures |r| <= |s| && r == s[..|r|]
    ensures r == [] || !IsSpace(r[|r| - 1])
    ensures forall i :: |r| <= i < |s| ==> IsSpace(s[i])
  {
    if s != [] && IsSpace(s[|s| - 1]) then
      var r := TrimEnd(s[..|s| - 1]);
      assert s[..|s| - 1][..|r|] == s[..|r|];
      assert forall i :: |r| <= i < |s| - 1 ==> s[i] == s[..|s| - 1][i];
      r
    else s
  }

  /** `String.prototype.trim`. */
  function Trim(s: string): (r: string)
    ensures |r| <= |s|
    ensures r == [] || (!IsSpace(r[0]) && !IsSpace(r[|r| - 1]))
    ensures r == [] <==> AllSpaces(s)
  {
    TrimEnd(TrimStart(s))
  }

  /** The trimmed string sits inside `s`, starting at `Lead(s)`. */
  function Lead(s: string): nat
    ensures Lead(s) + |Trim(s)| <= |s|
  {
    |s| - |TrimStart(s)|
  }

  lemma TrimIsSlice(s: string)
    ensures Trim(s) == s[Lead(s)..Lead(s) + |Trim(s)|]
  {
    var t := TrimStart(s);
    assert t == s[Lead(s)..];
    assert Trim(s) == t[..|Trim(s)|] by {
      assert Trim(s) == TrimEnd(t);
    }
    SliceOfSuffix(s, Lead(s), t, Trim(s));
  }

  lemma SliceOfSuffix(s: string, k: nat, t: string, r: string)
    requires k <= |s| && t == s[k..]
    requires |r| <= |t| && r == t[..|r|]
    ensures r == s[k..k + |r|]
  {
  }

  /** Trimming a string whose ends are not white space changes nothing. */
  lemma TrimUnchanged(s: string)
    requires s == [] || (!IsSpace(s[0]) && !IsSpace(s[|s| - 1]))
    ensures Trim(s) == s
  {
  }

  /** Leading white space in front of a string that does not start with
      white space is exactly what `TrimStart` drops. */
  lemma {:induction false} TrimStartSkips(pad: string, rest: string)
    requires AllSpaces(pad)
    requires rest == [] || !IsSpace(rest[0])
    ensures TrimStart(pad + rest) == rest
  {
    if pad != [] {
      assert (pad + rest)[1..] == pad[1..] + rest;
      TrimStartSkips(pad[1..], rest);
    }
  }

  /** Trailing white space after a string that does not end with white
      space is exactly what `TrimEnd` drops. */
  lemma {:induction false} TrimEndSkips(rest: string, pad: string)
    requires AllSpaces(pad)
    requires rest == [] || !IsSpace(rest[|rest| - 1])
    ensures TrimEnd(rest + pad) == rest
  {
    if pad != [] {
      assert (rest + pad)[..|rest + pad| - 1] == rest + pad[..|pad| - 1];
      TrimEndSkips(rest, pad[..|pad| - 1]);
    } else {
      assert rest + pad == rest;
    }
  }

  /** Two white-space characters in a row start at index `i`. */
  predicate SpacePairAt(s: string, i: int)
    requires 0 <= i < |s| - 1
  {
    IsSpace(s[i]) && IsSpace(s[i + 1])
  }

  /** The characters of `s` that are not white space, in order. */
  function NonSpaces(s: string): (r: string)
    ensures |r| <= |s|
  {
    if s == [] then []
    else (if IsSpace(s[0]) then [] else [s[0]]) + NonSpaces(s[1..])
  }

  /** Dropping leading white space drops no visible character. */
  lemma {:induction false} NonSpacesTrimStart(s: string)
    ensures NonSpaces(TrimStart(s)) == NonSpaces(s)
  {
    if s != [] && IsSpace(s[0]) {
      NonSpacesTrimStart(s[1..]);
    }
  }

  /** Only single blanks as white space, and never two of them in a row. */
  predicate BlanksOnly(s: string) {
    && (forall i :: 0 <= i < |s| && IsSpace(s[i]) ==> s[i] == ' ')
    && (forall i :: 0 <= i < |s| - 1 ==> !SpacePairAt(s, i))
  }

  /** `s.replace(/\s+/g, ' ')`: every maximal run of white space becomes a
      single blank and every run of visible characters is copied. */
  function CollapseSpaces(s: string): (r: string)
    decreases |s|
    ensures CollapsedOf(r, s)
  {
    if s == [] then []
    else if IsSpace(s[0]) then
      var rest := CollapseSpaces(TrimStart(s));
      TrimStartEnds(s);
      NonSpacesTrimStart(s);
      BlankStep(s, TrimStart(s), rest);
      [' '] + rest
    else
      var n := WordLength(s);
      var rest := CollapseSpaces(s[n..]);
      WordSplit(s);
      WordStep(s, s[..n], s[n..], rest);
      s[..n] + rest
  }

  /** What `CollapseSpaces` promises of its result `r` for `s`: no longer
      than `s`, empty only for the empty string, white space at either end
      exactly where `s` has it, only single blanks as white space, and the
      same visible characters in the same order. */
  predicate CollapsedOf(r: string, s: string) {
    && |r| <= |s|
    && (r == [] <==> s == [])
    && (r != [] ==> (IsSpace(r[0]) <==> IsSpace(s[0])))
    && (r != [] ==> (IsSpace(r[|r| - 1]) <==> IsSpace(s[|s| - 1])))
    && BlanksOnly(r)
    && NonSpaces(r) == NonSpaces(s)
  }

  /** A leading run of white space becomes one blank in front of the
      collapsed rest `t` (what is left after the run). */
  lemma BlankStep(s: string, t: string, rest: string)
    requires s != [] && IsSpace(s[0])
    requires |t| < |s| && (t == [] ==> IsSpace(s[|s| - 1]))
    requires t != [] ==> !IsSpace(t[0]) && t[|t| - 1] == s[|s| - 1]
    requires NonSpaces(t) == NonSpaces(s)
    requires CollapsedOf(rest, t)
    ensures CollapsedOf([' '] + rest, s)
  {
    var r := [' '] + rest;
    assert rest != [] ==> r[|r| - 1] == rest[|rest| - 1];
    BlankThenCollapsed(rest);
  }

  /** Dropping leading white space that is there shortens the string and
      keeps its last character, unless nothing is left. */
  lemma TrimStartEnds(s: string)
    requires s != [] && IsSpace(s[0])
    ensures var t := TrimStart(s);
      |t| < |s| && (t == [] ==> IsSpace(s[|s| - 1])) && (t != [] ==> !IsSpace(t[0]) && t[|t| - 1] == s[|s| - 1])
  {
    var t := TrimStart(s);
    assert t == TrimStart(s[1..]);
    if t != [] {
      LastOfSuffix(s, t);
    }
  }

  lemma LastOfSuffix(s: string, t: string)
    requires t != [] && |t| <= |s| && t == s[|s| - |t|..]
    ensures t[|t| - 1] == s[|s| - 1]
  {
  }

  /** A leading word is copied in front of the collapsed rest. */
  lemma WordStep(s: string, w: string, t: string, rest: string)
    requires IsWord(w) && s == w + t && (t == [] || IsSpace(t[0]))
    requires NonSpaces(s) == w + NonSpaces(t)
    requires CollapsedOf(rest, t)
    ensures CollapsedOf(w + rest, s)
  {
    var r := w + rest;
    assert r[0] == s[0];
    assert rest == [] ==> r == w && s == w;
    assert rest != [] ==> r[|r| - 1] == rest[|rest| - 1] && s[|s| - 1] == t[|t| - 1];
    WordThenCollapsed(w, rest);
  }

  /** A string that starts with a visible character is its first word
      followed by white space or nothing. */
  lemma WordSplit(s: string)
    requires s != [] && !IsSpace(s[0])
    ensures var n := WordLength(s);
      IsWord(s[..n]) && s == s[..n] + s[n..] && (s[n..] == [] || IsSpace(s[n..][0])) &&
      NonSpaces(s) == s[..n] + NonSpaces(s[n..])
  {
    NonSpacesWord(s, WordLength(s));
  }

  /** One blank in front of a collapsed string that does not start with
      white space. */
  lemma BlankThenCollapsed(rest: string)
    requires rest == [] || !IsSpace(rest[0])
    requires BlanksOnly(rest)
    ensures BlanksOnly([' '] + rest)
    ensures NonSpaces([' '] + rest) == NonSpaces(rest)
  {
    var r := [' '] + rest;
    assert forall i :: 1 <= i < |r| ==> r[i] == rest[i - 1];
    assert forall i :: 1 <= i < |r| - 1 ==> SpacePairAt(r, i) == SpacePairAt(rest, i - 1);
    assert r[1..] == rest;
  }

  /** A word in front of a collapsed string that is empty or starts with
      white space. */
  lemma WordThenCollapsed(w: string, rest: string)
    requires IsWord(w)
    requires rest == [] || IsSpace(rest[0])
    requires BlanksOnly(rest)
    ensures BlanksOnly(w + rest)
    ensures NonSpaces(w + rest) == w + NonSpaces(rest)
  {
    var r := w + rest;
    assert forall i :: |w| <= i < |r| ==> r[i] == rest[i - |w|];
    assert forall i :: |w| <= i < |r| - 1 ==> SpacePairAt(r, i) == SpacePairAt(rest, i - |w|);
    NonSpacesWord(r, |w|);
    assert r[..|w|] == w && r[|w|..] == rest;
  }

  /** Collapsing white space leaves only white space exactly when there was
      only white space. */
  lemma CollapseEmpty(s: string)
    ensures AllSpaces(CollapseSpaces(s)) <==> AllSpaces(s)
  {
    NonSpacesEmpty(s);
    NonSpacesEmpty(CollapseSpaces(s));
  }

  /** A string has no visible character exactly when it is all white space. */
  lemma {:induction false} NonSpacesEmpty(s: string)
    ensures NonSpaces(s) == [] <==> AllSpaces(s)
  {
    if s != [] {
      NonSpacesEmpty(s[1..]);
      assert AllSpaces(s) <==> IsSpace(s[0]) && AllSpaces(s[1..]) by {
        assert forall i :: 1 <= i < |s| ==> s[i] == s[1..][i - 1];
      }
    }
  }

  /** The length of the run of non-white-space characters `s` starts with. */
  function WordLength(s: string): (n: nat)
    ensures n <= |s|
    ensures forall i :: 0 <= i < n ==> !IsSpace(s[i])
    ensures n == |s| || IsSpace(s[n])
  {
    if s == [] || IsSpace(s[0]) then 0 else 1 + WordLength(s[1..])
  }

  /** A non-empty string with no white space in it. */
  predicate IsWord(w: string) {
    w != [] && forall i :: 0 <= i < |w| ==> !IsSpace(w[i])
  }

  /** The strings of `ws` one after the other. */
  function Concat(ws: seq<string>): string {
    if ws == [] then [] else ws[0] + Concat(ws[1..])
  }

  /** The strings of `ws` with one blank between neighbours
      (`ws.join(' ')`). */
  function JoinWithBlank(ws: seq<string>): string {
    if ws == [] then []
    else if |ws| == 1 then ws[0]
    else ws[0] + " " + JoinWithBlank(ws[1..])
  }

  /** The visible characters of a string are its first run followed by the
      visible characters of the rest. */
  lemma {:induction false} NonSpacesWord(s: string, n: nat)
    requires n <= |s|
    requires forall i :: 0 <= i < n ==> !IsSpace(s[i])
    ensures NonSpaces(s) == s[..n] + NonSpaces(s[n..])
  {
    if n > 0 {
      NonSpacesWord(s[1..], n - 1);
      assert s[1..][..n - 1] == s[1..n] && s[1..][n - 1..] == s[n..];
      assert s[..n] == [s[0]] + s[1..n];
    }
  }

  /** `s.split(/\s+/).filter(Boolean)`: the maximal runs of non-white-space
      characters, in order. `WordsSkipSpaces` and `WordsTakeWord` say where
      one run ends. */
  function Words(s: string): (ws: seq<string>)
    decreases |s|
    ensures WordsOf(ws, s)
  {
    if s == [] then []
    else if IsSpace(s[0]) then
      var ws := Words(s[1..]);
      SpaceThenWords(s, ws);
      ws
    else
      var n := WordLength(s);
      var ws := Words(s[n..]);
      WordSplit(s);
      WordThenWords(s, s[..n], s[n..], ws);
      [s[..n]] + ws
  }

  /** What `Words` promises of its result `ws` for `s`: every part is a
      word, there are none exactly when `s` is all white space, and together
      they are the visible characters of `s` in order. */
  predicate WordsOf(ws: seq<string>, s: string) {
    && (forall k :: 0 <= k < |ws| ==> IsWord(ws[k]))
    && (ws == [] <==> AllSpaces(s))
    && Concat(ws) == NonSpaces(s)
  }

  /** A leading white-space character adds no word. */
  lemma SpaceThenWords(s: string, ws: seq<string>)
    requires s != [] && IsSpace(s[0])
    requires WordsOf(ws, s[1..])
    ensures WordsOf(ws, s)
  {
    assert AllSpaces(s) <==> AllSpaces(s[1..]) by {
      assert forall i :: 1 <= i < |s| ==> s[i] == s[1..][i - 1];
    }
  }

  /** A leading word is the first part. */
  lemma WordThenWords(s: string, w: string, t: string, wt: seq<string>)
    requires IsWord(w) && s == w + t && NonSpaces(s) == w + NonSpaces(t)
    requires WordsOf(wt, t)
    ensures WordsOf([w] + wt, s)
  {
    var ws := [w] + wt;
    assert ws[1..] == wt;
    assert s[0] == w[0];
    assert forall k :: 1 <= k < |ws| ==> ws[k] == wt[k - 1];
  }

  /** White space in front of a string starts no word. */
  lemma {:induction false} WordsSkipSpaces(pad: string, s: string)
    requires AllSpaces(pad)
    ensures Words(pad + s) == Words(s)
  {
    if pad != [] {
      assert IsSpace((pad + s)[0]);
      assert (pad + s)[1..] == pad[1..] + s;
      WordsSkipSpaces(pad[1..], s);
    } else {
      assert pad + s == s;
    }
  }

  /** A word followed by white space or by nothing is the first word. */
  lemma WordsTakeWord(w: string, rest: string)
    requires IsWord(w)
    requires rest == [] || IsSpace(rest[0])
    ensures Words(w + rest) == [w] + Words(rest)
  {
    WordLengthOf(w, rest);
    assert (w + rest)[..|w|] == w && (w + rest)[|w|..] == rest;
  }

  lemma {:induction false} WordLengthOf(w: string, rest: string)
    requires forall i :: 0 <= i < |w| ==> !IsSpace(w[i])
    requires rest == [] || IsSpace(rest[0])
    ensures WordLength(w + rest) == |w|
  {
    if w != [] {
      assert (w + rest)[1..] == w[1..] + rest;
      WordLengthOf(w[1..], rest);
    } else {
      assert w + rest == rest;
    }
  }

  /** Leading white space starts no word. */
  lemma {:induction false} WordsTrimStart(s: string)
    ensures Words(TrimStart(s)) == Words(s)
  {
    if s != [] && IsSpace(s[0]) {
      WordsTrimStart(s[1..]);
    }
  }

  /** Trailing white space is dropped from the end of the second part only,
      when that part has something visible. */
  lemma {:induction false} TrimEndKeeps(x: string, y: string)
    requires !AllSpaces(y)
    ensures TrimEnd(x + y) == x + TrimEnd(y)
  {
    if IsSpace(y[|y| - 1]) {
      var y' := y[..|y| - 1];
      assert !AllSpaces(y') by {
        var i :| 0 <= i < |y| && !IsSpace(y[i]);
        assert y'[i] == y[i];
      }
      assert (x + y)[..|x + y| - 1] == x + y';
      TrimEndKeeps(x, y');
    }
  }

  /** Collapsing a string that does not start with white space and then
      dropping the trailing blank joins its words with single blanks. */
  lemma {:induction false} CollapseTrimEnd(s: string)
    decreases |s|
    requires s == [] || !IsSpace(s[0])
    ensures TrimEnd(CollapseSpaces(s)) == JoinWithBlank(Words(s))
  {
    if s != [] {
      var n := WordLength(s);
      var w, t := s[..n], s[n..];
      var cs, ct := CollapseSpaces(s), CollapseSpaces(t);
      assert Words(s) == [w] + Words(t);
      if t == [] {
        EndOneWord(w, cs, ct, Words(s));
      } else {
        var u := TrimStart(t);
        WordsTrimStart(t);
        var cu := CollapseSpaces(u);
        assert ct == [' '] + cu;
        if u == [] {
          EndOneWord(w, cs, ct, Words(s));
        } else {
          CollapseTrimEnd(u);
          CollapseEmpty(u);
          EndMoreWords(w, cs, cu, Words(u), Words(s));
        }
      }
    }
  }

  /** The last word: a blank after it, if any, is trimmed away. */
  lemma EndOneWord(w: string, cs: string, ct: string, ws: seq<string>)
    requires IsWord(w) && cs == w + ct && (ct == [] || ct == [' '])
    requires ws == [w]
    ensures TrimEnd(cs) == JoinWithBlank(ws)
  {
    if ct == [] {
      assert cs == w;
    } else {
      assert cs[..|w|] == w;
    }
  }

  /** A word followed by a blank and more words keeps that blank. */
  lemma EndMoreWords(w: string, cs: string, cu: string, wu: seq<string>, ws: seq<string>)
    requires !AllSpaces(cu) && wu != []
    requires cs == w + ([' '] + cu) && ws == [w] + wu
    requires TrimEnd(cu) == JoinWithBlank(wu)
    ensures TrimEnd(cs) == JoinWithBlank(ws)
  {
    assert cs == (w + " ") + cu;
    TrimEndKeeps(w + " ", cu);
    assert ws[1..] == wu;
  }

  /** Leading white space collapses to one blank, which trimming drops. */
  lemma CollapseTrimStart(s: string)
    ensures TrimStart(CollapseSpaces(s)) == CollapseSpaces(TrimStart(s))
  {
    if s != [] && IsSpace(s[0]) {
      var c := CollapseSpaces(TrimStart(s));
      assert CollapseSpaces(s) == [' '] + c;
      assert ([' '] + c)[1..] == c;
    }
  }

  /** `s.replace(/\s+/g, ' ').trim()` is `s`'s words joined by single
      blanks: collapsing keeps every word, in order, and only ever puts one
      blank between two of them. */
  lemma CollapseIsJoin(s: string)
    ensures Trim(CollapseSpaces(s)) == JoinWithBlank(Words(s))
  {
    CollapseTrimStart(s);
    CollapseTrimEnd(TrimStart(s));
    WordsTrimStart(s);
  }

  /** `String(n)` for a non-negative integer: its decimal digits. */
  function NatToString(n: nat): (r: string)
    ensures r != [] && AllAsciiDigits(r)
    ensures |r| == 1 <==> n < 10
    ensures n < 10 ==> r == [(n + '0' as int) as char]
  {
    if n < 10 then [(n + '0' as int) as char]
    else NatToString(n / 10) + [((n % 10) + '0' as int) as char]
  }

  /** The value of a string of decimal digits. */
  function DigitsValue(s: string): nat
    requires AllAsciiDigits(s)
  {
    if s == [] then 0
    else DigitsValue(s[..|s| - 1]) * 10 + (s[|s| - 1] as int - '0' as int)
  }

  /** `String(n)` loses nothing: reading its digits back gives `n`. */
  lemma {:induction false} NatToStringRoundTrip(n: nat)
    ensures DigitsValue(NatToString(n)) == n
  {
    if n >= 10 {
      NatToStringRoundTrip(n / 10);
      var r := NatToString(n);
      assert r[..|r| - 1] == NatToString(n / 10);
    }
  }

  predicate IsHighSurrogate(u: int) { 0xD800 <= u < 0xDC00 }
  predicate IsLowSurrogate(u: int) { 0xDC00 <= u < 0xE000 }

  /** The UTF-16 code units of one character, as `charCodeAt` sees them: a
      character below U+10000 is its own unit; any other is a high surrogate
      and a low surrogate carrying its offset from U+10000, ten bits each. */
  function CharUnits(c: char): (r: seq<int>)
    ensures 1 <= |r| <= 2
    ensures forall i :: 0 <= i < |r| ==> 0 <= r[i] < 0x1_0000
    ensures (c as int) < 0x1_0000 ==> r == [c as int]
    ensures (c as int) >= 0x1_0000 ==>
      |r| == 2 && IsHighSurrogate(r[0]) && IsLowSurrogate(r[1]) &&
      (r[0] - 0xD800) * 0x400 + (r[1] - 0xDC00) + 0x1_0000 == c as int
  {
    var v := c as int;
    if v < 0x1_0000 then [v]
    else
      var off := v - 0x1_0000;
      assert off == (off / 0x400) * 0x400 + off % 0x400;
      [0xD800 + off / 0x400, 0xDC00 + off % 0x400]
  }

  /** Reading UTF-16 code units back: a high surrogate followed by a low
      one is one character, a unit outside the surrogate range is itself,
      and a lone surrogate (or a value that is no code unit) is None. */
  function FromUtf16(u: seq<int>): Option<string>
    decreases |u|
  {
    if u == [] then Some([])
    else if |u| >= 2 && IsHighSurrogate(u[0]) && IsLowSurrogate(u[1]) then
      var rest := FromUtf16(u[2..]);
      var v := (u[0] - 0xD800) * 0x400 + (u[1] - 0xDC00) + 0x1_0000;
      if rest.None? then None else Some([v as char] + rest.value)
    else if 0 <= u[0] < 0xD800 || 0xE000 <= u[0] < 0x1_0000 then
      var rest := FromUtf16(u[1..]);
      if rest.None? then None else Some([u[0] as char] + rest.value)
    else None
  }

  /** The UTF-16 code units of a string, in order: the units that read
      back as exactly that string. */
  function Utf16Units(s: string): (r: seq<int>)
    ensures |s| <= |r| <= 2 * |s|
    ensures forall i :: 0 <= i < |r| ==> 0 <= r[i] < 0x1_0000
    ensures FromUtf16(r) == Some(s)
  {
    if s == [] then []
    else
      var r := CharUnits(s[0]) + Utf16Units(s[1..]);
      DecodeFirst(s[0], Utf16Units(s[1..]));
      assert [s[0]] + s[1..] == s;
      r
  }

  /** The units of two strings one after the other are the units of the
      first followed by those of the second. */
  lemma {:induction false} Utf16Append(a: string, b: string)
    ensures Utf16Units(a + b) == Utf16Units(a) + Utf16Units(b)
  {
    if a != [] {
      var t := a[1..];
      assert (a + b)[0] == a[0] && (a + b)[1..] == t + b;
      Utf16Append(t, b);
      assert Utf16Units(a + b) == CharUnits(a[0]) + Utf16Units(t + b);
      assert Utf16Units(a) == CharUnits(a[0]) + Utf16Units(t);
      AppendAssoc(CharUnits(a[0]), Utf16Units(t), Utf16Units(b));
    } else {
      assert a + b == b;
    }
  }

  /** Concatenation of unit sequences is associative. */
  lemma AppendAssoc(x: seq<int>, y: seq<int>, z: seq<int>)
    ensures x + (y + z) == (x + y) + z
  {
  }

  /** Decoding the units of one character followed by more units gives
      that character in front of what the rest decodes to. */
  lemma DecodeFirst(c: char, rest: seq<int>)
    requires FromUtf16(rest).Some?
    ensures FromUtf16(CharUnits(c) + rest) == Some([c] + FromUtf16(rest).value)
  {
    var u := CharUnits(c) + rest;
    if (c as int) < 0x1_0000 {
      assert u[1..] == rest;
    } else {
      assert u[2..] == rest;
    }
  }

  /** Whether `p` is a prefix of `s` (`s.startsWith(p)`). */
  predicate StartsWith(s: string, p: string) {
    |p| <= |s| && s[..|p|] == p
  }

  /** `s.includes(p)`. */
  predicate Includes(s: string, p: string)
    decreases |s|
  {
    StartsWith(s, p) || (s != [] && Includes(s[1..], p))
  }
}
