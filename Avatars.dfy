/** The placeholder avatar drawn when a user has no picture: up to two
    initials (app.js:174-179) on a background whose hue is a 32-bit
    polynomial hash of the name (app.js:181-184). */
module Avatars {
  import opened JsText

  /** `toUpperCase` on one character, for the ASCII letters. */
  function Upper(c: char): (u: char)
    ensures IsSpace(u) <==> IsSpace(c)
    ensures 'a' <= c <= 'z' ==> 'A' <= u <= 'Z'
  {
    if 'a' <= c <= 'z' then (c as int - 32) as char else c
  }

  /** `initialsFromName(name)`, with a missing name read as "". */
  function Initials(name: string): (r: string)
    ensures 1 <= |r| <= 2
    ensures var ws := Words(Trim(name));
      (|ws| >= 2 ==> r == [Upper(ws[0][0]), Upper(ws[1][0])]) &&
      (|ws| == 1 ==> r == [Upper(ws[0][0])]) &&
      (|ws| == 0 ==> r == (if name == [] then "U" else [Upper(name[0])]))
  {
    var ab := FirstLetters(Words(Trim(name)));
    if Trim(ab) != [] then Trim(ab)
    else [Upper((if name == [] then "U" else name)[0])]
  }

  /** The upper-cased first letters of the first two parts, which trimming
      does not change. */
  function FirstLetters(parts: seq<string>): (ab: string)
    requires forall k :: 0 <= k < |parts| ==> parts[k] != [] && !IsSpace(parts[k][0])
    ensures |parts| >= 2 ==> ab == [Upper(parts[0][0]), Upper(parts[1][0])]
    ensures |parts| == 1 ==> ab == [Upper(parts[0][0])]
    ensures |parts| == 0 ==> ab == []
    ensures Trim(ab) == ab
  {
    var a := if |parts| >= 1 then [Upper(parts[0][0])] else "";
    var b := if |parts| >= 2 then [Upper(parts[1][0])] else "";
    TrimUnchanged(a + b);
    a + b
  }

  /** The initials are blank only for a name that is nothing but white
      space: every real name gets at least one visible letter, and a
      missing name shows "U". */
  lemma InitialsVisible(name: string)
    ensures !AllSpaces(name) ==> !IsSpace(Initials(name)[0])
    ensures name == [] ==> Initials(name) == "U"
    ensures name != [] && AllSpaces(name) ==> Initials(name) == [name[0]]
  {
    if !AllSpaces(name) {
      InitialsOfVisible(name);
    } else {
      InitialsOfBlank(name);
    }
  }

  /** A name with something visible starts its initials with the first
      letter of its first word. */
  lemma InitialsOfVisible(name: string)
    requires !AllSpaces(name)
    ensures !IsSpace(Initials(name)[0])
  {
    var t := Trim(name);
    var ws := Words(t);
    assert !AllSpaces(t) by {
      assert t != [] && !IsSpace(t[0]);
    }
    assert IsWord(ws[0]);
    assert Initials(name)[0] == Upper(ws[0][0]);
  }

  /** A name of nothing but white space has no words, so its first
      character, or "U", is shown. */
  lemma InitialsOfBlank(name: string)
    requires AllSpaces(name)
    ensures Initials(name) == if name == [] then "U" else [name[0]]
  {
    assert Trim(name) == [];
    assert Words(Trim(name)) == [];
    if name != [] {
      assert IsSpace(name[0]);
      assert Upper(name[0]) == name[0];
    }
  }

  const TwoTo32: nat := 0x1_0000_0000

  /** The hash `h = (h*31 + code) >>> 0` after the code units `u`. Every
      intermediate value is below 2^37, so the JavaScript number arithmetic
      is exact and `>>> 0` is reduction modulo 2^32. */
  function Hash(u: seq<int>): (h: nat)
    requires forall i :: 0 <= i < |u| ==> 0 <= u[i] < 0x1_0000
    ensures h < TwoTo32
  {
    if u == [] then 0 else (Hash(u[..|u| - 1]) * 31 + u[|u| - 1]) % TwoTo32
  }

  function Pow31(k: nat): nat {
    if k == 0 then 1 else 31 * Pow31(k - 1)
  }

  /** The polynomial the hash stands for: code unit `i` weighted by
      31^(n-1-i). */
  function Polynomial(u: seq<int>): int {
    if u == [] then 0 else u[0] * Pow31(|u| - 1) + Polynomial(u[1..])
  }

  lemma {:induction false} PolynomialSnoc(u: seq<int>, c: int)
    ensures Polynomial(u + [c]) == Polynomial(u) * 31 + c
  {
    if u == [] {
      assert [c][1..] == [];
    } else {
      assert (u + [c])[1..] == u[1..] + [c];
      PolynomialSnoc(u[1..], c);
      calc {
        Polynomial(u + [c]);
        u[0] * Pow31(|u|) + Polynomial(u[1..] + [c]);
        u[0] * (31 * Pow31(|u| - 1)) + Polynomial(u[1..]) * 31 + c;
        { assert u[0] * (31 * Pow31(|u| - 1)) == (u[0] * Pow31(|u| - 1)) * 31; }
        (u[0] * Pow31(|u| - 1) + Polynomial(u[1..])) * 31 + c;
      }
    }
  }

  /** Reducing modulo 2^32 before a hash step gives the same result as
      reducing after it. */
  lemma ModStep(a: int, c: int)
    ensures ((a % TwoTo32) * 31 + c) % TwoTo32 == (a * 31 + c) % TwoTo32
  {
    var q := a / TwoTo32;
    var y := (a % TwoTo32) * 31 + c;
    assert a == q * TwoTo32 + a % TwoTo32;
    assert a * 31 + c == (q * 31) * TwoTo32 + y;
  }

  /** The running hash is the polynomial reduced modulo 2^32. */
  lemma {:induction false} HashIsPolynomial(u: seq<int>)
    requires forall i :: 0 <= i < |u| ==> 0 <= u[i] < 0x1_0000
    ensures Hash(u) == Polynomial(u) % TwoTo32
  {
    if u != [] {
      var init := u[..|u| - 1];
      var c := u[|u| - 1];
      HashIsPolynomial(init);
      assert u == init + [c];
      PolynomialSnoc(init, c);
      ModStep(Polynomial(init), c);
    }
  }

  /** The hue of a name's placeholder colour. */
  function Hue(str: string): (hue: nat)
    ensures hue < 360
  {
    Hash(Utf16Units(str)) % 360
  }

  /** `colorFromString(str)`: the hash loop over the name's UTF-16 code units,
      then `hsl(<hue> 60% 40%)`. */
  method ColorFromString(str: string) returns (css: string)
    ensures css == "hsl(" + NatToString(Hue(str)) + " 60% 40%)"
  {
    var units := Utf16Units(str);
    var h: nat := 0;
    var i := 0;
    while i < |units|
      invariant 0 <= i <= |units|
      invariant h == Hash(units[..i])
    {
      assert units[..i + 1][..i] == units[..i];
      h := (h * 31 + units[i]) % TwoTo32;
      i := i + 1;
    }
    assert units[..i] == units;
    css := "hsl(" + NatToString(h % 360) + " 60% 40%)";
  }
}
