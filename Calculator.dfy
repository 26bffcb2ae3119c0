/** The calculator lock screen (app.js:565-601): a keypad that edits the
    module-level `input` string and, once signed in, submits it to the
    backend's passcode check on `=`. The backend's answer is a parameter. */
module Calculator {
  import opened JsText

  const ClearKey: string := "C"
  const BackspaceKey: string := "\U{232B}"
  const EqualsKey: string := "="

  /** What the `verify_passcode` call came back with: an error, or data that
      is or is not exactly `true`. */
  datatype VerifyReply = RpcError | RpcData(isTrue: bool)

  /** What a key press does besides editing `input`. */
  datatype KeyEffect = NoEffect | Shake | EnterChat

  /** The keys that append themselves: `/^[0-9]$/`. */
  predicate IsDigitKey(k: string) {
    |k| == 1 && IsAsciiDigit(k[0])
  }

  /** What the display shows for an input (`input || '0'`). */
  function Shown(input: string): (r: string)
    ensures r != []
    ensures input != [] ==> r == input
    ensures r == "0" <==> (input == [] || input == "0")
  {
    if input == [] then "0" else input
  }

  /** Whether the `=` press consults the backend at all: only with a session
      and a non-empty input. */
  predicate Submits(input: string, session: bool) {
    session && input != []
  }

  /** The input and the effect after pressing `k`. `reply` is what the
      backend would answer if it were asked; it matters only when
      `Submits(input, session)`. */
  function Step(input: string, k: string, session: bool, reply: VerifyReply): (r: (string, KeyEffect))
    ensures AllAsciiDigits(input) ==> AllAsciiDigits(r.0)
    ensures k == ClearKey ==> r == ("", NoEffect)
    ensures k == BackspaceKey && input != [] ==> r == (input[..|input| - 1], NoEffect)
    ensures k == BackspaceKey && input == [] ==> r == ("", NoEffect)
    ensures IsDigitKey(k) ==> r == (input + k, NoEffect)
    ensures k != ClearKey && k != BackspaceKey && k != EqualsKey && !IsDigitKey(k) ==> r == (input, NoEffect)
    ensures k == EqualsKey ==>
      (r.1 == EnterChat <==> Submits(input, session) && reply == RpcData(true)) &&
      (r.1 == Shake <==> Submits(input, session) && reply != RpcData(true)) &&
      r.0 == (if r.1 == EnterChat then "" else input)
  {
    if k == ClearKey then ("", NoEffect)
    else if k == BackspaceKey then (if input == [] then "" else input[..|input| - 1], NoEffect)
    else if k == EqualsKey then
      if !Submits(input, session) then (input, NoEffect)
      else if reply == RpcData(true) then ("", EnterChat)
      else (input, Shake)
    else if IsDigitKey(k) then (input + k, NoEffect)
    else (input, NoEffect)
  }

  /** The input after a run of key presses, each `=` answered by the matching
      entry of `replies`. */
  function Run(input: string, keys: seq<string>, session: bool, replies: seq<VerifyReply>): string
    requires |replies| == |keys|
    decreases |keys|
  {
    if keys == [] then input
    else Run(Step(input, keys[0], session, replies[0]).0, keys[1..], session, replies[1..])
  }

  /** The number of keys in `keys` that append a digit. */
  function DigitKeyCount(keys: seq<string>): nat {
    if keys == [] then 0 else (if IsDigitKey(keys[0]) then 1 else 0) + DigitKeyCount(keys[1..])
  }

  /** Whatever is pressed, the input stays a string of ASCII digits, and it
      grows by at most one character per digit key. */
  lemma {:induction false} RunKeepsDigits(input: string, keys: seq<string>, session: bool, replies: seq<VerifyReply>)
    requires |replies| == |keys|
    requires AllAsciiDigits(input)
    decreases |keys|
    ensures AllAsciiDigits(Run(input, keys, session, replies))
    ensures |Run(input, keys, session, replies)| <= |input| + DigitKeyCount(keys)
  {
    if keys != [] {
      RunKeepsDigits(Step(input, keys[0], session, replies[0]).0, keys[1..], session, replies[1..]);
    }
  }

  /** The keys that type `code`, one character each. */
  function KeysFor(code: string): (keys: seq<string>)
    ensures |keys| == |code|
  {
    if code == [] then [] else [[code[0]]] + KeysFor(code[1..])
  }

  /** Typing the digits of `code` one key at a time appends exactly `code`,
      and all of those keys are digit keys. */
  lemma {:induction false} TypingAppends(input: string, code: string, session: bool, replies: seq<VerifyReply>)
    requires AllAsciiDigits(code) && |replies| == |code|
    decreases |code|
    ensures DigitKeyCount(KeysFor(code)) == |code|
    ensures Run(input, KeysFor(code), session, replies) == input + code
  {
    if code != [] {
      var keys := KeysFor(code);
      assert keys[0] == [code[0]] && keys[1..] == KeysFor(code[1..]);
      TypingAppends(input + [code[0]], code[1..], session, replies[1..]);
      assert input + [code[0]] + code[1..] == input + code;
    }
  }

  /** The keypad: the module-level `input` and the text of `calc-display`. */
  class Keypad {
    var input: string
    var display: string

    /** Every key handler leaves `input` made of digits only. */
    ghost predicate Valid()
      reads this
    {
      AllAsciiDigits(input)
    }

    /** `let input = ''`; the display starts with whatever the page holds. */
    constructor (initialDisplay: string)
      ensures Valid()
      ensures input == "" && display == initialDisplay
    {
      input := "";
      display := initialDisplay;
    }

    /** The click handler for key `k`. The display is refreshed after every
        press except a signed-in `=` on an empty input or one whose backend
        call fails: those return before the refresh. */
    method Click(k: string, session: bool, reply: VerifyReply) returns (effect: KeyEffect)
      requires Valid()
      modifies this
      ensures Valid()
      ensures (input, effect) == Step(old(input), k, session, reply)
      ensures display == if k == EqualsKey && session && (old(input) == [] || reply == RpcError)
                         then old(display) else Shown(input)
    {
      if k == ClearKey {
        input := "";
      } else if k == BackspaceKey {
        if input != [] {
          input := input[..|input| - 1];
        }
      } else if k == EqualsKey {
        if !session {
          display := Shown(input);
          return NoEffect;
        }
        if input == [] {
          return NoEffect;
        }
        if reply == RpcError {
          return Shake;
        }
        if reply == RpcData(true) {
          input := "";
          display := Shown(input);
          effect := EnterChat;
        } else {
          effect := Shake;
        }
      } else {
        if IsDigitKey(k) {
          input := input + k;
        }
      }
      display := Shown(input);
      if k != EqualsKey {
        effect := NoEffect;
      }
    }
  }
}
