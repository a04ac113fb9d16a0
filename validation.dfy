/** The text-message validator that runs before the send handler (`validateMessage`).
    A `string` here is a sequence of Unicode characters. JavaScript's `s.length` counts UTF-16
    code units instead, two for a character above U+FFFF: that count is `Utf16Length`. Every
    character `trim` removes lies below U+FFFF, so trimming characters is trimming code units. */
module Validation {
  import opened Common

  const MaxTextLength := 1000
  const TextRequired := "Message text is required"
  const TextTooLong := "Message too long"

  /** The code units `String.prototype.trim` removes: ECMAScript WhiteSpace and LineTerminator. */
  predicate IsTrimmable(c: char) {
    c == '\t' || c == '\n' || c == '\U{000B}' || c == '\U{000C}' || c == '\r' || c == ' '
    || c == '\U{00A0}' || c == '\U{1680}' || ('\U{2000}' <= c <= '\U{200A}')
    || c == '\U{2028}' || c == '\U{2029}' || c == '\U{202F}' || c == '\U{205F}'
    || c == '\U{3000}' || c == '\U{FEFF}'
  }

  /** The UTF-16 code units of one character: a surrogate pair above U+FFFF. */
  function CodeUnits(c: char): nat {
    if c as int > 0xFFFF then 2 else 1
  }

  /** `s.length`: the number of UTF-16 code units of `s`. It equals the number of characters
      exactly when none lies above U+FFFF, and is twice it exactly when all do. */
  function Utf16Length(s: string): (n: nat)
    ensures |s| <= n <= 2 * |s|
    ensures n == |s| <==> forall i :: 0 <= i < |s| ==> s[i] as int <= 0xFFFF
    ensures n == 2 * |s| <==> forall i :: 0 <= i < |s| ==> s[i] as int > 0xFFFF
  {
    if s == [] then 0
    else
      var init := s[..|s| - 1];
      assert forall i :: 0 <= i < |init| ==> init[i] == s[i];
      Utf16Length(init) + CodeUnits(s[|s| - 1])
  }

  /** The code units of a concatenation are those of its parts. */
  lemma {:induction false} Utf16LengthAppend(a: string, b: string)
    ensures Utf16Length(a + b) == Utf16Length(a) + Utf16Length(b)
    decreases |b|
  {
    if b == [] {
      assert a + b == a;
    } else {
      var b0 := b[..|b| - 1];
      Utf16LengthAppend(a, b0);
      assert (a + b)[..|a + b| - 1] == a + b0;
      assert (a + b)[|a + b| - 1] == b[|b| - 1];
    }
  }

  /** Every character of `s` is white space (the empty string included). */
  ghost predicate Blank(s: string) {
    forall i :: 0 <= i < |s| ==> IsTrimmable(s[i])
  }

  /** `s` with its leading white space removed. */
  function TrimStart(s: string): (r: string)
    ensures |r| <= |s| && r == s[|s| - |r|..]
    ensures r == [] || !IsTrimmable(r[0])
    ensures Blank(s[..|s| - |r|])
  {
    if s != [] && IsTrimmable(s[0]) then
      var tail := s[1..];
      var r := TrimStart(tail);
      BlankCons(s[0], tail[..|tail| - |r|]);
      assert s[..|s| - |r|] == [s[0]] + tail[..|tail| - |r|];
      assert tail[|tail| - |r|..] == s[|s| - |r|..];
      r
    else s
  }

  /** `s` with its trailing white space removed. */
  function TrimEnd(s: string): (r: string)
    ensures |r| <= |s| && r == s[..|r|]
    ensures r == [] || !IsTrimmable(r[|r| - 1])
    ensures Blank(s[|r|..])
  {
    if s != [] && IsTrimmable(s[|s| - 1]) then
      var init := s[..|s| - 1];
      var r := TrimEnd(init);
      BlankSnoc(init[|r|..], s[|s| - 1]);
      assert s[|r|..] == init[|r|..] + [s[|s| - 1]];
      assert s[..|r|] == init[..|r|];
      r
    else s
  }

  lemma BlankCons(c: char, a: string)
    requires IsTrimmable(c) && Blank(a)
    ensures Blank([c] + a)
  {
    forall i | 0 <= i < |[c] + a| ensures IsTrimmable(([c] + a)[i]) {
      if i > 0 { assert ([c] + a)[i] == a[i - 1]; }
    }
  }

  lemma BlankSnoc(a: string, c: char)
    requires Blank(a) && IsTrimmable(c)
    ensures Blank(a + [c])
  {
    forall i | 0 <= i < |a + [c]| ensures IsTrimmable((a + [c])[i]) {
      if i < |a| { assert (a + [c])[i] == a[i]; }
    }
  }

  /** `String.prototype.trim`: the part of `s` left between its leading and its trailing white
      space. It is empty exactly when `s` is all white space, and otherwise starts and ends with a
      character that is not. */
  function Trim(s: string): (r: string)
    ensures |r| <= |s|
    ensures r == [] <==> Blank(s)
    ensures r == [] || (!IsTrimmable(r[0]) && !IsTrimmable(r[|r| - 1]))
  {
    var t := TrimStart(s);
    var r := TrimEnd(t);
    TrimRun(s, t, r);
    r
  }

  /** What trimming the start and then the end leaves: nothing exactly when `s` is blank, and
      otherwise a run that starts and ends with a character that is not white space. */
  lemma TrimRun(s: string, t: string, r: string)
    requires |t| <= |s| && t == s[|s| - |t|..] && Blank(s[..|s| - |t|])
    requires t == [] || !IsTrimmable(t[0])
    requires |r| <= |t| && r == t[..|r|] && Blank(t[|r|..])
    requires r == [] || !IsTrimmable(r[|r| - 1])
    ensures r == [] <==> Blank(s)
    ensures r == [] || (!IsTrimmable(r[0]) && !IsTrimmable(r[|r| - 1]))
  {
    if r == [] {
      assert Blank(t[0..]) && t[0..] == t;
      assert t == [];
      assert s[..|s|] == s;
    } else {
      assert r[0] == t[0];
      assert t[0] == s[|s| - |t|];
    }
  }

  /** What the middleware decides: pass the request on, or answer with a status and a message. */
  datatype Verdict = Next | Reject(status: int, message: string)

  /** `validateMessage`: a missing, empty or all-blank text is refused first; then a text longer
      than 1000 UTF-16 code units, judged on the untrimmed text. */
  function ValidateMessage(text: Option<string>): (v: Verdict)
    ensures v == Next <==> text.Some? && !Blank(text.value) && Utf16Length(text.value) <= MaxTextLength
    ensures v == Reject(400, TextRequired) <==> text.None? || Blank(text.value)
    ensures v == Reject(400, TextTooLong) <==>
      text.Some? && !Blank(text.value) && Utf16Length(text.value) > MaxTextLength
  {
    if text.None? then Reject(400, TextRequired)
    else
      if text.value == "" || |Trim(text.value)| == 0 then Reject(400, TextRequired)
      else if Utf16Length(text.value) > MaxTextLength then Reject(400, TextTooLong)
      else Next
  }

  /** The length bound is inclusive and counts the surrounding white space: padding a word with
      blanks to 1000 code units passes, to 1001 code units does not. */
  lemma {:induction false} LengthJudgedUntrimmed(word: string, pad: string)
    requires !Blank(word) && Blank(pad)
    ensures Utf16Length(pad) + Utf16Length(word) == MaxTextLength ==> ValidateMessage(Some(pad + word)) == Next
    ensures Utf16Length(pad) + Utf16Length(word) == MaxTextLength + 1 ==>
      ValidateMessage(Some(pad + word)) == Reject(400, TextTooLong)
  {
    var w := pad + word;
    assert !Blank(w) by {
      var i :| 0 <= i < |word| && !IsTrimmable(word[i]);
      assert w[|pad| + i] == word[i];
    }
    Utf16LengthAppend(pad, word);
  }

  /** Characters above U+FFFF count twice: 501 of them are 1002 code units, too long, while
      1000 characters below U+FFFF pass. */
  lemma AstralCountsTwice(astral: string, plain: string)
    requires |astral| == 501 && forall i :: 0 <= i < |astral| ==> astral[i] as int > 0xFFFF
    requires |plain| == 1000 && forall i :: 0 <= i < |plain| ==> plain[i] as int <= 0xFFFF && !IsTrimmable(plain[i])
    ensures ValidateMessage(Some(astral)) == Reject(400, TextTooLong)
    ensures ValidateMessage(Some(plain)) == Next
  {
    assert !Blank(astral) by {
      assert !IsTrimmable(astral[0]);
    }
    assert !Blank(plain) by {
      assert !IsTrimmable(plain[0]);
    }
  }
}
