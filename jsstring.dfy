/** The JavaScript string operations the games page applies to sport labels:
    `toLowerCase()` and `replace(/\s+/g, '-')`. */
module JsString {

  /** A code point matched by `\s` in a JavaScript regular expression: the
      ECMAScript WhiteSpace and LineTerminator characters. */
  predicate IsSpace(c: char) {
    var n := c as int;
    || n == 0x09 || n == 0x0A || n == 0x0B || n == 0x0C || n == 0x0D || n == 0x20
    || n == 0xA0 || n == 0x1680 || (0x2000 <= n <= 0x200A) || n == 0x2028 || n == 0x2029
    || n == 0x202F || n == 0x205F || n == 0x3000 || n == 0xFEFF
  }

  predicate IsUpper(c: char) {
    'A' <= c <= 'Z'
  }

  /** Lower-casing of one character, for the ASCII letters only. */
  function LowerChar(c: char): char {
    if IsUpper(c) then (c as int + 32) as char else c
  }

  /** `s.toLowerCase()`, restricted to ASCII letters. */
  function ToLowerCase(s: string): (r: string)
    ensures |r| == |s|
    ensures forall i :: 0 <= i < |r| ==> !IsUpper(r[i])
    ensures forall i :: 0 <= i < |r| ==> IsSpace(r[i]) == IsSpace(s[i])
    ensures forall i :: 0 <= i < |s| && !IsUpper(s[i]) ==> r[i] == s[i]
    ensures forall i :: 0 <= i < |s| && IsUpper(s[i]) ==>
      'a' <= r[i] <= 'z' && r[i] as int - 'a' as int == s[i] as int - 'A' as int
  {
    seq(|s|, i requires 0 <= i < |s| => LowerChar(s[i]))
  }

  /** The replacement `replace(/\s+/g, '-')` performs, one character at a time:
      `inRun` says that the previous character was whitespace, so the run it
      belongs to has already produced its hyphen. */
  function Hyphenate(s: string, inRun: bool): string
    decreases |s|
  {
    if s == [] then []
    else if IsSpace(s[0]) then (if inRun then [] else "-") + Hyphenate(s[1..], true)
    else [s[0]] + Hyphenate(s[1..], false)
  }

  /** `s.replace(/\s+/g, '-')`: every maximal run of whitespace becomes one hyphen,
      every other character is kept. */
  function HyphenateSpaces(s: string): (r: string)
    ensures |r| <= |s|
    ensures r == [] <==> s == []
  {
    HyphenateLength(s, false);
    Hyphenate(s, false)
  }

  /** The replacement never lengthens a string, and outside a run it turns a
      non-empty string into a non-empty one. */
  lemma {:induction false} HyphenateLength(s: string, inRun: bool)
    ensures |Hyphenate(s, inRun)| <= |s|
    ensures !inRun && s != [] ==> Hyphenate(s, inRun) != []
    decreases |s|
  {
    if s != [] {
      HyphenateLength(s[1..], IsSpace(s[0]));
    }
  }

  /** No whitespace survives the replacement; every character that does is either
      a hyphen or a character of the input. */
  lemma {:induction false} HyphenateLeavesNoSpaces(s: string, inRun: bool)
    ensures forall i :: 0 <= i < |Hyphenate(s, inRun)| ==> !IsSpace(Hyphenate(s, inRun)[i])
    ensures forall i :: 0 <= i < |Hyphenate(s, inRun)| ==> Hyphenate(s, inRun)[i] == '-' || Hyphenate(s, inRun)[i] in s
    decreases |s|
  {
    if s != [] {
      var r := Hyphenate(s, inRun);
      HyphenateLeavesNoSpaces(s[1..], IsSpace(s[0]));
      var head: string := if IsSpace(s[0]) then (if inRun then [] else "-") else [s[0]];
      assert r == head + Hyphenate(s[1..], IsSpace(s[0]));
      forall i | 0 <= i < |r|
        ensures !IsSpace(r[i]) && (r[i] == '-' || r[i] in s)
      {
        if i >= |head| {
          assert r[i] == Hyphenate(s[1..], IsSpace(s[0]))[i - |head|];
        }
      }
    }
  }

  /** Whether the run state after reading `x`, starting in state `inRun`, is "inside a whitespace run". */
  function RunStateAfter(x: string, inRun: bool): bool {
    if x == [] then inRun else IsSpace(x[|x| - 1])
  }

  /** The replacement works left to right: a concatenation is replaced piecewise,
      the second piece starting in the run state the first one ends in. */
  lemma {:induction false} HyphenateConcat(x: string, y: string, inRun: bool)
    ensures Hyphenate(x + y, inRun) == Hyphenate(x, inRun) + Hyphenate(y, RunStateAfter(x, inRun))
    decreases |x|
  {
    if x == [] {
      assert x + y == y;
    } else {
      assert (x + y)[0] == x[0];
      assert (x + y)[1..] == x[1..] + y;
      HyphenateConcat(x[1..], y, IsSpace(x[0]));
      assert RunStateAfter(x[1..], IsSpace(x[0])) == RunStateAfter(x, inRun) by {
        if x[1..] != [] {
          assert x[1..][|x[1..]| - 1] == x[|x| - 1];
        }
      }
    }
  }

  /** A non-empty run of whitespace met outside a run yields exactly one hyphen. */
  lemma {:induction false} HyphenateWhitespaceRun(w: string, inRun: bool)
    requires w != [] && forall i :: 0 <= i < |w| ==> IsSpace(w[i])
    ensures Hyphenate(w, inRun) == if inRun then [] else "-"
    decreases |w|
  {
    assert IsSpace(w[0]);
    if |w| > 1 {
      HyphenateWhitespaceRun(w[1..], true);
    }
  }

  /** A string without whitespace is left as it is. */
  lemma {:induction false} HyphenateWithoutSpaces(s: string, inRun: bool)
    requires forall i :: 0 <= i < |s| ==> !IsSpace(s[i])
    ensures Hyphenate(s, inRun) == s
    decreases |s|
  {
    if s != [] {
      assert !IsSpace(s[0]);
      HyphenateWithoutSpaces(s[1..], false);
      assert s == [s[0]] + s[1..];
    }
  }

  /** Replacing twice is the same as replacing once. */
  lemma HyphenateIdempotent(s: string)
    ensures HyphenateSpaces(HyphenateSpaces(s)) == HyphenateSpaces(s)
  {
    HyphenateLeavesNoSpaces(s, false);
    var r := Hyphenate(s, false);
    assert forall i :: 0 <= i < |r| ==> !IsSpace(r[i]);
    HyphenateWithoutSpaces(r, false);
  }

  /** A maximal whitespace run between two other pieces becomes exactly one hyphen,
      and the pieces on either side are replaced independently. */
  lemma HyphenateRun(a: string, w: string, b: string)
    requires a == [] || !IsSpace(a[|a| - 1])
    requires w != [] && forall i :: 0 <= i < |w| ==> IsSpace(w[i])
    requires b == [] || !IsSpace(b[0])
    ensures HyphenateSpaces(a + w + b) == HyphenateSpaces(a) + "-" + HyphenateSpaces(b)
  {
    HyphenateConcat(a + w, b, false);
    HyphenateConcat(a, w, false);
    HyphenateWhitespaceRun(w, false);
    assert (a + w)[|a + w| - 1] == w[|w| - 1];
    assert Hyphenate(b, true) == Hyphenate(b, false);
  }
}
