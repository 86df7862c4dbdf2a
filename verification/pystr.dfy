/** The Python string built-ins the handlers and the chunker rely on:
    `str.split()` with no arguments, `str.strip()`, `sep.join(parts)`,
    `str.lower()`, `str.endswith(...)`, `s.split(c, 1)` and `int(s)`. */
module PyStr {
  import opened Common

  /** Python's `str.isspace()` for one character; the same set drives
      `str.split()` and `str.strip()` when they are given no argument. */
  predicate IsSpace(c: char)
  {
    || ('\t' <= c <= '\r')
    || ('\U{1C}' <= c <= '\U{1F}')
    || c == ' '
    || c == '\U{85}'
    || c == '\U{A0}'
    || c == '\U{1680}'
    || ('\U{2000}' <= c <= '\U{200A}')
    || c == '\U{2028}'
    || c == '\U{2029}'
    || c == '\U{202F}'
    || c == '\U{205F}'
    || c == '\U{3000}'
  }

  /** `not s.strip()`: the string is empty or whitespace only. */
  predicate IsBlank(s: string)
  {
    forall i :: 0 <= i < |s| ==> IsSpace(s[i])
  }

  /** No character of `s` is whitespace. */
  predicate NoSpace(s: string)
  {
    forall i :: 0 <= i < |s| ==> !IsSpace(s[i])
  }

  /** A word as `str.split()` produces it: non-empty, no whitespace. */
  predicate IsWord(w: string)
  {
    |w| > 0 && NoSpace(w)
  }

  // ---------------------------------------------------------------------
  // str.split() and str.strip()
  // ---------------------------------------------------------------------

  /** `s` without its leading whitespace. */
  function DropSpace(s: string): (r: string)
    ensures |r| <= |s|
    ensures r == [] || !IsSpace(r[0])
  {
    if s != [] && IsSpace(s[0]) then DropSpace(s[1..]) else s
  }

  /** What `DropSpace` removes is a blank prefix. */
  lemma {:induction false} DropSpaceFacts(s: string)
    ensures DropSpace(s) == s[|s| - |DropSpace(s)|..]
    ensures IsBlank(s[..|s| - |DropSpace(s)|])
    decreases |s|
  {
    if s != [] && IsSpace(s[0]) {
      var r := DropSpace(s[1..]);
      DropSpaceFacts(s[1..]);
      assert s[1..][..|s[1..]| - |r|] == s[1..|s| - |r|];
    }
  }

  /** `s` without its trailing whitespace. */
  function DropSpaceEnd(s: string): (r: string)
    ensures |r| <= |s|
    ensures r == [] || !IsSpace(r[|r| - 1])
  {
    if s != [] && IsSpace(s[|s| - 1]) then DropSpaceEnd(s[..|s| - 1]) else s
  }

  /** What `DropSpaceEnd` removes is a blank suffix. */
  lemma {:induction false} DropSpaceEndFacts(s: string)
    ensures DropSpaceEnd(s) == s[..|DropSpaceEnd(s)|]
    ensures IsBlank(s[|DropSpaceEnd(s)|..])
    decreases |s|
  {
    if s != [] && IsSpace(s[|s| - 1]) {
      var r := DropSpaceEnd(s[..|s| - 1]);
      DropSpaceEndFacts(s[..|s| - 1]);
      assert s[..|s| - 1][|r|..] + [s[|s| - 1]] == s[|r|..];
    }
  }

  /** The length of the longest whitespace-free prefix of `s`. */
  function WordLen(s: string): (n: nat)
    ensures n <= |s|
    ensures s != [] && !IsSpace(s[0]) ==> n > 0
  {
    if s != [] && !IsSpace(s[0]) then 1 + WordLen(s[1..]) else 0
  }

  /** `WordLen` stops at the first whitespace character or the end. */
  lemma {:induction false} WordLenFacts(s: string)
    ensures NoSpace(s[..WordLen(s)])
    ensures WordLen(s) == |s| || IsSpace(s[WordLen(s)])
    decreases |s|
  {
    if s != [] && !IsSpace(s[0]) {
      var n := WordLen(s);
      WordLenFacts(s[1..]);
      assert s[..n] == [s[0]] + s[1..][..n - 1];
    }
  }

  /** Python's `s.split()`: the maximal runs of non-whitespace, in order. */
  function Split(s: string): seq<string>
    decreases |s|
  {
    var t := DropSpace(s);
    if t == [] then []
    else
      var n := WordLen(t);
      [t[..n]] + Split(t[n..])
  }

  /** Python's `s.strip()`. */
  function Strip(s: string): string
  {
    DropSpaceEnd(DropSpace(s))
  }

  /** `s.strip()` is empty exactly for blank `s`, and otherwise starts and
      ends with a non-whitespace character. */
  lemma StripFacts(s: string)
    ensures Strip(s) == [] <==> IsBlank(s)
    ensures Strip(s) != [] ==> !IsSpace(Strip(s)[0]) && !IsSpace(Strip(s)[|Strip(s)| - 1])
  {
    var t := DropSpace(s);
    var r := DropSpaceEnd(t);
    DropSpaceFacts(s);
    DropSpaceEndFacts(t);
    if r == [] {
      assert s == s[..|s| - |t|] + t;
      assert t == t[|r|..];
    } else {
      assert r[0] == t[0];
      assert t[0] == s[|s| - |t|];
    }
  }

  /** Python's `sep.join(parts)`. */
  function Join(sep: string, parts: seq<string>): string
  {
    if |parts| == 0 then ""
    else if |parts| == 1 then parts[0]
    else parts[0] + sep + Join(sep, parts[1..])
  }

  /** Every element of `s.split()` is a word. */
  lemma {:induction false} SplitWords(s: string)
    ensures forall i :: 0 <= i < |Split(s)| ==> IsWord(Split(s)[i])
    decreases |s|
  {
    var t := DropSpace(s);
    if t != [] {
      var n := WordLen(t);
      WordLenFacts(t);
      SplitWords(t[n..]);
    }
  }

  lemma StripKeepsTrimmed(s: string)
    requires s == [] || (!IsSpace(s[0]) && !IsSpace(s[|s| - 1]))
    ensures Strip(s) == s
  {
    assert DropSpace(s) == s;
  }

  lemma {:induction false} SplitBlank(s: string)
    ensures Split(s) == [] <==> IsBlank(s)
  {
    var t := DropSpace(s);
    DropSpaceFacts(s);
    if t == [] {
      assert s[..|s| - |t|] == s;
    } else {
      assert t[0] == s[|s| - |t|];
    }
  }

  /** One leading space before a word changes nothing in the split. */
  lemma SplitSpaceBeforeWord(rest: string)
    requires rest == [] || !IsSpace(rest[0])
    ensures Split(" " + rest) == Split(rest)
  {
    var s := " " + rest;
    assert s[1..] == rest;
    assert DropSpace(s) == DropSpace(rest) == rest;
  }

  lemma {:induction false} WordLenOfWord(w: string, rest: string)
    requires IsWord(w)
    requires rest == [] || IsSpace(rest[0])
    ensures WordLen(w + rest) == |w|
    decreases |w|
  {
    if |w| > 1 {
      assert (w + rest)[1..] == w[1..] + rest;
      WordLenOfWord(w[1..], rest);
    } else {
      assert (w + rest)[1..] == rest;
    }
  }

  lemma {:induction false} JoinStartsWithFirst(sep: string, parts: seq<string>)
    requires |parts| > 0
    ensures |Join(sep, parts)| >= |parts[0]| && Join(sep, parts)[..|parts[0]|] == parts[0]
  {
  }

  /** A word followed by nothing or by whitespace is split off whole. */
  lemma SplitWordThen(w: string, rest: string)
    requires IsWord(w)
    requires rest == [] || IsSpace(rest[0])
    ensures Split(w + rest) == [w] + Split(rest)
  {
    var s := w + rest;
    WordLenOfWord(w, rest);
    assert DropSpace(s) == s;
    assert s[..|w|] == w;
    assert s[|w|..] == rest;
  }

  /** A word, one space, then text that starts with a word or is empty. */
  lemma SplitConsWord(w: string, rest: string)
    requires IsWord(w)
    requires rest == [] || !IsSpace(rest[0])
    ensures Split(w + " " + rest) == [w] + Split(rest)
  {
    assert w + " " + rest == w + (" " + rest);
    SplitWordThen(w, " " + rest);
    SplitSpaceBeforeWord(rest);
  }

  /** The inductive step of `SplitJoin`, kept apart so that its proof does
      not see the quantified facts about the other words. */
  lemma SplitJoinStep(w: string, tail: seq<string>)
    requires IsWord(w) && |tail| > 0
    requires Join(" ", tail) != [] && !IsSpace(Join(" ", tail)[0])
    requires Split(Join(" ", tail)) == tail
    ensures Split(Join(" ", [w] + tail)) == [w] + tail
  {
    var rest := Join(" ", tail);
    SplitConsWord(w, rest);
    assert ([w] + tail)[1..] == tail;
  }

  /** Joining words with one space and splitting again gives back the words. */
  lemma {:induction false} SplitJoin(ws: seq<string>)
    requires forall i :: 0 <= i < |ws| ==> IsWord(ws[i])
    ensures Split(Join(" ", ws)) == ws
    decreases |ws|
  {
    if |ws| == 1 {
      var w := ws[0];
      SplitWordThen(w, []);
      assert w + [] == w;
    } else if |ws| > 1 {
      var tail := ws[1..];
      JoinStartsWithFirst(" ", tail);
      assert Join(" ", tail)[0] == tail[0][0];
      SplitJoin(tail);
      SplitJoinStep(ws[0], tail);
      assert ws == [ws[0]] + tail;
    }
  }

  // ---------------------------------------------------------------------
  // str.lower(), str.endswith(), s.split(c, 1)
  // ---------------------------------------------------------------------

  /** Lower-cases the ASCII letters and leaves every other character. */
  function LowerChar(c: char): char
  {
    if 'A' <= c <= 'Z' then (c as int - 'A' as int + 'a' as int) as char else c
  }

  /** `s.lower()`, restricted to the ASCII letters. */
  function Lower(s: string): string
  {
    seq(|s|, i requires 0 <= i < |s| => LowerChar(s[i]))
  }

  /** `s.endswith(suffix)`. */
  predicate EndsWith(s: string, suffix: string)
  {
    |suffix| <= |s| && s[|s| - |suffix|..] == suffix
  }

  /** `s.endswith(tuple(suffixes))`. */
  predicate EndsWithAny(s: string, suffixes: seq<string>)
  {
    exists i :: 0 <= i < |suffixes| && EndsWith(s, suffixes[i])
  }

  /** The position of the first `c` in `s`. */
  function FirstIndex(s: string, c: char): (i: nat)
    requires c in s
    ensures i < |s| && s[i] == c && c !in s[..i]
  {
    if s[0] == c then 0
    else
      var i := 1 + FirstIndex(s[1..], c);
      assert s[..i] == [s[0]] + s[1..][..i - 1];
      i
  }

  // ---------------------------------------------------------------------
  // int(s) for a string s, base 10
  // ---------------------------------------------------------------------

  predicate IsDigit(c: char)
  {
    '0' <= c <= '9'
  }

  /** The body of a base-10 literal `int` accepts: ASCII digits, an
      underscore allowed only between two digits. */
  predicate IsDigitRun(s: string)
  {
    && |s| > 0
    && IsDigit(s[0])
    && IsDigit(s[|s| - 1])
    && (forall i :: 0 <= i < |s| ==> IsDigit(s[i]) || s[i] == '_')
    && (forall i :: 0 <= i < |s| - 1 ==> s[i] == '_' ==> s[i + 1] != '_')
  }

  predicate AllDigits(s: string)
  {
    forall i :: 0 <= i < |s| ==> IsDigit(s[i])
  }

  /** `s` with its underscores removed. */
  function Digits(s: string): (r: string)
    requires forall i :: 0 <= i < |s| ==> IsDigit(s[i]) || s[i] == '_'
    ensures AllDigits(r)
    ensures AllDigits(s) ==> r == s
  {
    if s == [] then []
    else if s[0] == '_' then Digits(s[1..])
    else [s[0]] + Digits(s[1..])
  }

  /** The value of a string of decimal digits. */
  function DigitsValue(s: string): nat
    requires AllDigits(s)
  {
    if s == [] then 0
    else 10 * DigitsValue(s[..|s| - 1]) + (s[|s| - 1] as int - '0' as int)
  }

  /** CPython's default integer-string conversion limit: `int` refuses a
      literal of more digits, underscores and sign not counted
      (`sys.int_info.default_max_str_digits`). */
  const MaxStrDigits: nat := 4300

  /** The value of a digit run of at most `MaxStrDigits` digits, or `None`
      when `s` is not one. */
  function ParseDigits(s: string): Option<nat>
  {
    if IsDigitRun(s) && |Digits(s)| <= MaxStrDigits then Some(DigitsValue(Digits(s))) else None
  }

  /** An optional sign, then a digit run. */
  function ParseSigned(t: string): Option<int>
  {
    var signed := |t| > 0 && (t[0] == '-' || t[0] == '+');
    match ParseDigits(if signed then t[1..] else t)
    case None => None
    case Some(v) =>
      var x: int := v;
      Some(if signed && t[0] == '-' then -x else x)
  }

  /** The whitespace `int(s)` skips around the literal. Below U+0080 it is
      only the C whitespace `\t \n \v \f \r` and space; from U+0080 up it
      is every `str.isspace()` character. The separators U+001C to U+001F,
      which `str.isspace()` and `str.strip()` accept, are not skipped. */
  predicate IsIntSpace(c: char)
  {
    IsSpace(c) && !IsSeparator(c)
  }

  /** `s` without the leading whitespace `int` skips. */
  function DropIntSpace(s: string): (r: string)
    ensures |r| <= |s|
    ensures r == [] || !IsIntSpace(r[0])
  {
    if s != [] && IsIntSpace(s[0]) then DropIntSpace(s[1..]) else s
  }

  /** `s` without the trailing whitespace `int` skips. */
  function DropIntSpaceEnd(s: string): (r: string)
    ensures |r| <= |s|
    ensures r == [] || !IsIntSpace(r[|r| - 1])
  {
    if s != [] && IsIntSpace(s[|s| - 1]) then DropIntSpaceEnd(s[..|s| - 1]) else s
  }

  /** Python's `int(s)`: surrounding whitespace `int` skips, an optional
      sign, then a digit run. `None` stands for the `ValueError` it raises
      otherwise. */
  function ParseInt(s: string): Option<int>
  {
    ParseSigned(DropIntSpaceEnd(DropIntSpace(s)))
  }

  /** A string of ASCII digits is a digit run, worth its decimal value. */
  lemma ParseDigitsOfDigits(d: string)
    requires d != [] && AllDigits(d) && |d| <= MaxStrDigits
    ensures ParseDigits(d) == Some(DigitsValue(d))
  {
    assert IsDigitRun(d);
  }

  /** A string of ASCII digits parses to its decimal value. */
  lemma ParseSignedDigits(d: string)
    requires d != [] && AllDigits(d) && |d| <= MaxStrDigits
    ensures ParseSigned(d) == Some(DigitsValue(d))
  {
    ParseDigitsOfDigits(d);
    assert d[0] != '-' && d[0] != '+' by {
      assert IsDigit(d[0]);
    }
  }

  /** A minus sign and a string of ASCII digits parse to the negated value. */
  lemma ParseSignedNegDigits(t: string)
    requires |t| > 1 && t[0] == '-' && AllDigits(t[1..]) && |t| - 1 <= MaxStrDigits
    ensures ParseSigned(t) == Some(-(DigitsValue(t[1..]) as int))
  {
    ParseDigitsOfDigits(t[1..]);
  }

  /** `int(d)` is the decimal value of a string `d` of at most
      `MaxStrDigits` ASCII digits. */
  lemma ParseIntDigits(d: string)
    requires d != [] && AllDigits(d) && |d| <= MaxStrDigits
    ensures ParseInt(d) == Some(DigitsValue(d))
  {
    assert IsDigit(d[0]) && IsDigit(d[|d| - 1]);
    ParseIntTrimmed(d);
    ParseSignedDigits(d);
  }

  /** `int("-" + d)` is the negated value of a string `d` of at most
      `MaxStrDigits` ASCII digits. */
  lemma ParseIntNegative(t: string)
    requires |t| > 1 && t[0] == '-' && AllDigits(t[1..]) && |t| - 1 <= MaxStrDigits
    ensures ParseInt(t) == Some(-(DigitsValue(t[1..]) as int))
  {
    assert IsDigit(t[1..][|t| - 2]);
    ParseIntTrimmed(t);
    ParseSignedNegDigits(t);
  }

  /** A literal whose digit run, after an optional sign, has more than
      `MaxStrDigits` digits makes `int` fail, however well-formed it is. */
  lemma ParseIntTooLong(t: string)
    requires |t| > 0
    requires var body := if t[0] == '-' || t[0] == '+' then t[1..] else t;
      IsDigitRun(body) && |Digits(body)| > MaxStrDigits
    ensures ParseInt(t) == None
  {
    var body := if t[0] == '-' || t[0] == '+' then t[1..] else t;
    assert t[|t| - 1] == body[|body| - 1];
    ParseIntTrimmed(t);
  }

  /** `int` of a string starting with a sign or digit and ending in a digit
      is `int` of the string itself. */
  lemma ParseIntTrimmed(s: string)
    requires |s| > 0 && (s[0] == '-' || s[0] == '+' || IsDigit(s[0])) && IsDigit(s[|s| - 1])
    ensures ParseInt(s) == ParseSigned(s)
  {
    assert IsDigit(s[|s| - 1]) && !IsIntSpace(s[|s| - 1]);
    assert DropIntSpace(s) == s by {
      assert s[0] == '-' || s[0] == '+' || IsDigit(s[0]);
      assert !IsIntSpace(s[0]);
    }
  }

  /** A character `str.isspace()` accepts but `int` does not skip. */
  predicate IsSeparator(c: char)
  {
    '\U{1C}' <= c <= '\U{1F}'
  }

  /** Leading whitespace that `int` skips is dropped up to the first other character. */
  lemma {:induction false} DropIntSpaceOver(w: string, x: string)
    requires forall i :: 0 <= i < |w| ==> IsIntSpace(w[i])
    requires x == [] || !IsIntSpace(x[0])
    ensures DropIntSpace(w + x) == x
  {
    if w != [] {
      assert (w + x)[1..] == w[1..] + x;
      DropIntSpaceOver(w[1..], x);
    }
  }

  /** Trailing whitespace that `int` skips is dropped back to the last other character. */
  lemma {:induction false} DropIntSpaceEndOver(x: string, w: string)
    requires forall i :: 0 <= i < |w| ==> IsIntSpace(w[i])
    requires x == [] || !IsIntSpace(x[|x| - 1])
    ensures DropIntSpaceEnd(x + w) == x
  {
    if w != [] {
      assert (x + w)[..|x + w| - 1] == x + w[..|w| - 1];
      DropIntSpaceEndOver(x, w[..|w| - 1]);
    }
  }

  /** `int` skips any run of its whitespace before and after a literal. */
  lemma ParseIntSkipsSpace(before: string, t: string, after: string)
    requires forall i :: 0 <= i < |before| ==> IsIntSpace(before[i])
    requires forall i :: 0 <= i < |after| ==> IsIntSpace(after[i])
    requires |t| > 0 && (t[0] == '-' || t[0] == '+' || IsDigit(t[0])) && IsDigit(t[|t| - 1])
    ensures ParseInt(before + t + after) == ParseSigned(t)
  {
    assert before + t + after == before + (t + after);
    DropIntSpaceOver(before, t + after);
    DropIntSpaceEndOver(t, after);
  }

  /** A leading or trailing U+001C to U+001F makes `int` fail, although
      `str.strip()` would remove that character. */
  lemma ParseIntRejectsSeparator(s: string)
    requires |s| > 0 && (IsSeparator(s[0]) || IsSeparator(s[|s| - 1]))
    ensures ParseInt(s) == None
    ensures IsSpace(s[0]) || IsSpace(s[|s| - 1])
  {
    var t := DropIntSpaceEnd(DropIntSpace(s));
    if IsSeparator(s[0]) {
      assert DropIntSpace(s) == s;
      DropIntSpaceEndKeepsFirst(s);
      assert t[0] == s[0];
    } else {
      DropIntSpaceKeepsLast(s);
      assert DropIntSpaceEnd(DropIntSpace(s)) == DropIntSpace(s);
      assert t[|t| - 1] == s[|s| - 1];
    }
  }

  /** Dropping trailing `int` whitespace keeps a first character `int` does not skip. */
  lemma {:induction false} DropIntSpaceEndKeepsFirst(s: string)
    requires |s| > 0 && !IsIntSpace(s[0])
    ensures |DropIntSpaceEnd(s)| > 0 && DropIntSpaceEnd(s)[0] == s[0]
  {
    if |s| > 1 && IsIntSpace(s[|s| - 1]) {
      DropIntSpaceEndKeepsFirst(s[..|s| - 1]);
    }
  }

  /** Dropping leading `int` whitespace keeps a last character `int` does not skip. */
  lemma {:induction false} DropIntSpaceKeepsLast(s: string)
    requires |s| > 0 && !IsIntSpace(s[|s| - 1])
    ensures |DropIntSpace(s)| > 0 && DropIntSpace(s)[|DropIntSpace(s)| - 1] == s[|s| - 1]
  {
    if |s| > 1 && IsIntSpace(s[0]) {
      DropIntSpaceKeepsLast(s[1..]);
    }
  }
}
