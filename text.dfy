/** String primitives the two scripts rely on: Python's str.strip (with and
    without an argument), the `in` test for one character and
    str.split(sep, 1), plus the view of a text file as its lines. */
module Text {

  /** A text file as the scripts see it: absent, or present with its lines
      (each line may still carry its line terminator; every parser trims it). */
  datatype TextFile = Missing | File(lines: seq<string>)

  /** Python's str.isspace(): the characters str.strip() removes when it
      is called without an argument. */
  predicate IsSpace(c: char)
  {
    var n := c as int;
    || 0x9 <= n <= 0xD || 0x1C <= n <= 0x20 || n == 0x85 || n == 0xA0
    || n == 0x1680 || 0x2000 <= n <= 0x200A || n == 0x2028 || n == 0x2029
    || n == 0x202F || n == 0x205F || n == 0x3000
  }

  /** The argument of str.strip as the scripts use it: none (whitespace) or
      a one-character string. */
  datatype Chars = Whitespace | Just(c: char)

  /** Whether strip with argument `chars` removes `c` at an end. */
  predicate Drops(chars: Chars, c: char)
  {
    match chars
    case Whitespace => IsSpace(c)
    case Just(d) => c == d
  }

  /** s.lstrip(chars): drop the longest prefix of characters `chars` drops. */
  function StripLeft(s: string, chars: Chars): (r: string)
    ensures |r| <= |s|
    ensures r != [] ==> !Drops(chars, r[0])
    decreases |s|
  {
    if s != [] && Drops(chars, s[0]) then StripLeft(s[1..], chars) else s
  }

  /** s.rstrip(chars): drop the longest suffix of characters `chars` drops. */
  function StripRight(s: string, chars: Chars): (r: string)
    ensures |r| <= |s|
    ensures r != [] ==> !Drops(chars, r[|r| - 1]) && r[0] == s[0]
    decreases |s|
  {
    if s != [] && Drops(chars, s[|s| - 1]) then StripRight(s[..|s| - 1], chars) else s
  }

  /** s.strip(chars): strip both ends; neither end of the result is a
      character `chars` drops. */
  function Strip(s: string, chars: Chars): (r: string)
    ensures |r| <= |s|
    ensures r != [] ==> !Drops(chars, r[0]) && !Drops(chars, r[|r| - 1])
  {
    StripRight(StripLeft(s, chars), chars)
  }

  /** `l` is a suffix of `s`, and what precedes it is all dropped by `chars`. */
  ghost predicate IsLeftCut(s: string, chars: Chars, l: string)
  {
    && |l| <= |s|
    && (forall j :: 0 <= j < |l| ==> l[j] == s[|s| - |l| + j])
    && (forall k :: 0 <= k < |s| - |l| ==> Drops(chars, s[k]))
  }

  /** `r` is a prefix of `s`, and what follows it is all dropped by `chars`. */
  ghost predicate IsRightCut(s: string, chars: Chars, r: string)
  {
    && |r| <= |s|
    && (forall j :: 0 <= j < |r| ==> r[j] == s[j])
    && (forall k :: |r| <= k < |s| ==> Drops(chars, s[k]))
  }

  /** lstrip keeps a suffix of its input and removes only dropped characters. */
  lemma {:induction false} StripLeftIsSuffix(s: string, chars: Chars)
    ensures IsLeftCut(s, chars, StripLeft(s, chars))
    decreases |s|
  {
    if s != [] && Drops(chars, s[0]) {
      assert StripLeft(s, chars) == StripLeft(s[1..], chars);
      StripLeftIsSuffix(s[1..], chars);
      LeftCutStep(s, chars, StripLeft(s, chars));
    } else {
      assert StripLeft(s, chars) == s;
      NoCut(s, chars);
    }
  }

  /** A string is a cut of itself at either end. */
  lemma NoCut(s: string, chars: Chars)
    ensures IsLeftCut(s, chars, s) && IsRightCut(s, chars, s)
  {
  }

  /** A left cut of `s` minus its dropped first character is a left cut of `s`. */
  lemma LeftCutStep(s: string, chars: Chars, r: string)
    requires s != [] && Drops(chars, s[0]) && IsLeftCut(s[1..], chars, r)
    ensures IsLeftCut(s, chars, r)
  {
    var t := s[1..];
    forall j | 0 <= j < |r|
      ensures r[j] == s[|s| - |r| + j]
    {
      assert r[j] == t[|t| - |r| + j];
    }
    forall k | 0 <= k < |s| - |r|
      ensures Drops(chars, s[k])
    {
      if k > 0 {
        assert s[k] == t[k - 1];
      }
    }
  }

  /** rstrip keeps a prefix of its input and removes only dropped characters. */
  lemma {:induction false} StripRightIsPrefix(s: string, chars: Chars)
    ensures IsRightCut(s, chars, StripRight(s, chars))
    decreases |s|
  {
    if s != [] && Drops(chars, s[|s| - 1]) {
      assert StripRight(s, chars) == StripRight(s[..|s| - 1], chars);
      StripRightIsPrefix(s[..|s| - 1], chars);
      RightCutStep(s, chars, StripRight(s, chars));
    } else {
      assert StripRight(s, chars) == s;
      NoCut(s, chars);
    }
  }

  /** A right cut of `s` minus its dropped last character is a right cut of `s`. */
  lemma RightCutStep(s: string, chars: Chars, r: string)
    requires s != [] && Drops(chars, s[|s| - 1]) && IsRightCut(s[..|s| - 1], chars, r)
    ensures IsRightCut(s, chars, r)
  {
    var t := s[..|s| - 1];
    forall j | 0 <= j < |r|
      ensures r[j] == s[j]
    {
      assert r[j] == t[j];
    }
    forall k | |r| <= k < |s|
      ensures Drops(chars, s[k])
    {
      if k < |s| - 1 {
        assert s[k] == t[k];
      }
    }
  }

  /** `r` is the infix of `s` starting at offset `i`, and everything before
      and after it in `s` is dropped by `chars`. */
  ghost predicate IsStripping(s: string, chars: Chars, i: int, r: string)
  {
    && 0 <= i <= |s| - |r|
    && (forall j :: 0 <= j < |r| ==> r[j] == s[i + j])
    && (forall k :: 0 <= k < i ==> Drops(chars, s[k]))
    && (forall k :: i + |r| <= k < |s| ==> Drops(chars, s[k]))
  }

  /** strip returns an infix of its input: what it removes in front and at
      the back is all dropped by `chars`. */
  lemma StripIsInfix(s: string, chars: Chars)
    ensures IsStripping(s, chars, |s| - |StripLeft(s, chars)|, Strip(s, chars))
  {
    var l := StripLeft(s, chars);
    StripLeftIsSuffix(s, chars);
    StripRightIsPrefix(l, chars);
    assert Strip(s, chars) == StripRight(l, chars);
    InfixOfSuffix(s, chars, l, StripRight(l, chars));
  }

  /** A prefix `r` of a suffix `l` of `s`, each cut off at dropped characters
      only, is a stripping of `s`. */
  lemma InfixOfSuffix(s: string, chars: Chars, l: string, r: string)
    requires IsLeftCut(s, chars, l) && IsRightCut(l, chars, r)
    ensures IsStripping(s, chars, |s| - |l|, r)
  {
    var i := |s| - |l|;
    forall k | i + |r| <= k < |s|
      ensures Drops(chars, s[k])
    {
      assert s[k] == l[k - i];
    }
  }

  /** s.strip(): Python's default whitespace trim. */
  function Trim(s: string): (r: string)
    ensures IsTrimmed(r)
  {
    Strip(s, Whitespace)
  }

  /** No whitespace at either end: what Trim always delivers. */
  predicate IsTrimmed(s: string)
  {
    s != [] ==> !IsSpace(s[0]) && !IsSpace(s[|s| - 1])
  }

  /** Stripping removes only characters `chars` drops: any other character
      occurs in the result exactly when it occurs in the input. */
  lemma StripKeepsOthers(s: string, chars: Chars, c: char)
    requires !Drops(chars, c)
    ensures c in Strip(s, chars) <==> c in s
  {
    StripIsInfix(s, chars);
    InfixKeepsOthers(s, chars, |s| - |StripLeft(s, chars)|, Strip(s, chars), c);
  }

  /** A stripping keeps every character that `chars` does not drop. */
  lemma InfixKeepsOthers(s: string, chars: Chars, i: int, r: string, c: char)
    requires IsStripping(s, chars, i, r) && !Drops(chars, c)
    ensures c in r <==> c in s
  {
    if c in r {
      var j :| 0 <= j < |r| && r[j] == c;
      assert s[i + j] == c;
    }
    if c in s {
      var k :| 0 <= k < |s| && s[k] == c;
      assert r[k - i] == c;
    }
  }

  /** Trimming keeps every character that is not whitespace, such as the
      separators ':' and '='. */
  lemma TrimKeeps(s: string, c: char)
    requires !IsSpace(c)
    ensures c in Trim(s) <==> c in s
  {
    StripKeepsOthers(s, Whitespace, c);
  }

  /** A string with no whitespace at either end is its own trim. */
  lemma TrimmedIsFixed(s: string)
    requires IsTrimmed(s)
    ensures Trim(s) == s
  {
  }

  /** Trimming a string that starts with a non-whitespace character keeps
      that character in front. */
  lemma TrimKeepsFirst(s: string)
    requires s != [] && !IsSpace(s[0])
    ensures Trim(s) != [] && Trim(s)[0] == s[0]
  {
    assert StripLeft(s, Whitespace) == s;
    StripRightIsPrefix(s, Whitespace);
  }

  /** The position of the first occurrence of `c` in `s`. */
  function IndexOf(s: string, c: char): (i: nat)
    requires c in s
    ensures i < |s| && s[i] == c && c !in s[..i]
  {
    if s[0] == c then 0 else 1 + IndexOf(s[1..], c)
  }

  /** s.split(sep, 1) when `sep` occurs in `s`: the text before the first
      `sep` and everything after it. */
  function SplitFirst(s: string, sep: char): (parts: (string, string))
    requires sep in s
    ensures s == parts.0 + [sep] + parts.1
    ensures sep !in parts.0
  {
    var i := IndexOf(s, sep);
    assert s == s[..i] + [sep] + s[i + 1..];
    (s[..i], s[i + 1..])
  }

  /** Splitting is at the FIRST separator: whenever `s` is `a`, `sep`, `b`
      with no `sep` in `a`, those are the two parts, whatever `b` holds. */
  lemma SplitFirstUnique(s: string, sep: char, a: string, b: string)
    requires s == a + [sep] + b && sep !in a
    ensures sep in s && SplitFirst(s, sep) == (a, b)
  {
    assert s[|a|] == sep;
    var i := IndexOf(s, sep);
    assert i == |a|;
    assert s[..i] == a;
    assert s[i + 1..] == b;
  }
}
