/**
 * The JavaScript string built-ins the bot relies on, written out:
 * `split` on a one-character separator, `trim`, `toLowerCase` (ASCII letters),
 * `slice` with a possibly negative start, `String(n)` for a natural number and
 * `padStart`. Strings are sequences of Unicode code points.
 */
module JsText {

  // ---------------------------------------------------------------------------
  // trim()

  /** The ECMAScript WhiteSpace and LineTerminator code points, which `trim` removes. */
  predicate IsJsWhitespace(c: char) {
    || c == '\t' || c == '\n' || c == '\U{000B}' || c == '\U{000C}' || c == '\r'
    || c == ' ' || c == '\U{00A0}' || c == '\U{1680}' || ('\U{2000}' <= c <= '\U{200A}')
    || c == '\U{2028}' || c == '\U{2029}' || c == '\U{202F}' || c == '\U{205F}'
    || c == '\U{3000}' || c == '\U{FEFF}'
  }

  predicate AllWhitespace(s: string) {
    forall i :: 0 <= i < |s| ==> IsJsWhitespace(s[i])
  }

  /** Neither end of `s` is whitespace. */
  predicate IsTrimmed(s: string) {
    s == [] || (!IsJsWhitespace(s[0]) && !IsJsWhitespace(s[|s| - 1]))
  }

  /**
   * The step of `TrimStart`: if `r` is what trimming the tail `s[1..]` gives and
   * `s` starts with whitespace, `r` is also what trimming `s` should give.
   */
  lemma TrimStartStep(s: string, r: string)
    requires |s| > 0 && IsJsWhitespace(s[0])
    requires |r| <= |s| - 1 && r == s[1..][|s| - 1 - |r|..]
    requires AllWhitespace(s[1..][..|s| - 1 - |r|])
    ensures |r| <= |s| && r == s[|s| - |r|..]
    ensures AllWhitespace(s[..|s| - |r|])
  {
    assert s[1..][|s| - 1 - |r|..] == s[|s| - |r|..];
    forall i | 1 <= i < |s| - |r|
      ensures IsJsWhitespace(s[i])
    {
      assert s[i] == s[1..][..|s| - 1 - |r|][i - 1];
    }
  }

  /** One more whitespace character at the back keeps a suffix all whitespace. */
  lemma WhitespaceSuffixStep(s: string, n: nat)
    requires n < |s| && IsJsWhitespace(s[|s| - 1]) && AllWhitespace(s[..|s| - 1][n..])
    ensures AllWhitespace(s[n..])
  {
    forall i | n <= i < |s| - 1
      ensures IsJsWhitespace(s[i])
    {
      assert s[i] == s[..|s| - 1][n..][i - n];
    }
  }

  /** Drops the leading whitespace: the result is a suffix and everything dropped is whitespace. */
  function TrimStart(s: string): (r: string)
    ensures |r| <= |s| && r == s[|s| - |r|..]
    ensures AllWhitespace(s[..|s| - |r|])
    ensures r == [] || !IsJsWhitespace(r[0])
  {
    if |s| > 0 && IsJsWhitespace(s[0]) then
      var r := TrimStart(s[1..]);
      TrimStartStep(s, r);
      r
    else
      s
  }

  /** Drops the trailing whitespace: the result is a prefix and everything dropped is whitespace. */
  function TrimEnd(s: string): (r: string)
    ensures |r| <= |s| && r == s[..|r|]
    ensures AllWhitespace(s[|r|..])
    ensures r == [] || !IsJsWhitespace(r[|r| - 1])
  {
    if |s| > 0 && IsJsWhitespace(s[|s| - 1]) then
      var r := TrimEnd(s[..|s| - 1]);
      WhitespaceSuffixStep(s, |r|);
      r
    else
      s
  }

  /** `s.trim()`: a contiguous piece of `s` with no whitespace at either end. */
  function Trim(s: string): string {
    TrimEnd(TrimStart(s))
  }

  /** `trim` keeps a piece of its input that has no whitespace at either end. */
  lemma TrimShape(s: string)
    ensures IsTrimmed(Trim(s)) && |Trim(s)| <= |s|
    ensures forall c :: c in Trim(s) ==> c in s
  {
    var t := TrimStart(s);
    var r := TrimEnd(t);
    assert r == [] || r[0] == t[0];
    assert forall c :: c in r ==> c in t;
  }

  lemma {:induction false} TrimStartSkips(pad: string, u: string)
    requires AllWhitespace(pad)
    requires u == [] || !IsJsWhitespace(u[0])
    ensures TrimStart(pad + u) == u
    decreases |pad|
  {
    if pad != [] {
      assert (pad + u)[1..] == pad[1..] + u;
      TrimStartSkips(pad[1..], u);
    } else {
      assert pad + u == u;
    }
  }

  lemma {:induction false} TrimEndSkips(u: string, pad: string)
    requires AllWhitespace(pad)
    requires u == [] || !IsJsWhitespace(u[|u| - 1])
    ensures TrimEnd(u + pad) == u
    decreases |pad|
  {
    if pad != [] {
      assert (u + pad)[..|u + pad| - 1] == u + pad[..|pad| - 1];
      TrimEndSkips(u, pad[..|pad| - 1]);
    } else {
      assert u + pad == u;
    }
  }

  /**
   * `trim` is determined by what it keeps: whatever trimmed text `t` is surrounded
   * by whitespace, trimming gives back exactly `t`.
   */
  lemma TrimUnique(before: string, t: string, after: string)
    requires AllWhitespace(before) && AllWhitespace(after) && IsTrimmed(t)
    ensures Trim(before + t + after) == t
  {
    assert before + t + after == before + (t + after);
    if t == [] {
      assert t + after == after;
      TrimStartSkips(before + after, []);
      assert before + after + [] == before + (t + after);
    } else {
      TrimStartSkips(before, t + after);
      TrimEndSkips(t, after);
    }
  }

  // ---------------------------------------------------------------------------
  // split(sep)

  /**
   * `s.split(sep)` for a one-character separator: the pieces between the
   * separators, always at least one, none containing the separator.
   */
  function Split(s: string, sep: char): (parts: seq<string>)
    ensures |parts| >= 1
    decreases |s|
  {
    if |s| == 0 then
      [""]
    else
      var rest := Split(s[1..], sep);
      if s[0] == sep then [""] + rest else [[s[0]] + rest[0]] + rest[1..]
  }

  /** No piece contains the separator. */
  lemma {:induction false} SplitPiecesFree(s: string, sep: char)
    ensures forall i :: 0 <= i < |Split(s, sep)| ==> sep !in Split(s, sep)[i]
    decreases |s|
  {
    if |s| > 0 {
      SplitPiecesFree(s[1..], sep);
      var rest := Split(s[1..], sep);
      if s[0] != sep {
        assert sep !in [s[0]] + rest[0];
      }
    }
  }

  /** `parts.join(sep)`. */
  function Join(parts: seq<string>, sep: char): string
    decreases |parts|
  {
    if |parts| == 0 then ""
    else if |parts| == 1 then parts[0]
    else parts[0] + [sep] + Join(parts[1..], sep)
  }

  /** Splitting loses nothing: joining the pieces back gives the original text. */
  lemma {:induction false} JoinSplit(s: string, sep: char)
    ensures Join(Split(s, sep), sep) == s
    decreases |s|
  {
    if |s| > 0 {
      var rest := Split(s[1..], sep);
      JoinSplit(s[1..], sep);
      if s[0] == sep {
        assert ([""] + rest)[1..] == rest;
        assert s == [sep] + s[1..];
      } else if |rest| == 1 {
        assert s == [s[0]] + s[1..];
      } else {
        var parts := [[s[0]] + rest[0]] + rest[1..];
        assert parts[1..] == rest[1..];
        assert s == [s[0]] + s[1..];
      }
    }
  }

  /** Text without the separator is one piece. */
  lemma {:induction false} SplitNone(s: string, sep: char)
    requires sep !in s
    ensures Split(s, sep) == [s]
    decreases |s|
  {
    if |s| > 0 {
      assert sep !in s[1..] by {
        forall c | c in s[1..] ensures c in s { }
      }
      SplitNone(s[1..], sep);
      assert s == [s[0]] + s[1..];
    }
  }

  /** The first piece ends at the first separator; the rest is the split of what follows it. */
  lemma {:induction false} SplitAt(s: string, sep: char, i: nat)
    requires i < |s| && s[i] == sep && sep !in s[..i]
    ensures Split(s, sep) == [s[..i]] + Split(s[i + 1..], sep)
    decreases i
  {
    if i > 0 {
      assert s[0] == s[..i][0];
      var tail := s[1..];
      assert tail[..i - 1] == s[1..i];
      assert sep !in tail[..i - 1] by {
        forall c | c in s[1..i] ensures c in s[..i] {
          var k :| 0 <= k < |s[1..i]| && s[1..i][k] == c;
          assert s[..i][k + 1] == c;
        }
      }
      SplitAt(tail, sep, i - 1);
      assert tail[i..] == s[i + 1..];
      assert [s[0]] + s[1..i] == s[..i];
    }
  }

  /** A piece free of the separator, then the separator, splits off as the first piece. */
  lemma SplitCons(a: string, sep: char, b: string)
    requires sep !in a
    ensures Split(a + [sep] + b, sep) == [a] + Split(b, sep)
  {
    var s := a + [sep] + b;
    var i := |a|;
    assert s[..i] == a by {
      assert forall k :: 0 <= k < i ==> s[k] == a[k];
    }
    assert s[i + 1..] == b by {
      assert forall k :: 0 <= k < |b| ==> s[i + 1 + k] == b[k];
    }
    SplitAt(s, sep, i);
  }

  // ---------------------------------------------------------------------------
  // toLowerCase()

  predicate IsAsciiUpper(c: char) {
    'A' <= c <= 'Z'
  }

  predicate HasNoAsciiUpper(s: string) {
    forall i :: 0 <= i < |s| ==> !IsAsciiUpper(s[i])
  }

  function LowerChar(c: char): char {
    if IsAsciiUpper(c) then (c as int + 32) as char else c
  }

  /**
   * `s.toLowerCase()` on the ASCII letters: no upper-case letter is left, each
   * upper-case letter becomes its lower-case partner, and every other character
   * stays as it was.
   */
  function AsciiLower(s: string): (r: string)
    ensures |r| == |s|
  {
    seq(|s|, i requires 0 <= i < |s| => LowerChar(s[i]))
  }

  /**
   * No upper-case ASCII letter survives `AsciiLower`; each becomes its lower-case partner,
   * and every other character stays as it was.
   */
  lemma AsciiLowerMeaning(s: string)
    ensures HasNoAsciiUpper(AsciiLower(s))
    ensures forall i :: 0 <= i < |s| && !IsAsciiUpper(s[i]) ==> AsciiLower(s)[i] == s[i]
    ensures forall i :: 0 <= i < |s| && IsAsciiUpper(s[i]) ==>
      'a' <= AsciiLower(s)[i] <= 'z' && AsciiLower(s)[i] as int - s[i] as int == 32
  {
  }

  /** Lower-casing moves no whitespace and no colon: a trimmed, colon-free text stays so. */
  lemma AsciiLowerKeepsShape(s: string)
    ensures IsTrimmed(s) ==> IsTrimmed(AsciiLower(s))
    ensures ':' !in s ==> ':' !in AsciiLower(s)
  {
    var r := AsciiLower(s);
    AsciiLowerMeaning(s);
    forall i | 0 <= i < |s|
      ensures IsJsWhitespace(r[i]) == IsJsWhitespace(s[i]) && (r[i] == ':' <==> s[i] == ':')
    {
      if IsAsciiUpper(s[i]) {
        assert 'a' <= r[i] <= 'z';
      }
    }
    if ':' !in s {
      forall i | 0 <= i < |r| ensures r[i] != ':' {
        assert s[i] in s;
      }
    }
  }

  // ---------------------------------------------------------------------------
  // slice(start)

  /**
   * `s.slice(start)`: a negative `start` counts back from the end and is clamped
   * at the beginning, a large one gives the empty string.
   */
  function Slice(s: string, start: int): (r: string)
    ensures start < 0 ==> |r| == (if -start < |s| then -start else |s|)
    ensures 0 <= start ==> |r| == (if start < |s| then |s| - start else 0)
    ensures r == s[|s| - |r|..]
  {
    var from :=
      if start < 0 then (if |s| + start < 0 then 0 else |s| + start)
      else if start < |s| then start else |s|;
    s[from..]
  }

  // ---------------------------------------------------------------------------
  // String(n) and padStart

  predicate IsDigit(c: char) {
    '0' <= c <= '9'
  }

  predicate AllDigits(s: string) {
    forall i :: 0 <= i < |s| ==> IsDigit(s[i])
  }

  function DigitChar(d: nat): (c: char)
    requires d < 10
    ensures IsDigit(c) && c as int - '0' as int == d
  {
    ('0' as int + d) as char
  }

  /** The number a string of decimal digits denotes (leading zeros allowed). */
  function DigitsValue(s: string): nat
    requires AllDigits(s)
    decreases |s|
  {
    if s == [] then 0 else DigitsValue(s[..|s| - 1]) * 10 + (s[|s| - 1] as int - '0' as int)
  }

  /** `String(n)`: the shortest decimal numeral, without leading zeros. */
  function NatToString(n: nat): (s: string)
    ensures |s| >= 1 && AllDigits(s)
    ensures n < 10 <==> |s| == 1
    ensures |s| > 1 ==> s[0] != '0'
    decreases n
  {
    if n < 10 then [DigitChar(n)] else NatToString(n / 10) + [DigitChar(n % 10)]
  }

  /** Reading back the numeral `String(n)` gives `n`. */
  lemma {:induction false} NatToStringValue(n: nat)
    ensures DigitsValue(NatToString(n)) == n
    decreases n
  {
    if n >= 10 {
      NatToStringValue(n / 10);
      var s := NatToString(n);
      assert s[..|s| - 1] == NatToString(n / 10);
    }
  }

  /** `s.padStart(width, fill)`: `fill` characters in front until the width is reached. */
  function PadStart(s: string, width: nat, fill: char): (r: string)
    ensures |r| == if |s| < width then width else |s|
    ensures r[|r| - |s|..] == s
    ensures forall i :: 0 <= i < |r| - |s| ==> r[i] == fill
  {
    if |s| < width then seq(width - |s|, _ => fill) + s else s
  }

  predicate AllZeros(z: string) {
    forall i :: 0 <= i < |z| ==> z[i] == '0'
  }

  /** Leading zeros do not change the value of a numeral. */
  lemma {:induction false} LeadingZeros(z: string, s: string)
    requires AllZeros(z) && AllDigits(s)
    ensures AllDigits(z + s) && DigitsValue(z + s) == DigitsValue(s)
    decreases |s| + |z|
  {
    if s == [] {
      assert z + s == z;
      if z != [] {
        assert z[..|z| - 1] + [] == z[..|z| - 1];
        LeadingZeros(z[..|z| - 1], []);
      }
    } else {
      assert (z + s)[..|z + s| - 1] == z + s[..|s| - 1];
      LeadingZeros(z, s[..|s| - 1]);
    }
  }
}
