/** Python string operations the script relies on, over strings as sequences
    of code points (what Python's `len` counts). */
module Text {

  /** Python's `str.isspace()`: the characters `str.strip()` removes when it is
      given no argument. */
  predicate IsSpace(c: char) {
    || ('\U{9}' <= c <= '\U{D}')
    || ('\U{1C}' <= c <= '\U{20}')
    || c == '\U{85}' || c == '\U{A0}' || c == '\U{1680}'
    || ('\U{2000}' <= c <= '\U{200A}')
    || c == '\U{2028}' || c == '\U{2029}' || c == '\U{202F}' || c == '\U{205F}' || c == '\U{3000}'
  }

  predicate AllSpace(s: string) {
    forall k :: 0 <= k < |s| ==> IsSpace(s[k])
  }

  /** Drops the leading whitespace of `s`. */
  function TrimStart(s: string): string {
    if s == [] || !IsSpace(s[0]) then s else TrimStart(s[1..])
  }

  lemma {:induction false} TrimStartSpec(s: string)
    ensures |TrimStart(s)| <= |s| && TrimStart(s) == s[|s| - |TrimStart(s)|..]
    ensures AllSpace(s[..|s| - |TrimStart(s)|])
    ensures TrimStart(s) == [] || !IsSpace(TrimStart(s)[0])
  {
    if s != [] && IsSpace(s[0]) {
      TrimStartSpec(s[1..]);
      var r := TrimStart(s[1..]);
      assert s[1..][..|s| - 1 - |r|] == s[1..|s| - |r|];
    }
  }

  /** Drops the trailing whitespace of `s`. */
  function TrimEnd(s: string): string {
    if s == [] || !IsSpace(s[|s| - 1]) then s else TrimEnd(s[..|s| - 1])
  }

  lemma {:induction false} TrimEndSpec(s: string)
    ensures |TrimEnd(s)| <= |s| && TrimEnd(s) == s[..|TrimEnd(s)|]
    ensures AllSpace(s[|TrimEnd(s)|..])
    ensures TrimEnd(s) == [] || !IsSpace(TrimEnd(s)[|TrimEnd(s)| - 1])
  {
    if s != [] && IsSpace(s[|s| - 1]) {
      TrimEndSpec(s[..|s| - 1]);
      var r := TrimEnd(s[..|s| - 1]);
      assert s[..|s| - 1][|r|..] + [s[|s| - 1]] == s[|r|..];
    }
  }

  /** Python's `s.strip()`: `s` without its leading and trailing
      whitespace. */
  function Strip(s: string): string {
    TrimEnd(TrimStart(s))
  }

  /** What `strip` promises: the result is a slice of `s` that neither starts
      nor ends with whitespace, and only whitespace lies outside it. */
  lemma StripSpec(s: string)
    ensures exists i, j :: 0 <= i <= j <= |s| && Strip(s) == s[i..j] && AllSpace(s[..i]) && AllSpace(s[j..])
    ensures Strip(s) == [] || (!IsSpace(Strip(s)[0]) && !IsSpace(Strip(s)[|Strip(s)| - 1]))
  {
    var t := TrimStart(s);
    TrimStartSpec(s);
    TrimEndSpec(t);
    var r := TrimEnd(t);
    var i := |s| - |t|;
    assert r == s[i..i + |r|];
    assert s[i + |r|..] == t[|r|..];
  }

  predicate NoSlash(s: string) {
    forall k :: 0 <= k < |s| ==> s[k] != '/'
  }

  /** Python's `s.split('/')[-1]`: what follows the last `/` of `s`, or all of
      `s` when it has none. */
  function LastSegment(s: string): string {
    if s == [] || s[|s| - 1] == '/' then []
    else LastSegment(s[..|s| - 1]) + [s[|s| - 1]]
  }

  /** The last segment holds no `/`, ends `s`, and is preceded in `s` by a
      `/` unless it is all of `s`. */
  lemma {:induction false} LastSegmentSpec(s: string)
    ensures NoSlash(LastSegment(s))
    ensures |LastSegment(s)| <= |s| && LastSegment(s) == s[|s| - |LastSegment(s)|..]
    ensures |LastSegment(s)| < |s| ==> s[|s| - |LastSegment(s)| - 1] == '/'
  {
    if s != [] && s[|s| - 1] != '/' {
      var init := s[..|s| - 1];
      LastSegmentSpec(init);
      var r := LastSegment(init);
      assert LastSegment(s) == r + [s[|s| - 1]];
      assert s[|s| - |r| - 1..] == init[|init| - |r|..] + [s[|s| - 1]];
      var t := r + [s[|s| - 1]];
      forall k | 0 <= k < |t|
        ensures t[k] != '/'
      {
        if k < |r| {
          assert t[k] == r[k];
        }
      }
      if |r| + 1 < |s| {
        assert s[|s| - |r| - 2] == init[|init| - |r| - 1];
      }
    }
  }

  /** Splitting on `/` after appending a `/`-free segment to a string that
      ends in `/` yields exactly that segment. */
  lemma {:induction false} LastSegmentAfterSlash(prefix: string, segment: string)
    requires prefix != [] && prefix[|prefix| - 1] == '/'
    requires NoSlash(segment)
    ensures LastSegment(prefix + segment) == segment
  {
    if segment != [] {
      var s := prefix + segment;
      assert s[..|s| - 1] == prefix + segment[..|segment| - 1];
      LastSegmentAfterSlash(prefix, segment[..|segment| - 1]);
      assert segment == segment[..|segment| - 1] + [segment[|segment| - 1]];
    } else {
      assert prefix + segment == prefix;
    }
  }

  predicate IsDigit(c: char) {
    '0' <= c <= '9'
  }

  function DigitValue(c: char): nat
    requires IsDigit(c)
  {
    c as int - '0' as int
  }

  function DigitChar(d: nat): (c: char)
    requires d < 10
    ensures IsDigit(c) && DigitValue(c) == d
  {
    (d + '0' as int) as char
  }

  /** The number a string of decimal digits denotes. */
  function DigitsValue(s: string): nat
    requires forall k :: 0 <= k < |s| ==> IsDigit(s[k])
  {
    if s == [] then 0
    else DigitsValue(s[..|s| - 1]) * 10 + DigitValue(s[|s| - 1])
  }

  /** Python's `str(n)` for a non-negative integer. */
  function Decimal(n: nat): string {
    if n < 10 then [DigitChar(n)] else Decimal(n / 10) + [DigitChar(n % 10)]
  }

  /** `str(n)` is a non-empty string of decimal digits with no leading zero
      that reads back as `n`. */
  lemma {:induction false} DecimalSpec(n: nat)
    ensures Decimal(n) != []
    ensures forall k :: 0 <= k < |Decimal(n)| ==> IsDigit(Decimal(n)[k])
    ensures Decimal(n)[0] == '0' ==> n == 0 && |Decimal(n)| == 1
    ensures DigitsValue(Decimal(n)) == n
  {
    if n >= 10 {
      DecimalSpec(n / 10);
      var r := Decimal(n);
      assert r[..|r| - 1] == Decimal(n / 10);
    }
  }

  /** The parts, concatenated in order: how the f-string of a line and the
      `+=` that grows a message build their strings. */
  function Concat(parts: seq<string>): string {
    if parts == [] then [] else Concat(parts[..|parts| - 1]) + parts[|parts| - 1]
  }

  lemma {:induction false} ConcatAppend(a: seq<string>, b: seq<string>)
    ensures Concat(a + b) == Concat(a) + Concat(b)
  {
    if b == [] {
      assert a + b == a;
    } else {
      var init := b[..|b| - 1];
      assert (a + b)[..|a + b| - 1] == a + init;
      assert (a + b)[|a + b| - 1] == b[|b| - 1];
      ConcatAppend(a, init);
      assert Concat(a + b) == Concat(a + init) + b[|b| - 1];
      assert Concat(b) == Concat(init) + b[|b| - 1];
    }
  }

  /** `s` begins with `prefix`; used in the contracts about messages. */
  predicate StartsWith(s: string, prefix: string) {
    |s| >= |prefix| && s[..|prefix|] == prefix
  }
}
