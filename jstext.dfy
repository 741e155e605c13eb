/**
 * The JavaScript string primitives that the normalisers use: the `\s` character class,
 * `String.prototype.trim`, `replace(/\D/g, "")` and `replace(/\s+/g, "")`.
 *
 * Dafny characters are Unicode scalar values, JavaScript strings are UTF-16 code units.
 * No whitespace character and no ASCII digit is a surrogate, so every operation below
 * treats a supplementary character the way JavaScript treats its two code units.
 */
module JsText {

  /** ECMAScript WhiteSpace or LineTerminator: the set `\s` matches and `trim` removes. */
  predicate IsWs(c: char) {
    var n := c as int;
    n == 0x09 || n == 0x0A || n == 0x0B || n == 0x0C || n == 0x0D || n == 0x20
    || n == 0xA0 || n == 0x1680 || (0x2000 <= n <= 0x200A)
    || n == 0x2028 || n == 0x2029 || n == 0x202F || n == 0x205F || n == 0x3000
    || n == 0xFEFF
  }

  /** `\d` (no `u` flag): exactly the ten ASCII digits. */
  predicate IsAsciiDigit(c: char) {
    '0' <= c <= '9'
  }

  predicate NoWs(s: string) {
    forall k :: 0 <= k < |s| ==> !IsWs(s[k])
  }

  predicate AllDigits(s: string) {
    forall k :: 0 <= k < |s| ==> IsAsciiDigit(s[k])
  }

  predicate Trimmed(s: string) {
    s == [] || (!IsWs(s[0]) && !IsWs(s[|s| - 1]))
  }

  /** Character `k` of `r` is character `i + k` of `s`. */
  predicate Shifted(s: string, i: int, r: string, k: int) {
    0 <= k < |r| && 0 <= i + k < |s| && r[k] == s[i + k]
  }

  /** Character `k` of `r` is the matching character of `s` when `r` is lined up with the end of `s`. */
  predicate EndAligned(s: string, r: string, k: int) {
    Shifted(s, |s| - |r|, r, k)
  }

  /** Drops the leading whitespace run. */
  function TrimStart(s: string): (r: string)
    ensures |r| <= |s|
  {
    if |s| > 0 && IsWs(s[0]) then TrimStart(s[1..]) else s
  }

  /**
   * What the leading cut keeps is a suffix of its input that is empty or starts with a
   * non-space, and everything it cut is whitespace.
   */
  lemma {:induction false} TrimStartCuts(s: string)
    ensures forall k :: 0 <= k < |TrimStart(s)| ==> EndAligned(s, TrimStart(s), k)
    ensures forall k :: 0 <= k < |s| - |TrimStart(s)| ==> IsWs(s[k])
    ensures TrimStart(s) == [] || !IsWs(TrimStart(s)[0])
  {
    if |s| > 0 && IsWs(s[0]) {
      var t := s[1..];
      var r := TrimStart(t);
      TrimStartCuts(t);
      forall k | 0 <= k < |r| ensures EndAligned(s, r, k) {
        assert EndAligned(t, r, k);
      }
      forall k | 0 <= k < |s| - |r| ensures IsWs(s[k]) {
        if k > 0 { assert s[k] == t[k - 1]; }
      }
    } else {
      forall k | 0 <= k < |s| ensures EndAligned(s, s, k) {
      }
    }
  }

  /** Drops the trailing whitespace run. */
  function TrimEnd(s: string): (r: string)
    ensures |r| <= |s|
  {
    if |s| > 0 && IsWs(s[|s| - 1]) then TrimEnd(s[..|s| - 1]) else s
  }

  /**
   * What the trailing cut keeps is a prefix of its input that is empty or ends with a
   * non-space, and everything it cut is whitespace.
   */
  lemma {:induction false} TrimEndCuts(s: string)
    ensures forall k :: 0 <= k < |TrimEnd(s)| ==> TrimEnd(s)[k] == s[k]
    ensures forall k :: |TrimEnd(s)| <= k < |s| ==> IsWs(s[k])
    ensures TrimEnd(s) == [] || !IsWs(TrimEnd(s)[|TrimEnd(s)| - 1])
  {
    if |s| > 0 && IsWs(s[|s| - 1]) {
      var t := s[..|s| - 1];
      TrimEndCuts(t);
      forall k | 0 <= k < |TrimEnd(t)| ensures TrimEnd(t)[k] == s[k] {
        assert t[k] == s[k];
      }
    }
  }

  /** `String.prototype.trim`: drops the leading and the trailing whitespace run. */
  function Trim(s: string): (r: string)
    ensures Trimmed(r) && |r| <= |s|
  {
    var t := TrimStart(s);
    var u := TrimEnd(t);
    TrimStartCuts(s);
    TrimEndCuts(t);
    assert u != [] ==> !IsWs(u[0]) by {
      if u != [] { assert u[0] == t[0]; }
    }
    u
  }

  /** `r` is the run of `s` starting at offset `i`, with only whitespace around it. */
  predicate CutAt(s: string, i: int, r: string) {
    0 <= i <= |s| - |r|
    && (forall k :: 0 <= k < |r| ==> Shifted(s, i, r, k))
    && (forall k :: 0 <= k < i ==> IsWs(s[k]))
    && (forall k :: i + |r| <= k < |s| ==> IsWs(s[k]))
  }

  /** Cutting a whitespace run off the front of `s`, then one off the back of the rest. */
  lemma CutTwice(s: string, t: string, u: string)
    requires |t| <= |s| && forall k :: 0 <= k < |t| ==> EndAligned(s, t, k)
    requires forall k :: 0 <= k < |s| - |t| ==> IsWs(s[k])
    requires |u| <= |t| && forall k :: 0 <= k < |u| ==> u[k] == t[k]
    requires forall k :: |u| <= k < |t| ==> IsWs(t[k])
    ensures CutAt(s, |s| - |t|, u)
  {
    var i := |s| - |t|;
    forall k | 0 <= k < |u| ensures Shifted(s, i, u, k) {
      assert u[k] == t[k] && EndAligned(s, t, k);
    }
    forall k | i + |u| <= k < |s| ensures IsWs(s[k]) {
      assert EndAligned(s, t, k - i);
    }
  }

  /** The leading cut and then the trailing cut leave an infix with only whitespace around it. */
  lemma TrimStartThenEnd(s: string)
    ensures CutAt(s, |s| - |TrimStart(s)|, TrimEnd(TrimStart(s)))
  {
    var t := TrimStart(s);
    TrimStartCuts(s);
    TrimEndCuts(t);
    CutTwice(s, t, TrimEnd(t));
  }

  /** What `trim` keeps is an infix of its input, with only whitespace cut on either side. */
  lemma TrimIsInfix(s: string)
    ensures exists i :: CutAt(s, i, Trim(s))
  {
    TrimStartThenEnd(s);
    assert CutAt(s, |s| - |TrimStart(s)|, Trim(s));
  }

  /** `replace(/\D/g, "")`: keeps the ASCII digits, in order, and nothing else. */
  function StripNonDigits(s: string): (r: string)
    ensures AllDigits(r) && |r| <= |s|
  {
    if s == [] then []
    else (if IsAsciiDigit(s[0]) then [s[0]] else []) + StripNonDigits(s[1..])
  }

  /** `replace(/\s+/g, "")`: keeps every non-whitespace character, in order. */
  function StripWs(s: string): (r: string)
    ensures NoWs(r) && |r| <= |s|
  {
    if s == [] then []
    else (if IsWs(s[0]) then [] else [s[0]]) + StripWs(s[1..])
  }

  lemma {:induction false} TrimStartFixes(s: string)
    requires s == [] || !IsWs(s[0])
    ensures TrimStart(s) == s
  {
  }

  lemma {:induction false} TrimEndFixes(s: string)
    requires s == [] || !IsWs(s[|s| - 1])
    ensures TrimEnd(s) == s
  {
  }

  /** A string with no whitespace at either end is its own trim. */
  lemma TrimFixes(s: string)
    requires Trimmed(s)
    ensures Trim(s) == s
  {
    TrimStartFixes(s);
    TrimEndFixes(s);
  }

  /** Trimming twice is trimming once. */
  lemma TrimIdempotent(s: string)
    ensures Trim(Trim(s)) == Trim(s)
  {
    TrimFixes(Trim(s));
  }

  /** A string without whitespace is left alone by `trim`. */
  lemma TrimNoWs(s: string)
    requires NoWs(s)
    ensures Trim(s) == s
  {
    TrimFixes(s);
  }

  /** A digit string is left alone by the digit filter. */
  lemma {:induction false} StripNonDigitsFixes(s: string)
    requires AllDigits(s)
    ensures StripNonDigits(s) == s
  {
    if s != [] {
      StripNonDigitsFixes(s[1..]);
    }
  }

  /** The digit filter works character by character: it distributes over concatenation. */
  lemma {:induction false} StripNonDigitsAppend(a: string, b: string)
    ensures StripNonDigits(a + b) == StripNonDigits(a) + StripNonDigits(b)
  {
    if a == [] {
      assert a + b == b;
    } else {
      var head: string := if IsAsciiDigit(a[0]) then [a[0]] else [];
      var rest, tail := StripNonDigits(a[1..]), StripNonDigits(b);
      assert (a + b)[0] == a[0] && (a + b)[1..] == a[1..] + b;
      assert StripNonDigits(a + b) == head + StripNonDigits(a[1..] + b);
      StripNonDigitsAppend(a[1..], b);
      assert StripNonDigits(a) == head + rest;
      assert head + (rest + tail) == (head + rest) + tail;
    }
  }

  /**
   * The digit filter keeps every ASCII digit as often as it occurs and removes every
   * other character; with StripNonDigitsAppend this pins the filter down.
   */
  lemma {:induction false} StripNonDigitsCounts(s: string)
    ensures forall c :: multiset(StripNonDigits(s))[c] == (if IsAsciiDigit(c) then multiset(s)[c] else 0)
  {
    if s != [] {
      StripNonDigitsCounts(s[1..]);
      assert s == [s[0]] + s[1..];
    }
  }

  /** Filtering the digits twice is filtering once. */
  lemma StripNonDigitsIdempotent(s: string)
    ensures StripNonDigits(StripNonDigits(s)) == StripNonDigits(s)
  {
    StripNonDigitsFixes(StripNonDigits(s));
  }

  /** A whitespace-free string is left alone by the whitespace filter. */
  lemma {:induction false} StripWsFixes(s: string)
    requires NoWs(s)
    ensures StripWs(s) == s
  {
    if s != [] {
      StripWsFixes(s[1..]);
    }
  }

  /** The whitespace filter distributes over concatenation. */
  lemma {:induction false} StripWsAppend(a: string, b: string)
    ensures StripWs(a + b) == StripWs(a) + StripWs(b)
  {
    if a == [] {
      assert a + b == b;
    } else {
      var head: string := if !IsWs(a[0]) then [a[0]] else [];
      var rest, tail := StripWs(a[1..]), StripWs(b);
      assert (a + b)[0] == a[0] && (a + b)[1..] == a[1..] + b;
      assert StripWs(a + b) == head + StripWs(a[1..] + b);
      StripWsAppend(a[1..], b);
      assert StripWs(a) == head + rest;
      assert head + (rest + tail) == (head + rest) + tail;
    }
  }

  /**
   * The whitespace filter keeps every other character as often as it occurs and removes
   * every whitespace character; with StripWsAppend this pins the filter down.
   */
  lemma {:induction false} StripWsCounts(s: string)
    ensures forall c :: multiset(StripWs(s))[c] == (if IsWs(c) then 0 else multiset(s)[c])
  {
    if s != [] {
      StripWsCounts(s[1..]);
      assert s == [s[0]] + s[1..];
    }
  }

  /** Removing whitespace twice is removing it once. */
  lemma StripWsIdempotent(s: string)
    ensures StripWs(StripWs(s)) == StripWs(s)
  {
    StripWsFixes(StripWs(s));
  }

  /** The `.trim()` after the digit filter changes nothing. */
  lemma TrimAfterStripNonDigits(s: string)
    ensures Trim(StripNonDigits(s)) == StripNonDigits(s)
  {
    var r := StripNonDigits(s);
    assert NoWs(r) by {
      forall k | 0 <= k < |r| ensures !IsWs(r[k]) {
        assert IsAsciiDigit(r[k]);
      }
    }
    TrimNoWs(r);
  }

  /** The `.trim()` after the whitespace filter changes nothing. */
  lemma TrimAfterStripWs(s: string)
    ensures Trim(StripWs(s)) == StripWs(s)
  {
    TrimNoWs(StripWs(s));
  }
}
