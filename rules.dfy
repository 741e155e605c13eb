/**
 * The four field rules, identical in server.js and index.js (and in the browser form).
 * Each pattern is written as a predicate that follows its shape; the lemmas restate each
 * rule in the terms a caller reasons with.
 */
module Rules {
  import opened JsText

  predicate IsAsciiLetter(c: char) {
    'A' <= c <= 'Z' || 'a' <= c <= 'z'
  }

  predicate IsAsciiAlnum(c: char) {
    IsAsciiLetter(c) || IsAsciiDigit(c)
  }

  /** `[A-Za-zÀ-ÿ0-9]`: the range À-ÿ is U+00C0..U+00FF, code point by code point. */
  predicate IsNameChar(c: char) {
    IsAsciiLetter(c) || ('\U{00C0}' <= c <= '\U{00FF}') || IsAsciiDigit(c)
  }

  /** `^[A-Za-zÀ-ÿ0-9]{1,20}$` */
  predicate NameOk(s: string) {
    1 <= |s| <= 20 && forall k :: 0 <= k < |s| ==> IsNameChar(s[k])
  }

  /** `[^\s@]` */
  predicate IsEmailChar(c: char) {
    !IsWs(c) && c != '@'
  }

  predicate AllEmailChars(s: string) {
    forall k :: 0 <= k < |s| ==> IsEmailChar(s[k])
  }

  /**
   * `^[^\s@]+@[^\s@]+\.[^\s@]+$`: the string splits as L "@" D "." T with L, D and T
   * non-empty runs of `[^\s@]`. The `.` of D and T is itself in `[^\s@]`, so the literal
   * dot may be any dot of the domain that is neither its first nor its last character.
   */
  predicate EmailOk(s: string) {
    exists a, d | 0 < a < |s| && a + 1 < d < |s| - 1 ::
      s[a] == '@' && s[d] == '.'
      && AllEmailChars(s[..a]) && AllEmailChars(s[a + 1..d]) && AllEmailChars(s[d + 1..])
  }

  /** `^\d{10}$` */
  predicate PhoneOk(s: string) {
    |s| == 10 && AllDigits(s)
  }

  /** `^[0-9][A-Za-z0-9]{5}$` */
  predicate EircodeOk(s: string) {
    |s| == 6 && IsAsciiDigit(s[0]) && forall k :: 1 <= k < 6 ==> IsAsciiAlnum(s[k])
  }

  /** A dot somewhere strictly inside the string. */
  predicate DotInside(s: string) {
    exists k :: 0 < k < |s| - 1 && s[k] == '.'
  }

  /** The number of `@` characters in `s` is the count left of `a`, at `a`, and right of `a`. */
  lemma CountAround(s: string, a: int)
    requires 0 <= a < |s|
    ensures multiset(s)['@'] == multiset(s[..a])['@'] + (if s[a] == '@' then 1 else 0) + multiset(s[a + 1..])['@']
  {
    assert s == s[..a] + [s[a]] + s[a + 1..];
  }

  lemma NoCountNoAt(s: string)
    requires multiset(s)['@'] == 0
    ensures forall k :: 0 <= k < |s| ==> s[k] != '@'
  {
    forall k | 0 <= k < |s| ensures s[k] != '@' {
      assert s[k] in multiset(s);
    }
  }

  lemma NoAtNoCount(s: string)
    requires forall k :: 0 <= k < |s| ==> s[k] != '@'
    ensures multiset(s)['@'] == 0
  {
  }

  /** The email rule read in words: see EmailRuleIff. */
  predicate EmailInWords(s: string) {
    NoWs(s) && multiset(s)['@'] == 1
    && exists a :: 0 < a < |s| && s[a] == '@' && DotInside(s[a + 1..])
  }

  lemma EmailCharsClean(x: string)
    requires AllEmailChars(x)
    ensures NoWs(x) && multiset(x)['@'] == 0
  {
    NoAtNoCount(x);
  }

  /** The three runs of an accepted address and its two literal characters hold no whitespace. */
  lemma EmailPartsUnspaced(s: string, a: int, d: int)
    requires 0 < a < |s| && a + 1 < d < |s| - 1 && s[a] == '@' && s[d] == '.'
    requires AllEmailChars(s[..a]) && AllEmailChars(s[a + 1..d]) && AllEmailChars(s[d + 1..])
    ensures NoWs(s)
  {
    forall k | 0 <= k < |s| ensures !IsWs(s[k]) {
      if k < a {
        assert s[k] == s[..a][k];
      } else if a < k < d {
        assert s[k] == s[a + 1..d][k - a - 1];
      } else if d < k {
        assert s[k] == s[d + 1..][k - d - 1];
      }
    }
  }

  /** The domain of an accepted address holds no `@`. */
  lemma EmailDomainHasNoAt(s: string, a: int, d: int)
    requires 0 < a < |s| && a + 1 < d < |s| - 1 && s[d] == '.'
    requires AllEmailChars(s[a + 1..d]) && AllEmailChars(s[d + 1..])
    ensures multiset(s[a + 1..])['@'] == 0
  {
    var mid, right := s[a + 1..d], s[d + 1..];
    assert s[a + 1..] == mid + ['.'] + right;
    EmailCharsClean(mid);
    EmailCharsClean(right);
  }

  lemma EmailOkInWords(s: string)
    requires EmailOk(s)
    ensures EmailInWords(s)
  {
    var a, d :| 0 < a < |s| && a + 1 < d < |s| - 1
      && s[a] == '@' && s[d] == '.'
      && AllEmailChars(s[..a]) && AllEmailChars(s[a + 1..d]) && AllEmailChars(s[d + 1..]);
    EmailPartsUnspaced(s, a, d);
    EmailCharsClean(s[..a]);
    EmailDomainHasNoAt(s, a, d);
    CountAround(s, a);
    assert s[a + 1..][d - a - 1] == '.';
  }

  /** A slice of a whitespace-free string in which no `@` occurs is a run of email characters. */
  lemma SliceEmailChars(s: string, lo: int, hi: int)
    requires 0 <= lo <= hi <= |s| && NoWs(s)
    requires forall k :: lo <= k < hi ==> s[k] != '@'
    ensures AllEmailChars(s[lo..hi])
  {
    forall i | 0 <= i < hi - lo ensures IsEmailChar(s[lo..hi][i]) {
      assert s[lo..hi][i] == s[lo + i];
    }
  }

  /** When `s` holds a single `@`, at `a`, no other position holds one. */
  lemma OnlyAt(s: string, a: int)
    requires 0 <= a < |s| && s[a] == '@' && multiset(s)['@'] == 1
    ensures forall i :: 0 <= i < |s| && i != a ==> s[i] != '@'
  {
    CountAround(s, a);
    NoCountNoAt(s[..a]);
    NoCountNoAt(s[a + 1..]);
    forall i | 0 <= i < |s| && i != a ensures s[i] != '@' {
      if i < a {
        assert s[i] == s[..a][i];
      } else {
        assert s[i] == s[a + 1..][i - a - 1];
      }
    }
  }

  /** An `@` at `a` and a `.` at `d`, with runs of email characters around them, satisfy the rule. */
  lemma EmailOkAt(s: string, a: int, d: int)
    requires 0 < a < |s| && a + 1 < d < |s| - 1 && s[a] == '@' && s[d] == '.'
    requires AllEmailChars(s[0..a]) && AllEmailChars(s[a + 1..d]) && AllEmailChars(s[d + 1..|s|])
    ensures EmailOk(s)
  {
    assert s[..a] == s[0..a] && s[d + 1..] == s[d + 1..|s|];
  }

  lemma EmailInWordsOk(s: string)
    requires EmailInWords(s)
    ensures EmailOk(s)
  {
    var a :| 0 < a < |s| && s[a] == '@' && DotInside(s[a + 1..]);
    var k :| 0 < k < |s[a + 1..]| - 1 && s[a + 1..][k] == '.';
    var d := a + 1 + k;
    OnlyAt(s, a);
    SliceEmailChars(s, 0, a);
    SliceEmailChars(s, a + 1, d);
    SliceEmailChars(s, d + 1, |s|);
    EmailOkAt(s, a, d);
  }

  /**
   * The email rule in words: no whitespace, exactly one `@`, a non-empty part before it,
   * and a dot in the domain that is neither the domain's first nor its last character.
   */
  lemma EmailRuleIff(s: string)
    ensures EmailOk(s) <==>
      NoWs(s) && multiset(s)['@'] == 1
      && exists a :: 0 < a < |s| && s[a] == '@' && DotInside(s[a + 1..])
  {
    if EmailOk(s) {
      EmailOkInWords(s);
    }
    if EmailInWords(s) {
      EmailInWordsOk(s);
    }
  }

  /** À-ÿ is a code point range, so it takes in the multiplication and division signs. */
  lemma NameRangeTakesSigns()
    ensures NameOk(['\U{00D7}']) && NameOk(['\U{00F7}'])
    ensures NameOk(['2', '\U{00D7}', '3', '\U{00F7}', '4'])
  {
  }

  /**
   * Every character a name accepts is at most U+00FF (a single UTF-16 unit) and is not
   * whitespace, so `trim` leaves an accepted name alone (TrimNoWs).
   */
  lemma NameIsNarrowAndUnspaced(s: string)
    requires NameOk(s)
    ensures forall k :: 0 <= k < |s| ==> s[k] as int <= 0xFF
    ensures NoWs(s)
  {
    forall k | 0 <= k < |s| ensures s[k] as int <= 0xFF && !IsWs(s[k]) {
      NameCharIsNarrow(s[k]);
    }
  }

  lemma NameCharIsNarrow(c: char)
    requires IsNameChar(c)
    ensures c as int <= 0xFF && !IsWs(c)
  {
  }

  /** After `replace(/\D/g, "")` the phone rule is a pure length test. */
  lemma PhoneIffTenDigits(raw: string)
    ensures PhoneOk(StripNonDigits(raw)) <==> |StripNonDigits(raw)| == 10
  {
  }

  /** An accepted eircode is six unspaced ASCII characters. */
  lemma EircodeIsNarrowAndUnspaced(s: string)
    requires EircodeOk(s)
    ensures NoWs(s) && forall k :: 0 <= k < |s| ==> s[k] as int < 0x80
  {
  }

  /** The rule needs a leading digit: `D02AB1`, whose routing key starts with a letter, fails. */
  lemma EircodeLeadingLetterFails(s: string)
    requires |s| > 0 && IsAsciiLetter(s[0])
    ensures !EircodeOk(s)
  {
  }

  /** `n + 1` copies of `a`, then `@b.c`: an accepted address of any length. */
  function LongEmail(n: nat): (s: string)
    ensures |s| == n + 5
  {
    if n == 0 then "a@b.c" else ['a'] + LongEmail(n - 1)
  }

  /** The email rule sets no length bound: an accepted address can be longer than any limit. */
  lemma {:induction false} EmailHasNoLengthBound(n: nat)
    ensures EmailOk(LongEmail(n)) && |LongEmail(n)| > n
  {
    var s := LongEmail(n);
    LongEmailShape(n);
    var a, d := n + 1, n + 3;
    assert s[a] == '@' && s[d] == '.';
    assert AllEmailChars(s[..a]) by {
      forall i | 0 <= i < a ensures IsEmailChar(s[..a][i]) {
        assert s[..a][i] == s[i];
      }
    }
    assert s[a + 1..d] == "b";
    assert s[d + 1..] == "c";
  }

  lemma {:induction false} LongEmailShape(n: nat)
    ensures forall i :: 0 <= i <= n ==> LongEmail(n)[i] == 'a'
    ensures LongEmail(n)[n + 1..] == "@b.c"
  {
    if n > 0 {
      LongEmailShape(n - 1);
      assert LongEmail(n)[1..] == LongEmail(n - 1);
    }
  }
}
