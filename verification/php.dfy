/**
 * The few PHP built-ins the request handlers rely on, with the semantics the
 * handlers depend on: `empty()` on strings, `trim()`, the `(int)` cast of a
 * request string, `strtolower()` and the extension part of `pathinfo()`.
 */
module Php {
  import opened Wrappers

  // ---------------------------------------------------------------------------
  // empty()

  /** PHP's `empty()` on a string: true exactly for "" and "0", both of which the `(int)` cast reads as 0. */
  predicate Empty(s: string)
    ensures Empty(s) ==> |s| <= 1 && IntVal(s) == 0
  {
    assert "0"[..0] == "" && DigitsValue("0") == 0;
    s == "" || s == "0"
  }

  /** `empty()` on a request field that may be missing: a missing field (null) is empty. */
  predicate EmptyField(o: Option<string>) {
    o.None? || Empty(o.value)
  }

  // ---------------------------------------------------------------------------
  // trim()

  /** The characters `trim()` strips by default: space, \t, \n, \r, NUL and vertical tab. */
  predicate IsTrimChar(c: char) {
    c == ' ' || c == '\t' || c == '\n' || c == '\r' || c as int == 0 || c as int == 11
  }

  /** Neither end of `s` is a character `trim()` would strip. */
  predicate NoEdgeSpace(s: string) {
    s == [] || (!IsTrimChar(s[0]) && !IsTrimChar(s[|s| - 1]))
  }

  /** Every character of `s` is one `trim()` strips. */
  predicate AllTrimChars(s: string) {
    forall k :: 0 <= k < |s| ==> IsTrimChar(s[k])
  }

  /** `ltrim()`: drops the leading strippable characters. */
  function TrimLeft(s: string): (r: string)
    ensures |r| <= |s|
    ensures r == [] || !IsTrimChar(r[0])
    decreases |s|
  {
    if |s| > 0 && IsTrimChar(s[0]) then TrimLeft(s[1..]) else s
  }

  /** `rtrim()`: drops the trailing strippable characters. */
  function TrimRight(s: string): (r: string)
    ensures |r| <= |s|
    ensures r == [] || !IsTrimChar(r[|r| - 1])
    decreases |s|
  {
    if |s| > 0 && IsTrimChar(s[|s| - 1]) then TrimRight(s[..|s| - 1]) else s
  }

  /** `ltrim()` keeps a suffix of its input and drops strippable characters only. */
  lemma {:induction false} TrimLeftStrips(s: string)
    ensures TrimLeft(s) == s[|s| - |TrimLeft(s)|..]
    ensures AllTrimChars(s[..|s| - |TrimLeft(s)|])
    decreases |s|
  {
    if |s| > 0 && IsTrimChar(s[0]) {
      TrimLeftStrips(s[1..]);
      var n := |s| - |TrimLeft(s)|;
      assert s[1..][n - 1..] == s[n..];
      forall k | 0 <= k < n ensures IsTrimChar(s[..n][k]) {
        if k > 0 { assert s[..n][k] == s[1..][..n - 1][k - 1]; }
      }
    } else {
      assert s[0..] == s;
    }
  }

  /** `rtrim()` keeps a prefix of its input and drops strippable characters only. */
  lemma {:induction false} TrimRightStrips(s: string)
    ensures TrimRight(s) == s[..|TrimRight(s)|]
    ensures AllTrimChars(s[|TrimRight(s)|..])
    decreases |s|
  {
    if |s| > 0 && IsTrimChar(s[|s| - 1]) {
      var s' := s[..|s| - 1];
      TrimRightStrips(s');
      var m := |TrimRight(s)|;
      assert s'[..m] == s[..m];
      forall k | 0 <= k < |s| - m ensures IsTrimChar(s[m..][k]) {
        if m + k < |s| - 1 { assert s[m..][k] == s'[m..][k]; }
      }
    } else {
      assert s[..|s|] == s;
    }
  }

  /** `trim()`: neither end of the result is a character `trim()` strips. */
  function Trim(s: string): (r: string)
    ensures NoEdgeSpace(r)
  {
    TrimNoEdge(s);
    TrimRight(TrimLeft(s))
  }

  /**
   * `s` is `trim(s)` padded on both sides with strippable characters, and
   * `trim(s)` is empty exactly when `s` is nothing but such characters.
   */
  lemma TrimSpec(s: string)
    ensures exists i :: Pads(s, Trim(s), i)
    ensures Trim(s) == [] <==> AllTrimChars(s)
  {
    var l := TrimLeft(s);
    TrimPads(s);
    TrimEmptyIff(s);
    assert Trim(s) == TrimRight(l);
    assert Pads(s, Trim(s), |s| - |l|);
  }

  /** `s` is `r` with strippable characters before position `i` and after `r`. */
  predicate Pads(s: string, r: string, i: int) {
    && 0 <= i <= |s| - |r|
    && r == s[i..i + |r|]
    && AllTrimChars(s[..i])
    && AllTrimChars(s[i + |r|..])
  }

  lemma TrimNoEdge(s: string)
    ensures NoEdgeSpace(TrimRight(TrimLeft(s)))
  {
    var l := TrimLeft(s);
    var r := TrimRight(l);
    TrimRightStrips(l);
    if r != [] { assert r[0] == l[0]; }
  }

  lemma TrimPads(s: string)
    ensures var l := TrimLeft(s); Pads(s, TrimRight(l), |s| - |l|)
  {
    var l := TrimLeft(s);
    TrimLeftStrips(s);
    TrimRightStrips(l);
    PadsOfParts(s, l, TrimRight(l));
  }

  /** A suffix `l` of `s` after strippable characters, cut after a prefix `r` followed by strippable characters. */
  lemma PadsOfParts(s: string, l: string, r: string)
    requires |l| <= |s| && l == s[|s| - |l|..] && AllTrimChars(s[..|s| - |l|])
    requires |r| <= |l| && r == l[..|r|] && AllTrimChars(l[|r|..])
    ensures Pads(s, r, |s| - |l|)
  {
    var i := |s| - |l|;
    assert r == s[i..i + |r|];
    assert s[i + |r|..] == l[|r|..];
  }

  lemma TrimEmptyIff(s: string)
    ensures TrimRight(TrimLeft(s)) == [] <==> AllTrimChars(s)
  {
    var l := TrimLeft(s);
    var i := |s| - |l|;
    TrimLeftStrips(s);
    TrimRightStrips(l);
    if TrimRight(l) == [] {
      assert l[0..] == l;
      AllTrimConcat(s[..i], l);
      assert s == s[..i] + l;
    } else {
      assert s[i] == l[0] == TrimRight(l)[0];
    }
  }

  lemma AllTrimConcat(a: string, b: string)
    requires AllTrimChars(a) && AllTrimChars(b)
    ensures AllTrimChars(a + b)
  {
    forall k | 0 <= k < |a + b| ensures IsTrimChar((a + b)[k]) {
      if k >= |a| { assert (a + b)[k] == b[k - |a|]; }
    }
  }

  /** Trimming a string that has no strippable edge changes nothing. */
  lemma TrimOfTrimmed(s: string)
    requires NoEdgeSpace(s)
    ensures Trim(s) == s
  {
    assert TrimLeft(s) == s;
    assert TrimRight(s) == s;
  }

  /** `trim()` is idempotent. */
  lemma TrimIdempotent(s: string)
    ensures Trim(Trim(s)) == Trim(s)
  {
    TrimOfTrimmed(Trim(s));
  }

  /**
   * After trimming, a field is `empty()` exactly when it was nothing but
   * strippable characters, or "0" surrounded by them (so " 0 " is rejected
   * as empty, while "00" is not).
   */
  lemma EmptyAfterTrim(s: string)
    ensures Empty(Trim(s)) <==> AllTrimChars(s) || Trim(s) == "0"
  {
    TrimSpec(s);
  }

  // ---------------------------------------------------------------------------
  // The (int) cast of a string

  predicate IsDigit(c: char) {
    '0' <= c <= '9'
  }

  predicate AllDigits(s: string) {
    forall k :: 0 <= k < |s| ==> IsDigit(s[k])
  }

  /** The whitespace PHP skips before a numeric prefix: space, \t, \n, \r, \v and \f. */
  predicate IsNumericSpace(c: char) {
    c == ' ' || c == '\t' || c == '\n' || c == '\r' || c as int == 11 || c as int == 12
  }

  function SkipNumericSpace(s: string): (r: string)
    ensures |r| <= |s|
    ensures r == [] || !IsNumericSpace(r[0])
    decreases |s|
  {
    if |s| > 0 && IsNumericSpace(s[0]) then SkipNumericSpace(s[1..]) else s
  }

  /** The longest prefix of `s` made of decimal digits. */
  function DigitPrefix(s: string): (r: string)
    ensures |r| <= |s| && AllDigits(r)
    ensures AllDigits(s) ==> r == s
    decreases |s|
  {
    if |s| > 0 && IsDigit(s[0]) then [s[0]] + DigitPrefix(s[1..]) else []
  }

  /** `DigitPrefix` is a prefix of its input, and the character after it (if any) is not a digit. */
  lemma {:induction false} DigitPrefixIsLongest(s: string)
    ensures DigitPrefix(s) == s[..|DigitPrefix(s)|]
    ensures |DigitPrefix(s)| == |s| || !IsDigit(s[|DigitPrefix(s)|])
    decreases |s|
  {
    if |s| > 0 && IsDigit(s[0]) {
      DigitPrefixIsLongest(s[1..]);
      var n := |DigitPrefix(s[1..])|;
      assert s[..n + 1] == [s[0]] + s[1..][..n];
    }
  }

  function DigitValue(c: char): nat
    requires IsDigit(c)
  {
    c as int - '0' as int
  }

  /** The value of a string of decimal digits, most significant first. */
  function DigitsValue(ds: string): nat
    requires AllDigits(ds)
    decreases |ds|
  {
    if ds == [] then 0 else 10 * DigitsValue(ds[..|ds| - 1]) + DigitValue(ds[|ds| - 1])
  }

  /**
   * PHP's `(int)` cast of a string: optional leading whitespace, an optional
   * sign and the longest run of digits that follows; 0 when there is none.
   */
  function IntVal(s: string): (r: int)
    ensures AllDigits(s) && s != [] ==> r == DigitsValue(s)
    ensures r < 0 ==> var t := SkipNumericSpace(s); |t| > 0 && t[0] == '-'
  {
    var t := SkipNumericSpace(s);
    if |t| > 0 && t[0] == '-' then -(DigitsValue(DigitPrefix(t[1..])) as int)
    else if |t| > 0 && t[0] == '+' then DigitsValue(DigitPrefix(t[1..]))
    else DigitsValue(DigitPrefix(t))
  }

  /** `(int)($field ?? default)`: the default when the field is missing, the cast otherwise. */
  function IntField(o: Option<string>, default: int): (r: int)
    ensures o.None? ==> r == default
    ensures o.Some? && Empty(o.value) ==> r == 0
    ensures o.Some? && AllDigits(o.value) && o.value != [] ==> r == DigitsValue(o.value)
  {
    match o
    case None => default
    case Some(s) => IntVal(s)
  }

  /** `trim($field ?? '')`. */
  function TextField(o: Option<string>): (r: string)
    ensures NoEdgeSpace(r)
    ensures o.None? ==> r == []
  {
    Trim(o.GetOr(""))
  }

  /** The decimal rendering of a natural number, as a browser form sends it. */
  function DecimalString(n: nat): (s: string)
    ensures |s| >= 1 && AllDigits(s)
    ensures s[0] == '0' ==> s == "0"
  {
    if n < 10 then [('0' as int + n) as char]
    else DecimalString(n / 10) + [('0' as int + n % 10) as char]
  }

  lemma {:induction false} DigitsValueOfDecimal(n: nat)
    ensures DigitsValue(DecimalString(n)) == n
  {
    var s := DecimalString(n);
    if n >= 10 {
      DigitsValueOfDecimal(n / 10);
      assert s[..|s| - 1] == DecimalString(n / 10);
    }
  }

  /** The rendering of a number is `empty()` exactly when the number is 0: `empty()` rejects every positive key. */
  lemma EmptyDecimalIffZero(n: nat)
    ensures Empty(DecimalString(n)) <==> n == 0
  {
    DigitsValueOfDecimal(n);
  }

  /** A numeric field holding the decimal rendering of `n` is read back as `n`. */
  lemma IntValOfDecimal(n: nat)
    ensures IntVal(DecimalString(n)) == n
  {
    var s := DecimalString(n);
    assert SkipNumericSpace(s) == s;
    DigitsValueOfDecimal(n);
  }

  /** A string with no digits after the optional space and sign is cast to 0; in particular "". */
  lemma IntValWithoutDigits(s: string)
    requires var t := SkipNumericSpace(s);
             var u := if |t| > 0 && (t[0] == '-' || t[0] == '+') then t[1..] else t;
             u == [] || !IsDigit(u[0])
    ensures IntVal(s) == 0
  {
  }

  // ---------------------------------------------------------------------------
  // strtolower() and pathinfo(PATHINFO_EXTENSION)

  function LowerChar(c: char): char {
    if 'A' <= c <= 'Z' then (c as int + 32) as char else c
  }

  predicate IsUpper(c: char) {
    'A' <= c <= 'Z'
  }

  /** `strtolower()` on ASCII letters; every other character is kept. */
  function ToLower(s: string): (r: string)
    ensures |r| == |s|
    ensures forall k :: 0 <= k < |s| ==> r[k] == LowerChar(s[k])
    ensures forall k :: 0 <= k < |r| ==> !IsUpper(r[k])
  {
    if s == [] then [] else [LowerChar(s[0])] + ToLower(s[1..])
  }

  /** The part of `s` after its last `c`, or None when `c` does not occur in `s`. */
  function AfterLast(s: string, c: char): (r: Option<string>)
    ensures r.None? <==> c !in s
    ensures r.Some? ==> |r.value| < |s| && s[|s| - |r.value| - 1] == c
    ensures r.Some? ==> r.value == s[|s| - |r.value|..] && c !in r.value
    decreases |s|
  {
    if s == [] then None
    else if s[|s| - 1] == c then Some([])
    else match AfterLast(s[..|s| - 1], c)
      case None => None
      case Some(t) => Some(t + [s[|s| - 1]])
  }

  /** The last `c` of `a + [c] + b` is the one in the middle when `b` has none. */
  lemma {:induction false} AfterLastAppend(a: string, c: char, b: string)
    requires c !in b
    ensures AfterLast(a + [c] + b, c) == Some(b)
    decreases |b|
  {
    var s := a + [c] + b;
    if b != [] {
      var b' := b[..|b| - 1];
      assert s[..|s| - 1] == a + [c] + b';
      assert s[|s| - 1] == b[|b| - 1];
      AfterLastAppend(a, c, b');
      assert b == b' + [b[|b| - 1]];
    }
  }

  /** Lower-casing neither creates nor removes a character that is not a letter. */
  lemma ToLowerKeeps(s: string, c: char)
    requires !IsUpper(c) && !('a' <= c <= 'z')
    ensures c in ToLower(s) <==> c in s
  {
    if c in s {
      var k :| 0 <= k < |s| && s[k] == c;
      assert ToLower(s)[k] == c;
    }
    if c in ToLower(s) {
      var k :| 0 <= k < |s| && ToLower(s)[k] == c;
      assert s[k] == c;
    }
  }

  /** The file-name part of a path: what follows the last '/'. */
  function Basename(path: string): (r: string)
    ensures '/' !in r && |r| <= |path| && r == path[|path| - |r|..]
  {
    match AfterLast(path, '/')
    case None => path
    case Some(t) => t
  }

  /**
   * `pathinfo($name, PATHINFO_EXTENSION)`: what follows the last '.' of the
   * file name, or "" when the file name has no '.'.
   */
  function Extension(name: string): (e: string)
    ensures '.' !in e && '/' !in e
    ensures |e| <= |name| && e == name[|name| - |e|..]
    ensures '.' !in Basename(name) ==> e == ""
    ensures '.' in Basename(name) ==> name[|name| - |e| - 1] == '.'
  {
    var b := Basename(name);
    match AfterLast(b, '.')
    case None => ""
    case Some(t) =>
      assert b[|b| - |t|..] == t;
      t
  }
}
