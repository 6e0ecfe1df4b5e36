/** The JavaScript built-ins the core relies on, stated as Dafny functions:
    `String.prototype.toLowerCase` (on ASCII letters), `String.prototype.trim`
    and the decimal rendering of a non-negative integer. */
module Base {

  datatype Option<+T> = None | Some(value: T)

  /** The signed-in user as the auth provider reports it. */
  datatype User = User(id: string, email: string)

  /** A thrown or returned error object: only its `message` is ever read. */
  datatype Error = Error(message: string, code: string)

  /** The signed-in home page, where several flows end. */
  const DashboardPath := "/dashboard"

  // ---------------------------------------------------------------------------
  // toLowerCase

  predicate IsUpperAscii(c: char) { 'A' <= c <= 'Z' }

  function LowerChar(c: char): (d: char)
    ensures !IsUpperAscii(d)
    ensures IsUpperAscii(c) ==> d as int == c as int + 32
    ensures !IsUpperAscii(c) ==> d == c
  {
    if IsUpperAscii(c) then (c as int + 32) as char else c
  }

  /** `s.toLowerCase()` for text whose letters are ASCII. */
  function ToLower(s: string): (r: string)
    ensures |r| == |s|
    ensures forall k :: 0 <= k < |s| ==> r[k] == LowerChar(s[k])
    ensures forall k :: 0 <= k < |r| ==> !IsUpperAscii(r[k])
  {
    if s == [] then [] else [LowerChar(s[0])] + ToLower(s[1..])
  }

  lemma ToLowerIdempotent(s: string)
    ensures ToLower(ToLower(s)) == ToLower(s)
  {
  }

  // ---------------------------------------------------------------------------
  // trim

  /** The characters `trim` removes: the ECMAScript WhiteSpace and
      LineTerminator code points (TAB, VT, FF, SP, NBSP, ZWNBSP, the Unicode
      space separators, LF, CR, LS, PS). */
  predicate IsJsWhitespace(c: char)
  {
    c == '\t' || c == '\n' || c == '\U{B}' || c == '\U{C}' || c == '\r' || c == ' '
    || c == '\U{A0}' || c == '\U{1680}' || ('\U{2000}' <= c <= '\U{200A}')
    || c == '\U{2028}' || c == '\U{2029}' || c == '\U{202F}' || c == '\U{205F}'
    || c == '\U{3000}' || c == '\U{FEFF}'
  }

  function TrimStart(s: string): (r: string)
    ensures |r| <= |s| && r == s[|s| - |r|..]
    ensures forall k :: 0 <= k < |s| - |r| ==> IsJsWhitespace(s[k])
    ensures r != [] ==> !IsJsWhitespace(r[0])
  {
    if s != [] && IsJsWhitespace(s[0]) then TrimStart(s[1..]) else s
  }

  function TrimEnd(s: string): (r: string)
    ensures |r| <= |s| && r == s[..|r|]
    ensures forall k :: |r| <= k < |s| ==> IsJsWhitespace(s[k])
    ensures r != [] ==> !IsJsWhitespace(r[|r| - 1])
  {
    if s != [] && IsJsWhitespace(s[|s| - 1]) then TrimEnd(s[..|s| - 1]) else s
  }

  /** `s.trim()`: the longest infix that neither starts nor ends with whitespace. */
  function Trim(s: string): (r: string)
    ensures |r| <= |s|
    ensures r != [] ==> !IsJsWhitespace(r[0]) && !IsJsWhitespace(r[|r| - 1])
  {
    TrimEnd(TrimStart(s))
  }

  /** What `trim` removes is whitespace and only that: the result is the
      input with a whitespace prefix and a whitespace suffix cut off. */
  lemma TrimIsInfix(s: string)
    ensures exists i, j :: 0 <= i <= j <= |s| && Trim(s) == s[i..j]
                           && (forall k :: 0 <= k < i ==> IsJsWhitespace(s[k]))
                           && (forall k :: j <= k < |s| ==> IsJsWhitespace(s[k]))
  {
    var t := TrimStart(s);
    var i := |s| - |t|;
    var j := i + |Trim(s)|;
    assert Trim(s) == s[i..j] by {
      assert t == s[i..] && Trim(s) == t[..|Trim(s)|];
    }
    assert forall k :: j <= k < |s| ==> IsJsWhitespace(s[k]) by {
      SuffixOfTrimStart(s);
    }
  }

  /** What `TrimEnd` cuts off the rest after `TrimStart` is whitespace at the
      end of the input. */
  lemma SuffixOfTrimStart(s: string)
    ensures forall k :: |s| - |TrimStart(s)| + |Trim(s)| <= k < |s| ==> IsJsWhitespace(s[k])
  {
    var t := TrimStart(s);
    var i := |s| - |t|;
    var n := |Trim(s)|;
    assert t == s[i..];
    assert Trim(s) == TrimEnd(t);
    forall k | i + n <= k < |s|
      ensures IsJsWhitespace(s[k])
    {
      assert n <= k - i < |t|;
      assert IsJsWhitespace(t[k - i]);
      assert s[k] == t[k - i];
    }
  }

  /** Text that neither starts nor ends with whitespace is left alone by `trim`. */
  lemma TrimOfTrimmed(s: string)
    requires s == [] || (!IsJsWhitespace(s[0]) && !IsJsWhitespace(s[|s| - 1]))
    ensures Trim(s) == s
  {
  }

  // ---------------------------------------------------------------------------
  // Decimal rendering of a count (`String(n)` / JSX `{n}` for n >= 0)

  predicate IsDigit(c: char) { '0' <= c <= '9' }

  predicate AllDigits(s: string) { forall k :: 0 <= k < |s| ==> IsDigit(s[k]) }

  function DigitChar(d: nat): (c: char)
    requires d < 10
    ensures IsDigit(c) && c as int - '0' as int == d
  {
    ('0' as int + d) as char
  }

  function NatToString(n: nat): (r: string)
    ensures |r| >= 1 && AllDigits(r)
    ensures r[0] == '0' ==> n == 0
    ensures n < 10 <==> |r| == 1
    decreases n
  {
    if n < 10 then [DigitChar(n)] else NatToString(n / 10) + [DigitChar(n % 10)]
  }

  /** Reads a string of decimal digits back as a number. */
  function DigitsValue(s: string): nat
    requires AllDigits(s)
  {
    if s == [] then 0 else DigitsValue(s[..|s| - 1]) * 10 + (s[|s| - 1] as int - '0' as int)
  }

  lemma {:induction false} DecimalRoundTrip(n: nat)
    ensures DigitsValue(NatToString(n)) == n
    decreases n
  {
    if n >= 10 {
      var r := NatToString(n);
      assert r[..|r| - 1] == NatToString(n / 10);
      DecimalRoundTrip(n / 10);
    }
  }

  lemma NatToStringInjective(m: nat, n: nat)
    requires NatToString(m) == NatToString(n)
    ensures m == n
  {
    DecimalRoundTrip(m);
    DecimalRoundTrip(n);
  }
}
