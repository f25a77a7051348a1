/**
 * The JavaScript number conversions the controller relies on: `parseInt` with
 * no radix (query parameters), `Number` (route parameters) and the decimal
 * rendering a template literal gives an integer (cache keys). NaN is `None`.
 * Numbers are unbounded integers here; see the README for what that leaves out.
 */
module JsNumbers {
  import opened Wrappers

  /** The StrWhiteSpaceChar production: ECMAScript WhiteSpace and LineTerminator code points. */
  predicate IsJsSpace(c: char) {
    var n := c as int;
    n == 0x09 || n == 0x0A || n == 0x0B || n == 0x0C || n == 0x0D || n == 0x20
    || n == 0xA0 || n == 0x1680 || (0x2000 <= n <= 0x200A) || n == 0x2028 || n == 0x2029
    || n == 0x202F || n == 0x205F || n == 0x3000 || n == 0xFEFF
  }

  /** The value of `c` as a digit in radix 36 ('0'..'9', then 'a'..'z' in either case); 36 when it is no digit. */
  function DigitValue(c: char): (d: nat)
    ensures d <= 36
  {
    if '0' <= c <= '9' then c as int - '0' as int
    else if 'a' <= c <= 'z' then c as int - 'a' as int + 10
    else if 'A' <= c <= 'Z' then c as int - 'A' as int + 10
    else 36
  }

  predicate IsDecimalDigit(c: char) {
    DigitValue(c) < 10
  }

  function DigitChar(d: nat): (c: char)
    requires d < 10
    ensures DigitValue(c) == d
  {
    ('0' as int + d) as char
  }

  /** Leading white space removed. */
  function TrimStart(s: string): (r: string)
    ensures |r| <= |s| && r == s[|s| - |r|..]
    ensures r == [] || !IsJsSpace(r[0])
    ensures forall i :: 0 <= i < |s| - |r| ==> IsJsSpace(s[i])
  {
    if |s| > 0 && IsJsSpace(s[0]) then TrimStart(s[1..]) else s
  }

  /** Trailing white space removed. */
  function TrimEnd(s: string): (r: string)
    ensures |r| <= |s| && r == s[..|r|]
    ensures r == [] || !IsJsSpace(r[|r| - 1])
    ensures forall i :: |r| <= i < |s| ==> IsJsSpace(s[i])
  {
    if |s| > 0 && IsJsSpace(s[|s| - 1]) then TrimEnd(s[..|s| - 1]) else s
  }

  /** Length of the longest prefix of `s` made of digits of the given radix. */
  function DigitRun(s: string, radix: nat): (k: nat)
    ensures k <= |s|
    ensures forall i :: 0 <= i < k ==> DigitValue(s[i]) < radix
    ensures k < |s| ==> DigitValue(s[k]) >= radix
  {
    if |s| > 0 && DigitValue(s[0]) < radix then 1 + DigitRun(s[1..], radix) else 0
  }

  /** The number a digit string denotes in the given radix, most significant digit first. */
  function DigitsValue(ds: string, radix: nat): nat {
    if |ds| == 0 then 0
    else DigitsValue(ds[..|ds| - 1], radix) * radix + DigitValue(ds[|ds| - 1])
  }

  /** `String(v)` for a query value: an absent parameter is `undefined`. */
  function QueryText(q: Option<string>): string {
    match q
    case Some(s) => s
    case None => "undefined"
  }

  /** The sign `parseInt` and `Number` read from the first character. */
  function SignOf(t: string): int {
    if |t| > 0 && t[0] == '-' then -1 else 1
  }

  /** The text after one leading sign, if there is one. */
  function Unsigned(t: string): (u: string)
    ensures u == t || (|t| > 0 && u == t[1..])
  {
    if |t| > 0 && (t[0] == '-' || t[0] == '+') then t[1..] else t
  }

  predicate HasHexPrefix(u: string) {
    |u| >= 2 && u[0] == '0' && (u[1] == 'x' || u[1] == 'X')
  }

  /** The magnitude `parseInt` reads after the sign: radix 16 after `0x`, otherwise 10. */
  function ParseMagnitude(u: string): Option<nat> {
    var radix := if HasHexPrefix(u) then 16 else 10;
    var body := if HasHexPrefix(u) then u[2..] else u;
    var k := DigitRun(body, radix);
    if k == 0 then None else Some(DigitsValue(body[..k], radix))
  }

  /**
   * `parseInt(s)` without a radix: skip leading white space, take one sign,
   * switch to radix 16 on a `0x`/`0X` prefix, then read the longest run of
   * digits; no digit at all is NaN. A negative zero is the integer 0.
   */
  function ParseText(s: string): (r: Option<int>)
    ensures var t := TrimStart(s);
            r.Some? ==> |t| > 0 && (IsDecimalDigit(t[0]) || t[0] == '-' || t[0] == '+')
    ensures var t := TrimStart(s);
            r.Some? && r.value < 0 ==> t[0] == '-'
  {
    var t := TrimStart(s);
    match ParseMagnitude(Unsigned(t))
    case None => None
    case Some(m) => Some(SignOf(t) * m)
  }

  /** `String(undefined)` is the text "undefined", which holds no digit. */
  lemma UndefinedIsNaN()
    ensures ParseText(QueryText(None)) == None
  {
    var text := QueryText(None);
    assert text == "undefined";
    assert !IsJsSpace(text[0]) && !IsDecimalDigit(text[0]);
    assert TrimStart(text) == text;
    assert Unsigned(text) == text;
    assert !HasHexPrefix(text);
    assert DigitRun(text, 10) == 0;
  }

  /** `parseInt(req.query.x as string)`. */
  function ParseInt(q: Option<string>): (r: Option<int>)
    ensures q.None? ==> r.None?
  {
    UndefinedIsNaN();
    ParseText(QueryText(q))
  }

  /**
   * `Number(s)` on a route parameter: surrounding white space is ignored, the
   * empty string is 0, and an optionally signed run of decimal digits is its
   * value. Every other text is NaN in this model.
   */
  function ToNumber(s: string): (r: Option<int>)
    ensures var t := TrimEnd(TrimStart(s));
            t == [] ==> r == Some(0)
    ensures var t := TrimEnd(TrimStart(s));
            var u := Unsigned(t);
            t != [] ==> (r.Some? <==> u != [] && forall i :: 0 <= i < |u| ==> IsDecimalDigit(u[i]))
    ensures var t := TrimEnd(TrimStart(s));
            r.Some? && t != [] ==> r.value == SignOf(t) * DigitsValue(Unsigned(t), 10)
  {
    var t := TrimEnd(TrimStart(s));
    if t == [] then Some(0)
    else
      var u := Unsigned(t);
      if u != [] && DigitRun(u, 10) == |u| then Some(SignOf(t) * DigitsValue(u, 10)) else None
  }

  /** The decimal rendering of a natural number: no sign, no leading zero. */
  function DecimalString(n: nat): (s: string)
    ensures |s| >= 1
    ensures forall i :: 0 <= i < |s| ==> IsDecimalDigit(s[i])
    ensures |s| > 1 ==> s[0] != '0'
  {
    if n < 10 then [DigitChar(n)] else DecimalString(n / 10) + [DigitChar(n % 10)]
  }

  /** What a template literal `${i}` renders for an integer. */
  function IntString(i: int): (s: string)
    ensures |s| >= 1
    ensures s[0] == '-' <==> i < 0
  {
    if i < 0 then "-" + DecimalString(-i) else DecimalString(i)
  }

  /** A suffix that stops `parseInt` right after a rendered integer. */
  predicate StopsNumber(suffix: string) {
    suffix == [] || (!IsDecimalDigit(suffix[0]) && suffix[0] != 'x' && suffix[0] != 'X')
  }

  lemma {:induction false} DecimalStringValue(n: nat)
    ensures DigitsValue(DecimalString(n), 10) == n
  {
    var s := DecimalString(n);
    if n >= 10 {
      var front := DecimalString(n / 10);
      assert s[..|s| - 1] == front;
      DecimalStringValue(n / 10);
    }
  }

  /** A run of digits followed by a non-digit is read up to exactly that non-digit. */
  lemma {:induction false} DigitRunOfPrefix(a: string, b: string, radix: nat)
    requires forall i :: 0 <= i < |a| ==> DigitValue(a[i]) < radix
    requires b == [] || DigitValue(b[0]) >= radix
    ensures DigitRun(a + b, radix) == |a|
  {
    if |a| > 0 {
      assert (a + b)[1..] == a[1..] + b;
      DigitRunOfPrefix(a[1..], b, radix);
    } else {
      assert a + b == b;
    }
  }

  /** A rendered magnitude followed by a stopping suffix is read back exactly. */
  lemma MagnitudeOfRendered(n: nat, suffix: string)
    requires StopsNumber(suffix)
    ensures ParseMagnitude(DecimalString(n) + suffix) == Some(n)
  {
    var d := DecimalString(n);
    var u := d + suffix;
    assert !HasHexPrefix(u) by {
      if |u| >= 2 && u[0] == '0' {
        assert |d| == 1;
        assert u[1] == suffix[0];
      }
    }
    DigitRunOfPrefix(d, suffix, 10);
    assert u[..|d|] == d;
    DecimalStringValue(n);
  }

  /** Text that starts with a digit or a sign has no leading white space to skip. */
  lemma DigitOrMinusNotSpace(c: char)
    requires IsDecimalDigit(c) || c == '-'
    ensures !IsJsSpace(c)
  {
    assert c as int == 0x2D || 0x30 <= c as int <= 0x39;
  }

  lemma NoLeadingSpace(s: string)
    requires |s| > 0 && (IsDecimalDigit(s[0]) || s[0] == '-')
    ensures TrimStart(s) == s
  {
    DigitOrMinusNotSpace(s[0]);
  }

  /** `parseInt` reads back what a template literal rendered, whatever non-digit text follows. */
  lemma ParseRendered(i: int, suffix: string)
    requires StopsNumber(suffix)
    ensures ParseText(IntString(i) + suffix) == Some(i)
  {
    var n: nat := if i < 0 then -i else i;
    var d := DecimalString(n);
    var s := IntString(i) + suffix;
    NoLeadingSpace(s);
    assert Unsigned(s) == d + suffix by {
      if i < 0 {
        assert s == "-" + (d + suffix);
      } else {
        assert s == d + suffix;
      }
    }
    MagnitudeOfRendered(n, suffix);
    assert SignOf(s) * n == i;
  }

  lemma ParseRenderedExactly(i: int)
    ensures ParseText(IntString(i)) == Some(i)
  {
    ParseRendered(i, []);
    assert IntString(i) + [] == IntString(i);
  }

  /** Distinct integers render to distinct texts. */
  lemma IntStringInjective(i: int, j: int)
    requires IntString(i) == IntString(j)
    ensures i == j
  {
    ParseRenderedExactly(i);
    ParseRenderedExactly(j);
  }

  /** White space in front of text that does not start with white space is all `TrimStart` removes. */
  lemma {:induction false} TrimStartPadding(pre: string, x: string)
    requires forall i :: 0 <= i < |pre| ==> IsJsSpace(pre[i])
    requires x == [] || !IsJsSpace(x[0])
    ensures TrimStart(pre + x) == x
  {
    if |pre| > 0 {
      assert (pre + x)[1..] == pre[1..] + x;
      TrimStartPadding(pre[1..], x);
    } else {
      assert pre + x == x;
    }
  }

  /** White space after text that does not end in white space is all `TrimEnd` removes. */
  lemma {:induction false} TrimEndPadding(x: string, post: string)
    requires forall i :: 0 <= i < |post| ==> IsJsSpace(post[i])
    requires x == [] || !IsJsSpace(x[|x| - 1])
    ensures TrimEnd(x + post) == x
  {
    if |post| > 0 {
      var front := post[..|post| - 1];
      assert (x + post)[..|x + post| - 1] == x + front;
      TrimEndPadding(x, front);
    } else {
      assert x + post == x;
    }
  }

  /** `Number` reads back the rendering of any integer, negative ones included. */
  lemma NumberOfInt(i: int)
    ensures TrimEnd(TrimStart(IntString(i))) == IntString(i)
    ensures ToNumber(IntString(i)) == Some(i)
  {
    var n: nat := if i < 0 then -i else i;
    var d := DecimalString(n);
    var r := IntString(i);
    NoLeadingSpace(r);
    DigitOrMinusNotSpace(r[|r| - 1]);
    TrimEndPadding(r, []);
    assert r + [] == r;
    assert Unsigned(r) == d by {
      if i < 0 {
        assert r == "-" + d;
      } else {
        assert r == d;
      }
    }
    DigitRunOfPrefix(d, [], 10);
    assert d + [] == d;
    DecimalStringValue(n);
    assert SignOf(r) * n == i;
  }

  /** Trimming white space around a rendered integer gives back the rendering. */
  lemma TrimPaddedRendering(i: int, pre: string, post: string)
    requires forall k :: 0 <= k < |pre| ==> IsJsSpace(pre[k])
    requires forall k :: 0 <= k < |post| ==> IsJsSpace(post[k])
    ensures TrimEnd(TrimStart(pre + IntString(i) + post)) == IntString(i)
  {
    TrimStartRendering(i, pre, post);
    TrimEndRendering(i, post);
  }

  lemma TrimStartRendering(i: int, pre: string, post: string)
    requires forall k :: 0 <= k < |pre| ==> IsJsSpace(pre[k])
    ensures TrimStart(pre + IntString(i) + post) == IntString(i) + post
  {
    var r := IntString(i);
    DigitOrMinusNotSpace(r[0]);
    assert pre + r + post == pre + (r + post);
    TrimStartPadding(pre, r + post);
  }

  lemma TrimEndRendering(i: int, post: string)
    requires forall k :: 0 <= k < |post| ==> IsJsSpace(post[k])
    ensures TrimEnd(IntString(i) + post) == IntString(i)
  {
    var r := IntString(i);
    DigitOrMinusNotSpace(r[|r| - 1]);
    TrimEndPadding(r, post);
  }

  /** White space around the rendering of an integer makes no difference to `Number`. */
  lemma NumberOfPadded(i: int, pre: string, post: string)
    requires forall k :: 0 <= k < |pre| ==> IsJsSpace(pre[k])
    requires forall k :: 0 <= k < |post| ==> IsJsSpace(post[k])
    ensures ToNumber(pre + IntString(i) + post) == Some(i)
  {
    TrimPaddedRendering(i, pre, post);
    NumberOfInt(i);
    SameTrimSameNumber(pre + IntString(i) + post, IntString(i));
  }

  /** `Number` only looks at the text between the surrounding white space. */
  lemma SameTrimSameNumber(a: string, b: string)
    requires TrimEnd(TrimStart(a)) == TrimEnd(TrimStart(b))
    ensures ToNumber(a) == ToNumber(b)
  {
  }

  /** `Number` reads back the decimal rendering of a natural number. */
  lemma NumberOfRendered(n: nat)
    ensures ToNumber(DecimalString(n)) == Some(n)
  {
    var d := DecimalString(n);
    NoLeadingSpace(d);
    assert TrimEnd(d) == d by {
      assert IsDecimalDigit(d[|d| - 1]);
    }
    assert Unsigned(d) == d by {
      assert IsDecimalDigit(d[0]);
    }
    DigitRunOfPrefix(d, [], 10);
    assert d + [] == d;
    DecimalStringValue(n);
  }
}
