/**
 * The JavaScript values that a database row hands to the story-graph handler,
 * as far as the handler looks at them: their truthiness (an `if (v)` test) and
 * the text a template literal `${v}` turns them into.
 */
module JsValues {

  /** A column value of a query row: SQL NULL arrives as `null`, a missing
      column reads as `undefined`, integer columns as numbers, text as strings. */
  datatype Value = Null | Undefined | Num(n: int) | Str(s: string)

  /** JavaScript truthiness: `null`, `undefined`, `0` and `""` are falsy,
      every other number and string is truthy. */
  predicate Truthy(v: Value)
  {
    match v
    case Null => false
    case Undefined => false
    case Num(n) => n != 0
    case Str(s) => s != ""
  }

  /** The four falsy values are exactly `null`, `undefined`, `0` and `""`. */
  lemma FalsyValues(v: Value)
    ensures !Truthy(v) <==> v in {Null, Undefined, Num(0), Str("")}
  {
  }

  /** The decimal digit for `d`. */
  function DigitChar(d: nat): (c: char)
    requires d < 10
    ensures '0' <= c <= '9' && c as int - '0' as int == d
  {
    "0123456789"[d]
  }

  predicate IsDigits(s: string)
  {
    forall i :: 0 <= i < |s| ==> '0' <= s[i] <= '9'
  }

  /** `String(n)` for a non-negative integer: its decimal digits, most
      significant first, with no leading zero. */
  function NatToDecimal(n: nat): (s: string)
    decreases n
    ensures |s| >= 1 && IsDigits(s)
    ensures s[0] == '0' ==> n == 0
  {
    if n < 10 then [DigitChar(n)] else NatToDecimal(n / 10) + [DigitChar(n % 10)]
  }

  /** The number a string of decimal digits denotes. */
  function DecimalValue(s: string): nat
    requires IsDigits(s)
    decreases |s|
  {
    if s == [] then 0
    else DecimalValue(s[..|s| - 1]) * 10 + (s[|s| - 1] as int - '0' as int)
  }

  /** Reading back the digits of `n` gives `n`. */
  lemma {:induction false} DecimalRoundTrip(n: nat)
    ensures DecimalValue(NatToDecimal(n)) == n
  {
    var s := NatToDecimal(n);
    if n >= 10 {
      var p := NatToDecimal(n / 10);
      assert s == p + [DigitChar(n % 10)];
      assert s[..|s| - 1] == p;
      DecimalRoundTrip(n / 10);
    }
  }

  /** What the template literal `${v}` produces for `v`. */
  function Render(v: Value): string
  {
    match v
    case Null => "null"
    case Undefined => "undefined"
    case Num(n) => if n < 0 then "-" + NatToDecimal(-n) else NatToDecimal(n)
    case Str(s) => s
  }

  /** Two numbers render to the same text only when they are equal, so a
      numeric id is recovered from its rendering. */
  lemma {:induction false} RenderNumInjective(a: int, b: int)
    ensures Render(Num(a)) == Render(Num(b)) ==> a == b
  {
    if Render(Num(a)) == Render(Num(b)) {
      SignAndDigits(a);
      SignAndDigits(b);
      if a < 0 && b < 0 {
        NatToDecimalInjective(-a, -b);
      } else if a >= 0 && b >= 0 {
        NatToDecimalInjective(a, b);
      }
    }
  }

  /** A rendered number starts with `-` exactly when it is negative; the
      rest is the decimal form of its absolute value. */
  lemma SignAndDigits(a: int)
    ensures |Render(Num(a))| >= 1
    ensures a < 0 ==> Render(Num(a))[0] == '-' && Render(Num(a))[1..] == NatToDecimal(-a)
    ensures a >= 0 ==> Render(Num(a))[0] != '-' && Render(Num(a)) == NatToDecimal(a)
  {
    var r := Render(Num(a));
    if a < 0 {
      var d := NatToDecimal(-a);
      assert r == "-" + d;
      assert r[1..] == d;
    } else {
      var d := NatToDecimal(a);
      assert r == d;
      assert '0' <= d[0] <= '9';
    }
  }

  /** Text made of an optional leading character followed by decimal digits,
      the shape every rendered integer has. */
  predicate SignedDigits(s: string)
  {
    |s| >= 1 && forall i :: 1 <= i < |s| ==> '0' <= s[i] <= '9'
  }

  /** After its first character, a rendered integer holds digits only; in
      particular it holds no `-` there. */
  lemma RenderedNumShape(a: int)
    ensures SignedDigits(Render(Num(a)))
  {
    var r := Render(Num(a));
    SignAndDigits(a);
    if a < 0 {
      var d := NatToDecimal(-a);
      assert r[1..] == d;
      forall i | 1 <= i < |r|
        ensures '0' <= r[i] <= '9'
      {
        assert r[i] == d[i - 1];
      }
    }
  }

  /** In `x + "-" + y`, with `x` a signed digit string, the first `-` after
      the first character sits right after `x`. */
  lemma FirstDashAfterSign(x: string, y: string)
    requires SignedDigits(x)
    ensures (x + "-" + y)[|x|] == '-'
    ensures forall k :: 1 <= k < |x| ==> (x + "-" + y)[k] != '-'
  {
    forall k | 1 <= k < |x|
      ensures (x + "-" + y)[k] != '-'
    {
      assert (x + "-" + y)[k] == x[k];
    }
  }

  /** Joining two signed digit strings with `-` can be undone: the first
      `-` after the first character is the separator. */
  lemma {:induction false} DashJoinSplits(x: string, y: string, x': string, y': string)
    requires SignedDigits(x) && SignedDigits(x')
    ensures x + "-" + y == x' + "-" + y' ==> x == x' && y == y'
  {
    var s, s' := x + "-" + y, x' + "-" + y';
    if s == s' {
      FirstDashAfterSign(x, y);
      FirstDashAfterSign(x', y');
      assert |x| == |x'|;
      assert x == s[..|x|] && x' == s'[..|x'|];
      assert y == s[|x| + 1..] && y' == s'[|x'| + 1..];
    }
  }

  lemma NatToDecimalInjective(m: nat, n: nat)
    ensures NatToDecimal(m) == NatToDecimal(n) ==> m == n
  {
    DecimalRoundTrip(m);
    DecimalRoundTrip(n);
  }
}
