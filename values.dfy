/** Request parameter values and their Ruby string form (`to_s`). */
module Values {

  datatype Option<+T> = None | Some(value: T)

  /** A parsed request parameter value: a scalar or an array of values. */
  datatype Value =
    | Str(s: string)
    | Int(n: int)
    | Bool(b: bool)
    | Nil
    | Arr(items: seq<Value>)

  /** The decimal digit for `d`. */
  function DigitChar(d: nat): (c: char)
    requires d < 10
    ensures '0' <= c <= '9'
    ensures c as int - '0' as int == d
  {
    "0123456789"[d]
  }

  /** The decimal numeral of a natural number, without leading zeros. */
  function Digits(n: nat): (s: string)
    ensures |s| > 0 && (n >= 10 ==> |s| > 1)
    ensures forall i :: 0 <= i < |s| ==> '0' <= s[i] <= '9'
    decreases n
  {
    if n < 10 then [DigitChar(n)] else Digits(n / 10) + [DigitChar(n % 10)]
  }

  /** `Integer#to_s`: an optional minus sign followed by the decimal numeral. */
  function IntText(i: int): string
  {
    if i < 0 then "-" + Digits(-i) else Digits(i)
  }

  /**
   * The string form used when a raw value is compared with the keys of an
   * enum converter. Arrays have none here: they match no key.
   */
  function StringForm(v: Value): (r: Option<string>)
    ensures r.None? <==> v.Arr?
    ensures v.Str? ==> r == Some(v.s)
  {
    match v
    case Str(s) => Some(s)
    case Int(n) => Some(IntText(n))
    case Bool(b) => Some(if b then "true" else "false")
    case Nil => Some("")
    case Arr(_) => None
  }

  /** Distinct natural numbers have distinct numerals. */
  lemma {:induction false} DigitsInjective(m: nat, n: nat)
    requires Digits(m) == Digits(n)
    ensures m == n
    decreases m
  {
    if m >= 10 && n >= 10 {
      var dm, dn := Digits(m), Digits(n);
      assert dm[..|dm| - 1] == Digits(m / 10);
      assert dn[..|dn| - 1] == Digits(n / 10);
      DigitsInjective(m / 10, n / 10);
      assert DigitChar(m % 10) == dm[|dm| - 1] == dn[|dn| - 1] == DigitChar(n % 10);
    } else if m < 10 && n < 10 {
      assert DigitChar(m) == Digits(m)[0] == Digits(n)[0] == DigitChar(n);
    }
  }

  /** The string form of an integer starts with a minus sign exactly when it is negative. */
  lemma SignVisible(i: int)
    ensures |IntText(i)| > 0 && (IntText(i)[0] == '-' <==> i < 0)
  {
  }

  /** `Integer#to_s` is injective: distinct integers have distinct string forms. */
  lemma IntTextInjective(a: int, b: int)
    requires IntText(a) == IntText(b)
    ensures a == b
  {
    SignVisible(a);
    SignVisible(b);
    if a < 0 && b < 0 {
      assert IntText(a)[1..] == Digits(-a);
      assert IntText(b)[1..] == Digits(-b);
      DigitsInjective(-a, -b);
    } else if a >= 0 && b >= 0 {
      DigitsInjective(a, b);
    }
  }
}
