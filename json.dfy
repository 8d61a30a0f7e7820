/**
 * The fields of a parsed JSON request body, as the handlers see them after
 * destructuring `req.body`, and the two JavaScript conversions applied to
 * them: truthiness (`!password`) and the text the database driver sends for
 * a query parameter.
 */
module Json {
  import opened Wrappers

  /** 2^53 - 1, the largest integer up to which every integer is a JavaScript number. */
  const MaxSafeInteger: int := 0x1F_FFFF_FFFF_FFFF

  /** The integers that `JSON.parse` reads back exactly. */
  type SafeInteger = n: int | -MaxSafeInteger <= n <= MaxSafeInteger

  /** A body field: missing (`undefined`), `null`, or a JSON scalar. */
  datatype Value = Absent | Null | Bool(b: bool) | Num(n: SafeInteger) | Str(s: string)

  /** JavaScript falsiness of a body field: `undefined`, `null`, `false`, `0` and `""`. */
  predicate Falsy(v: Value)
  {
    v.Absent? || v.Null? || v == Bool(false) || v == Num(0) || v == Str("")
  }

  /** The number a string of decimal digits spells, read left to right. */
  function DigitsValue(s: string): int
  {
    if s == [] then 0 else DigitsValue(s[..|s| - 1]) * 10 + (s[|s| - 1] as int - '0' as int)
  }

  /** Decimal text of a natural number, as `Number.prototype.toString` writes it. */
  function NatText(n: nat): (r: string)
    ensures |r| > 0
    ensures forall k | 0 <= k < |r| :: '0' <= r[k] <= '9'
    ensures DigitsValue(r) == n
    ensures r[0] != '0' || r == "0"
  {
    var digit := ['0' + (n % 10) as char];
    if n < 10 then digit
    else
      var front := NatText(n / 10);
      assert (front + digit)[..|front + digit| - 1] == front;
      front + digit
  }

  /**
   * Decimal text of an integer: a leading '-' when it is negative, then the
   * digits of its magnitude.  For the safe integers that `Num` holds this is
   * the text `toString` gives.
   */
  function IntText(n: int): (r: string)
    ensures |r| > 0
    ensures r[0] == '-' <==> n < 0
    ensures n < 0 ==> |r| > 1 && DigitsValue(r[1..]) == -n
    ensures n >= 0 ==> DigitsValue(r) == n
    ensures var k0 := if n < 0 then 1 else 0; forall k | k0 <= k < |r| :: '0' <= r[k] <= '9'
    ensures var k0 := if n < 0 then 1 else 0; k0 < |r| && (r[k0] != '0' || r[k0..] == "0")
  {
    if n < 0 then
      var digits := NatText(-n);
      assert ("-" + digits)[1..] == digits;
      "-" + digits
    else NatText(n)
  }

  /** Distinct integers get distinct texts, so a numeric parameter names exactly one row name. */
  lemma IntTextInjective(a: int, b: int)
    requires IntText(a) == IntText(b)
    ensures a == b
  {
  }

  /**
   * The value the database driver binds to a `$1` parameter: `undefined` and
   * `null` become SQL NULL, every other scalar its `toString()` text.
   */
  function QueryText(v: Value): (r: Option<string>)
  {
    match v
    case Absent => None
    case Null => None
    case Bool(b) => Some(if b then "true" else "false")
    case Num(n) => Some(IntText(n))
    case Str(s) => Some(s)
  }

  /**
   * Two username fields bind the same text only when they are the same
   * string, the same number, the same boolean, a number and the string of
   * its digits, or a boolean and its name; and both bind NULL exactly when
   * both are missing or `null`.
   */
  lemma QueryTextAgrees(u: Value, v: Value)
    requires QueryText(u) == QueryText(v)
    ensures u.Num? && v.Num? ==> u == v
    ensures u.Str? && v.Num? ==> u.s == IntText(v.n)
    ensures u.Str? && v.Str? ==> u == v
    ensures u.Bool? && v.Bool? ==> u == v
    ensures u.Bool? && v.Str? ==> v.s == if u.b then "true" else "false"
    ensures !(u.Num? && v.Bool?) && !(u.Bool? && v.Num?)
    ensures (u.Absent? || u.Null?) <==> (v.Absent? || v.Null?)
  {
  }
}
