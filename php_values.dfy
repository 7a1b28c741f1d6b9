/**
 * PHP scalar values as the tree engine's server half handles them: the ids, parent
 * pointers and positions that arrive in a move record, and the field values a
 * TextField reads from a record.  Strict comparison (`===`) is structural equality
 * on `Value`; PHP 8's loose comparison (`==`), the argument coercion of typed
 * `int`/`?int`/`string` parameters (coercive typing mode) and SQL matching of a
 * column against a bound parameter are spelled out below.
 */
module PhpValues {

  datatype Option<T> = None | Some(value: T)

  datatype Value = Null | Bool(b: bool) | Int(i: int) | Str(s: string)

  // ---------------------------------------------------------------------------
  // Decimal rendering and parsing of integers

  function DigitChar(d: nat): (c: char)
    requires d < 10
    ensures '0' <= c <= '9'
  {
    (48 + d) as char
  }

  function DigitValue(c: char): nat
    requires '0' <= c <= '9'
  {
    c as int - 48
  }

  /** The decimal digits of `n`, most significant first, without leading zeros. */
  function Digits(n: nat): (r: string)
    ensures IsDigits(r)
    decreases n
  {
    if n < 10 then [DigitChar(n)] else Digits(n / 10) + [DigitChar(n % 10)]
  }

  /** How PHP (and the Blade templates) render an int: `(string) $i`. */
  function IntToString(i: int): string
  {
    if i < 0 then "-" + Digits(-i) else Digits(i)
  }

  predicate IsDigits(s: string)
  {
    |s| > 0 && forall k :: 0 <= k < |s| ==> '0' <= s[k] <= '9'
  }

  function DigitsValue(s: string): nat
    requires IsDigits(s)
    decreases |s|
  {
    if |s| == 1 then DigitValue(s[0])
    else DigitsValue(s[..|s| - 1]) * 10 + DigitValue(s[|s| - 1])
  }

  /**
   * The integer an integer-numeric string denotes: an optional minus sign and at
   * least one decimal digit (leading zeros allowed, as in PHP).
   */
  function ParseDecimal(s: string): Option<int>
  {
    if |s| > 0 && s[0] == '-' && IsDigits(s[1..]) then Some(0 - DigitsValue(s[1..]))
    else if IsDigits(s) then Some(DigitsValue(s) as int)
    else None
  }

  lemma {:induction false} DigitsRoundTrip(n: nat)
    ensures DigitsValue(Digits(n)) == n
    decreases n
  {
    if n >= 10 {
      var d := Digits(n);
      assert d[..|d| - 1] == Digits(n / 10);
      DigitsRoundTrip(n / 10);
    }
  }

  /** Rendering an int and parsing it back yields the same int. */
  lemma ParseRendered(i: int)
    ensures ParseDecimal(IntToString(i)) == Some(i)
  {
    var s := IntToString(i);
    if i < 0 {
      assert s[0] == '-' && s[1..] == Digits(-i);
      DigitsRoundTrip(-i);
    } else {
      assert s == Digits(i) && s[0] != '-';
      DigitsRoundTrip(i);
    }
  }

  /** Two ints render to the same string only if they are equal. */
  lemma RenderInjective(i: int, j: int)
    requires IntToString(i) == IntToString(j)
    ensures i == j
  {
    ParseRendered(i);
    ParseRendered(j);
  }

  // ---------------------------------------------------------------------------
  // PHP conversions and comparisons

  /** PHP truthiness (`if ($v)`, `! $v`, `empty`, `array_filter`). */
  predicate Truthy(v: Value)
  {
    match v
    case Null => false
    case Bool(b) => b
    case Int(i) => i != 0
    case Str(s) => s != "" && s != "0"
  }

  /** `(string) $v`. */
  function StrCast(v: Value): string
  {
    match v
    case Null => ""
    case Bool(b) => if b then "1" else ""
    case Int(i) => IntToString(i)
    case Str(s) => s
  }

  /** PHP 8 loose comparison `$a == $b`. */
  predicate LooseEq(a: Value, b: Value)
  {
    match (a, b)
    case (Bool(x), _) => x == Truthy(b)
    case (_, Bool(y)) => Truthy(a) == y
    case (Null, Null) => true
    case (Null, Int(j)) => j == 0
    case (Int(i), Null) => i == 0
    case (Null, Str(t)) => t == ""
    case (Str(s), Null) => s == ""
    case (Int(i), Int(j)) => i == j
    case (Int(i), Str(t)) => ParseDecimal(t) == Some(i)
    case (Str(s), Int(j)) => ParseDecimal(s) == Some(j)
    case (Str(s), Str(t)) =>
      if ParseDecimal(s).Some? && ParseDecimal(t).Some? then ParseDecimal(s) == ParseDecimal(t)
      else s == t
  }

  /** A value passed to an `int` parameter: `None` is the TypeError PHP raises. */
  function ToIntParam(v: Value): Option<int>
  {
    match v
    case Null => None
    case Bool(b) => Some(if b then 1 else 0)
    case Int(i) => Some(i)
    case Str(s) => ParseDecimal(s)
  }

  /** A value passed to a `?int` parameter: `Null` or an `Int`, or `None` for a TypeError. */
  function ToNullableIntParam(v: Value): (r: Option<Value>)
    ensures r.Some? ==> r.value == Null || r.value.Int?
  {
    if v == Null then Some(Null)
    else match ToIntParam(v)
      case None => None
      case Some(i) => Some(Int(i))
  }

  /** A value passed to a `string` parameter: `None` is the TypeError PHP raises. */
  function ToStringParam(v: Value): Option<string>
  {
    if v == Null then None else Some(StrCast(v))
  }

  /** Loose comparison of two strings is plain equality unless both are integer-numeric. */
  lemma LooseEqNonNumericStrings(s: string, t: string)
    requires ParseDecimal(s).None? || ParseDecimal(t).None?
    ensures LooseEq(Str(s), Str(t)) <==> s == t
  {
  }

  // ---------------------------------------------------------------------------
  // Primary keys and how the database matches and sorts them

  /** A primary-key value: an auto-increment integer or a string such as a UUID. */
  predicate IsKey(v: Value)
  {
    v.Int? || v.Str?
  }

  /**
   * `where column = ?` with the column value `col` and the bound parameter `param`:
   * an integer column takes a string parameter by its integer value, a text column
   * takes an integer parameter by its decimal rendering, and NULL matches nothing.
   */
  predicate SqlEq(col: Value, param: Value)
  {
    match (col, param)
    case (Int(c), Int(p)) => c == p
    case (Int(c), Str(p)) => ParseDecimal(p) == Some(c)
    case (Str(c), Int(p)) => c == IntToString(p)
    case (Str(c), Str(p)) => c == p
    case _ => false
  }

  /** Byte-wise (binary collation) ordering of strings. */
  predicate StrLess(a: string, b: string)
    decreases |a|
  {
    if |a| == 0 then |b| > 0
    else if |b| == 0 then false
    else a[0] < b[0] || (a[0] == b[0] && StrLess(a[1..], b[1..]))
  }

  /** `ORDER BY id` ascending: integers numerically, integers before text, text by bytes. */
  predicate KeyLess(a: Value, b: Value)
  {
    match (a, b)
    case (Int(x), Int(y)) => x < y
    case (Int(_), Str(_)) => true
    case (Str(x), Str(y)) => StrLess(x, y)
    case _ => false
  }

  lemma StrLessIrreflexive(a: string)
    ensures !StrLess(a, a)
  {
  }

  lemma StrLessTransitive(a: string, b: string, c: string)
    requires StrLess(a, b) && StrLess(b, c)
    ensures StrLess(a, c)
  {
    if |a| > 0 && |b| > 0 && |c| > 0 && a[0] == b[0] == c[0] {
      StrLessTransitive(a[1..], b[1..], c[1..]);
    }
  }

  lemma StrLessConnected(a: string, b: string)
    requires a != b
    ensures StrLess(a, b) || StrLess(b, a)
  {
    if |a| > 0 && |b| > 0 && a[0] == b[0] {
      StrLessConnected(a[1..], b[1..]);
    }
  }

  lemma KeyLessIrreflexive(a: Value)
    ensures !KeyLess(a, a)
  {
    if a.Str? {
      StrLessIrreflexive(a.s);
    }
  }

  lemma KeyLessTransitive(a: Value, b: Value, c: Value)
    requires KeyLess(a, b) && KeyLess(b, c)
    ensures KeyLess(a, c)
  {
    if a.Str? && b.Str? && c.Str? {
      StrLessTransitive(a.s, b.s, c.s);
    }
  }

  lemma KeyLessConnected(a: Value, b: Value)
    requires IsKey(a) && IsKey(b) && a != b
    ensures KeyLess(a, b) || KeyLess(b, a)
  {
    if a.Str? && b.Str? {
      StrLessConnected(a.s, b.s);
    }
  }
}
