/**
 * JSON values as the loaders receive them from `json.load`, and how psycopg2 and Postgres
 * turn them into column values.
 */
module Json {
  import opened Wrappers
  import opened Text
  import opened PgArray

  /**
   * A JSON value. A number without a fraction or an exponent is a Python int; any other
   * number is a float, kept as the digits `m` and the exponent `e` of its Python repr (the
   * value m * 10^e), which is the literal psycopg2 sends for it. An array is the Python list
   * `json.load` builds, which psycopg2 sends as an array. An object is kept only as its
   * encoded text: psycopg2 cannot send a dict, and the one column that stores objects
   * (`tweets.geo_data`, JSONB) receives the `json.dumps` text of the value.
   */
  datatype Value =
    | Null
    | Bool(b: bool)
    | Number(n: int)
    | Float(m: int, e: int)
    | Str(s: string)
    | Array(items: seq<Value>)
    | Object(encoded: string)

  /** A JSON object, as the Python dict `json.load` builds from it. */
  type Record = map<string, Value>

  function Abs(n: int): nat {
    if n < 0 then -n else n
  }

  function Pow10(k: nat): (p: nat)
    ensures p >= 1
  {
    if k == 0 then 1 else 10 * Pow10(k - 1)
  }

  /** Euclidean division of a natural number by a positive one. */
  lemma DivMod(a: nat, d: nat)
    requires d >= 1
    ensures a / d >= 0 && 0 <= a % d < d && a == d * (a / d) + a % d
  {
  }

  lemma QuotientBounds(a: nat, d: nat)
    requires d >= 1
    ensures a / d >= 0 && (a / d) * d <= a < (a / d + 1) * d
  {
    DivMod(a, d);
    var q := a / d;
    assert q * d == d * q;
    assert (q + 1) * d == q * d + d;
  }

  /** Division of `m` by `d`, rounded toward zero, as Python's `int()` rounds a float. */
  function Truncate(m: int, d: nat): (q: int)
    requires d >= 1
    ensures Abs(q) * d <= Abs(m) < (Abs(q) + 1) * d
    ensures q == 0 || (q < 0 <==> m < 0)
  {
    var a := Abs(m);
    QuotientBounds(a, d);
    if m >= 0 then a / d else -(a / d)
  }

  /** `n` written with exactly `k` decimal digits, with leading zeros. */
  function Digits(n: nat, k: nat): (s: string)
    requires n < Pow10(k)
    ensures |s| == k && AllDigits(s)
  {
    if k == 0 then [] else Digits(n / 10, k - 1) + [DigitChar(n % 10)]
  }

  lemma {:induction false} DigitsValueOf(n: nat, k: nat)
    requires n < Pow10(k)
    ensures DigitsValue(Digits(n, k)) == n
  {
    if k > 0 {
      DigitsValueOf(n / 10, k - 1);
      var s := Digits(n, k);
      assert s[..|s| - 1] == Digits(n / 10, k - 1);
      assert s[|s| - 1] as int - '0' as int == n % 10;
    }
  }

  /**
   * The text Postgres stores in a TEXT column for the numeric literal m * 10^e: the integer part,
   * then, when the literal has a fraction, a point and exactly -e fraction digits. Postgres
   * numeric has no negative zero, so the sign is written only for a non-zero value.
   */
  function NumericText(m: int, e: int): string {
    if e >= 0 then ShowInt(m * Pow10(e))
    else
      var d := Pow10(-e);
      DivMod(Abs(m), d);
      SignedWhole(m, d) + "." + Digits(Abs(m) % d, -e)
  }

  /** The element types Postgres can settle an `ARRAY[...]` of scalars on; `Unknown` is a NULL. */
  datatype Kind = Unknown | TextKind | NumericKind | BooleanKind

  /** The type of one element: none for a list or a dict, which cannot be an element here. */
  function KindOf(v: Value): Option<Kind> {
    match v
    case Null => Some(Unknown)
    case Str(_) => Some(TextKind)
    case Number(_) => Some(NumericKind)
    case Float(_, _) => Some(NumericKind)
    case Bool(_) => Some(BooleanKind)
    case Array(_) => None
    case Object(_) => None
  }

  /** Two element types meet: a NULL takes the other's type, two different types clash. */
  function Meet(a: Kind, b: Kind): Option<Kind> {
    if a == Unknown then Some(b) else if b == Unknown || a == b then Some(a) else None
  }

  /** The element type of `ARRAY[...]`, settled element by element; `None` when it fails. */
  function Common(items: seq<Value>): Option<Kind>
    decreases |items|
  {
    if items == [] then Some(Unknown)
    else
      match (Common(items[..|items| - 1]), KindOf(items[|items| - 1]))
      case (Some(a), Some(b)) => Meet(a, b)
      case _ => None
  }

  /** The elements are scalars, and all the non-null ones have the same type. */
  predicate Uniform(items: seq<Value>) {
    && (forall i :: 0 <= i < |items| ==> KindOf(items[i]).Some?)
    && (forall i, j :: 0 <= i < |items| && 0 <= j < |items|
          && KindOf(items[i]) != Some(Unknown) && KindOf(items[j]) != Some(Unknown)
          ==> KindOf(items[i]) == KindOf(items[j]))
  }

  /**
   * The settled type is the one the non-null elements share, or `Unknown` when all of them
   * are NULL; it settles exactly when the elements are scalars of one type.
   */
  lemma {:induction false} CommonUniform(items: seq<Value>)
    ensures Common(items).Some? <==> Uniform(items)
    ensures Common(items).Some? ==>
      (forall i :: 0 <= i < |items| && KindOf(items[i]) != Some(Unknown) ==> KindOf(items[i]) == Common(items))
    ensures Common(items).Some? && Common(items) != Some(Unknown) ==>
      exists i :: 0 <= i < |items| && KindOf(items[i]) == Common(items)
    decreases |items|
  {
    if items != [] {
      var n := |items| - 1;
      var init, v := items[..n], items[n];
      CommonUniform(init);
      assert forall i :: 0 <= i < n ==> items[i] == init[i];
      if Uniform(items) {
        assert Uniform(init);
        var a := Common(init).value;
        var b := KindOf(v).value;
        if a != Unknown && b != Unknown {
          var i :| 0 <= i < n && KindOf(init[i]) == Some(a);
          assert KindOf(items[i]) == Some(a) && KindOf(items[n]) == Some(b);
        }
      }
      if Common(items).Some? {
        var a := Common(init).value;
        var b := KindOf(v).value;
        var c := Common(items).value;
        if a == Unknown {
          assert forall i :: 0 <= i < n ==> KindOf(items[i]) == Some(Unknown);
        } else {
          var i :| 0 <= i < n && KindOf(init[i]) == Some(a);
          assert KindOf(items[i]) == Some(c);
        }
      }
    }
  }

  /** The text array output writes for one scalar element. */
  function ElementValue(v: Value): Option<string>
    requires KindOf(v).Some?
  {
    match v
    case Null => None
    case Bool(b) => Some(if b then "t" else "f")
    case Number(n) => Some(ShowInt(n))
    case Float(m, e) => Some(NumericText(m, e))
    case Str(s) => Some(s)
  }

  function ElementValues(items: seq<Value>): seq<Option<string>>
    requires Uniform(items)
  {
    seq(|items|, i requires 0 <= i < |items| => ElementValue(items[i]))
  }

  /**
   * The text a TEXT column stores for a list. psycopg2 sends an empty list as the string
   * `'{}'`, and any other list as `ARRAY[...]` of its elements; Postgres settles the
   * elements on one type, fails when it cannot, and otherwise converts the array to its
   * text form on assignment.
   */
  function ArrayText(items: seq<Value>): (r: Option<string>)
    ensures items == [] ==> r == Some("{}")
    ensures items != [] ==> (r.Some? <==> Uniform(items))
    ensures r.Some? ==> Uniform(items) && ReadArray(r.value) == Some(ElementValues(items))
  {
    CommonUniform(items);
    if items == [] then
      assert ElementValues(items) == [];
      LiteralReadsBack([]);
      Some("{}")
    else if Common(items).None? then None
    else
      LiteralReadsBack(ElementValues(items));
      Some(Literal(ElementValues(items)))
  }

  /**
   * The value a nullable TEXT column receives: JSON null becomes NULL, a string is stored
   * as it is, a number or a boolean goes through Postgres' assignment cast to its text, a
   * list is stored as the text of the array it becomes. A dict cannot be sent at all, and
   * neither can a list Postgres cannot type: the statement fails (`None`).
   */
  function TextColumn(v: Value): (r: Option<Option<string>>)
    ensures r.None? <==> v.Object? || (v.Array? && v.items != [] && !Uniform(v.items))
    ensures r == Some(None) <==> v.Null?
    ensures v.Str? ==> r == Some(Some(v.s))
    ensures v.Number? ==> r == Some(Some(ShowInt(v.n)))
    ensures v.Bool? ==> r == Some(Some(if v.b then "true" else "false"))
    ensures v.Float? ==> r == Some(Some(NumericText(v.m, v.e)))
    ensures v.Array? && v.items == [] ==> r == Some(Some("{}"))
    ensures v.Array? && r.Some? ==> r.value.Some? && ReadArray(r.value.value) == Some(ElementValues(v.items))
  {
    match v
    case Null => Some(None)
    case Bool(b) => Some(Some(if b then "true" else "false"))
    case Number(n) => Some(Some(ShowInt(n)))
    case Float(m, e) => Some(Some(NumericText(m, e)))
    case Str(s) => Some(Some(s))
    case Array(items) => if ArrayText(items).Some? then Some(Some(ArrayText(items).value)) else None
    case Object(_) => None
  }

  /** The JSON value a nullable text is written as. */
  function FromText(t: Option<string>): (v: Value)
    ensures TextColumn(v) == Some(t)
  {
    match t
    case Some(s) => Str(s)
    case None => Null
  }

  /** A TEXT NOT NULL column: a null fails the statement as well. */
  function RequiredText(v: Value): (r: Option<string>)
    ensures r.Some? <==> !v.Null? && TextColumn(v).Some?
    ensures r.Some? ==> TextColumn(v) == Some(r)
  {
    match TextColumn(v)
    case Some(Some(s)) => Some(s)
    case _ => None
  }

  /** An integer stored in a TEXT column reads back as the same integer. */
  lemma NumberColumnReadsBack(n: int)
    ensures RequiredText(Number(n)).Some? && ParseInt(RequiredText(Number(n)).value) == Some(n)
  {
    IntRoundTrip(n);
  }

  /**
   * Python's `int(v)`: an integer is itself, a boolean is 1 or 0, a float is truncated toward
   * zero, a string is parsed (ValueError when it is not a decimal integer), `None`, a list
   * and a dict raise TypeError (`None`).
   */
  function Int(v: Value): (r: Option<int>)
    ensures v.Number? ==> r == Some(v.n)
    ensures v.Bool? ==> r == Some(if v.b then 1 else 0)
    ensures v.Float? && v.e >= 0 ==> r == Some(v.m * Pow10(v.e))
    ensures v.Float? && v.e < 0 ==> r == Some(Truncate(v.m, Pow10(-v.e)))
    ensures v.Str? ==> r == ParseInt(v.s)
    ensures v.Null? || v.Array? || v.Object? ==> r.None?
  {
    match v
    case Number(n) => Some(n)
    case Bool(b) => Some(if b then 1 else 0)
    case Float(m, e) => Some(if e >= 0 then m * Pow10(e) else Truncate(m, Pow10(-e)))
    case Str(s) => ParseInt(s)
    case _ => None
  }

  /** `int(...)` accepts the decimal text of every integer. */
  lemma IntOfShownNumber(n: int)
    ensures Int(Str(ShowInt(n))) == Some(n)
  {
    IntRoundTrip(n);
  }

  /**
   * The text a float leaves in a TEXT column agrees with `int()` of the float: without a
   * fraction it reads back as that integer; with one, the part before the point reads back
   * as the truncated value and the -e digits after it are the remainder.
   */
  lemma {:induction false} FloatTextAgreesWithInt(m: int, e: int)
    ensures var t := RequiredText(Float(m, e)).value;
      var n := Int(Float(m, e)).value;
      if e >= 0 then ParseInt(t) == Some(n)
      else
        var p := |t| + e - 1;
        0 <= p && t[p] == '.' && ParseInt(t[..p]) == Some(n)
        && AllDigits(t[p + 1..]) && DigitsValue(t[p + 1..]) == Abs(m) % Pow10(-e)
  {
    var t := NumericText(m, e);
    assert RequiredText(Float(m, e)) == Some(t);
    if e >= 0 {
      IntRoundTrip(m * Pow10(e));
    } else {
      var d := Pow10(-e);
      var q := Truncate(m, d);
      assert Int(Float(m, e)) == Some(q);
      FractionText(m, d, -e);
    }
  }

  lemma FractionText(m: int, d: nat, k: nat)
    requires k >= 1 && d == Pow10(k)
    ensures var t := NumericText(m, -(k as int));
      var p := |t| - k - 1;
      0 <= p && t[p] == '.' && ParseInt(t[..p]) == Some(Truncate(m, d))
      && AllDigits(t[p + 1..]) && DigitsValue(t[p + 1..]) == Abs(m) % d
  {
    DivMod(Abs(m), d);
    var whole := SignedWhole(m, d);
    var frac := Digits(Abs(m) % d, k);
    var t := whole + "." + frac;
    assert NumericText(m, -(k as int)) == t;
    var p := |t| - k - 1;
    assert p == |whole|;
    assert t[..p] == whole && t[p] == '.' && t[p + 1..] == frac;
    WholeReadsBack(m, d);
    DigitsValueOf(Abs(m) % d, k);
  }

  /** The integer part of the numeric text: a sign for a negative value, then the quotient. */
  function SignedWhole(m: int, d: nat): string
    requires d >= 1
  {
    DivMod(Abs(m), d);
    (if m < 0 then "-" else "") + ShowNat(Abs(m) / d)
  }

  lemma WholeReadsBack(m: int, d: nat)
    requires d >= 1
    ensures ParseInt(SignedWhole(m, d)) == Some(Truncate(m, d))
  {
    DivMod(Abs(m), d);
    var q: nat := Abs(m) / d;
    ShowNatDigits(q);
    if m < 0 {
      ParseNegative(ShowNat(q));
    } else {
      assert SignedWhole(m, d) == ShowNat(q);
      ParseUnsigned(ShowNat(q));
    }
  }
}
