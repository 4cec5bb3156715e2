/** JSON values as Python's `json` module hands them to the script, and the
    four Python operations the script applies to them: `dict.get` with a
    default, truthiness, the comparison `>= n` and `str()`. */
module Json {
  import Text

  /** A parsed JSON document: null, true/false, an integer, a string, an array
      or an object. */
  datatype Value =
    | Null
    | Bool(b: bool)
    | Int(i: int)
    | Str(s: string)
    | Arr(items: seq<Value>)
    | Obj(fields: map<string, Value>)

  /** The Python exceptions the script's expressions can raise and that no
      `except` clause of the script catches. */
  datatype PyError =
    | AttributeError  // `.get` called on something that is not a dict
    | TypeError       // `>=` between an int and a non-number

  /** What evaluating a Python expression gives: a value, or an exception
      that propagates. */
  datatype Outcome<+T> = Returned(value: T) | Raised(error: PyError)

  /** Python's `d.get(key, default)` on a dict. */
  function Get(fields: map<string, Value>, key: string, default: Value): Value {
    if key in fields then fields[key] else default
  }

  /** Python's `bool(v)`: false exactly for None, False, 0, "" and empty
      containers. */
  predicate Truthy(v: Value) {
    match v
    case Null => false
    case Bool(b) => b
    case Int(i) => i != 0
    case Str(s) => s != []
    case Arr(items) => items != []
    case Obj(fields) => fields != map[]
  }

  /** Python's `v >= bound` with an int on the right: `bool` compares as 0 or
      1, every other non-number raises TypeError. */
  function AtLeast(v: Value, bound: int): Outcome<bool> {
    match v
    case Int(i) => Returned(i >= bound)
    case Bool(b) => Returned((if b then 1 else 0) >= bound)
    case _ => Raised(TypeError)
  }

  /** Python's `str(v)` inside an f-string, for the scalar values a price can
      be; a list or dict is shown as a placeholder. */
  function Display(v: Value): string {
    match v
    case Null => "None"
    case Bool(b) => if b then "True" else "False"
    case Int(i) => if i < 0 then "-" + Text.Decimal(-i) else Text.Decimal(i)
    case Str(s) => s
    case Arr(_) => "[...]"
    case Obj(_) => "{...}"
  }

  /** `str(i)` for an int: a minus sign exactly when `i` is negative,
      followed by the decimal digits of its magnitude, with no leading
      zero. */
  lemma DisplayIntSpec(i: int)
    ensures var s := Display(Int(i));
            && s != []
            && (s[0] == '-' <==> i < 0)
            && (i >= 0 ==> (forall k :: 0 <= k < |s| ==> Text.IsDigit(s[k])) && Text.DigitsValue(s) == i)
            && (i >= 0 ==> (s[0] == '0' ==> i == 0 && |s| == 1))
            && (i < 0 ==> (forall k :: 1 <= k < |s| ==> Text.IsDigit(s[k])) && Text.DigitsValue(s[1..]) == -i)
            && (i < 0 ==> |s| >= 2 && s[1] != '0')
  {
    var s := Display(Int(i));
    if i < 0 {
      Text.DecimalSpec(-i);
      assert s[1..] == Text.Decimal(-i);
    } else {
      Text.DecimalSpec(i);
    }
  }
}
