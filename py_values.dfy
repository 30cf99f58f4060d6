/**
 * The values a metadata dictionary holds once JSON is loaded or frontmatter is parsed, with
 * Python's truthiness and Python's `str()` of each.
 */
module PyValues {
  import opened Wrappers
  import opened PyStrings

  /** A JSON value as Python holds it; objects keep their key order, as Python dicts do. */
  datatype Value =
    | Null
    | Bool(b: bool)
    | Int(i: int)
    | Str(s: string)
    | List(items: seq<Value>)
    | Obj(fields: seq<(string, Value)>)

  /** A metadata dictionary. */
  type Metadata = map<string, Value>

  /** What reading a file yields: its text, which may or may not parse as JSON, or a read error. */
  datatype Body = Unreadable | Readable(text: string, json: Option<Value>)

  /** Python's `bool(v)`. */
  predicate Truthy(v: Value) {
    match v
    case Null => false
    case Bool(b) => b
    case Int(i) => i != 0
    case Str(s) => s != ""
    case List(xs) => xs != []
    case Obj(fs) => fs != []
  }

  /** `key in m and m[key]`: the field is there and truthy. */
  predicate Present(m: Metadata, key: string) {
    key in m && Truthy(m[key])
  }

  function DigitChar(d: nat): char
    requires d < 10
  {
    ('0' as int + d) as char
  }

  /** `str(n)` for a natural number: its decimal digits. */
  function NatToDecimal(n: nat): (r: string)
    ensures IsDigits(r)
  {
    if n < 10 then [DigitChar(n)] else NatToDecimal(n / 10) + [DigitChar(n % 10)]
  }

  /** `str(i)` for an integer. */
  function IntToDecimal(i: int): (r: string)
    ensures |r| > 0
    ensures i >= 0 ==> IsDigits(r)
    ensures i < 0 ==> r[0] == '-' && IsDigits(r[1..])
  {
    if i < 0 then "-" + NatToDecimal(-i) else NatToDecimal(i)
  }

  /**
   * `repr(v)`. Strings are shown between single quotes; Python's choice of double quotes for
   * strings holding a single quote, and its escapes, are not modelled.
   */
  function Repr(v: Value): (r: string)
    ensures |r| > 0
    ensures !v.Int? ==> !IsAsciiDigit(r[0]) && r[0] != '-'
    decreases v
  {
    match v
    case Null => "None"
    case Bool(b) => if b then "True" else "False"
    case Int(i) => IntToDecimal(i)
    case Str(s) => "'" + s + "'"
    case List(xs) =>
      "[" + Join(seq(|xs|, k requires 0 <= k < |xs| => Repr(xs[k])), ", ") + "]"
    case Obj(fs) =>
      "{" + Join(seq(|fs|, k requires 0 <= k < |fs| => "'" + fs[k].0 + "': " + Repr(fs[k].1)), ", ") + "}"
  }

  /** `str(v)`: the string itself for a string, its `repr` otherwise. */
  function Text(v: Value): (r: string)
    ensures v.Str? ==> r == v.s
    ensures !v.Str? && !v.Int? ==> |r| > 0 && !IsAsciiDigit(r[0])
  {
    match v
    case Str(s) => s
    case _ => Repr(v)
  }

  /** The dictionary `dict(fields)` builds: a later duplicate key overwrites an earlier one. */
  function ObjToMap(fs: seq<(string, Value)>): (m: Metadata)
    ensures forall k :: k in m <==> exists i :: 0 <= i < |fs| && fs[i].0 == k
  {
    if fs == [] then map[]
    else ObjToMap(fs[..|fs| - 1])[fs[|fs| - 1].0 := fs[|fs| - 1].1]
  }

  /** `obj.get(key)`: `None` when the key is missing. */
  function Get(fs: seq<(string, Value)>, key: string): Value {
    var m := ObjToMap(fs);
    if key in m then m[key] else Null
  }

  /** `len(v)` where Python defines it; `None` where `len` raises TypeError. */
  function Len(v: Value): Option<nat> {
    match v
    case Str(s) => Some(|s|)
    case List(xs) => Some(|xs|)
    case Obj(fs) => Some(|ObjToMap(fs)|)
    case _ => None
  }
}
