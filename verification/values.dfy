/** The loosely typed values that flow between the pipeline's stages.

    The Python code passes around tuples and lists whose shape is only
    known at run time and re-validates them with `isinstance`, `len` and
    `float(...)` at every step.  `Value` is that dynamic value, restricted
    to the kinds the pipeline actually meets (JSON data and tuples built
    by the code itself).
 */
module PyValues {

  import Text

  datatype Option<+T> = None | Some(value: T)

  /** A Python value.  `Num` covers both `int` and `float` (times are
      modelled as exact reals); `List` and `Tuple` are kept apart because
      some checks accept only `list`. */
  datatype Value =
    | Nil
    | Bool(b: bool)
    | Num(x: real)
    | Str(s: string)
    | List(items: seq<Value>)
    | Tuple(items: seq<Value>)
  {
    /** `isinstance(v, (tuple, list))` */
    predicate IsSeq() {
      List? || Tuple?
    }

    /** Values on which `len(...)` and indexing succeed. */
    predicate Sized() {
      Str? || List? || Tuple?
    }

    function Len(): (n: nat)
      requires Sized()
      ensures IsSeq() ==> n == |items|
      ensures Str? ==> n == |s|
    {
      if Str? then |s| else |items|
    }

    /** `v[k]`; indexing a string yields a one-character string. */
    function At(k: nat): (r: Value)
      requires Sized() && k < Len()
      ensures Str? ==> r == Str([s[k]])
      ensures IsSeq() ==> r == items[k]
    {
      if Str? then Str([s[k]]) else items[k]
    }
  }

  /** The parser `float(...)` applies to strings.  Which strings it accepts
      is left to the caller: the model is stated for every parser. */
  type FloatParser = string -> Option<real>

  /** `bool(v)`: Python truthiness. */
  predicate Truthy(v: Value) {
    match v
    case Nil => false
    case Bool(b) => b
    case Num(x) => x != 0.0
    case Str(s) => |s| > 0
    case List(xs) => |xs| > 0
    case Tuple(xs) => |xs| > 0
  }

  /** `float(v)`: `None` stands for the ValueError or TypeError it raises. */
  function ToFloat(v: Value, parse: FloatParser): (r: Option<real>)
    ensures v.Num? ==> r == Some(v.x)
    ensures (v.Nil? || v.IsSeq()) ==> r.None?
  {
    match v
    case Nil => None
    case Bool(b) => Some(if b then 1.0 else 0.0)
    case Num(x) => Some(x)
    case Str(s) => parse(s)
    case List(_) => None
    case Tuple(_) => None
  }

  /** A number for arithmetic such as `x - y`: ints, floats and booleans
      take part; anything else raises TypeError (`None`). */
  function AsNumber(v: Value): (r: Option<real>)
    ensures r.Some? <==> (v.Num? || v.Bool?)
  {
    match v
    case Num(x) => Some(x)
    case Bool(b) => Some(if b then 1.0 else 0.0)
    case _ => None
  }

  /** `abs(x)` on a float. */
  function Abs(x: real): (r: real)
    ensures r >= 0.0 && (r == x || r == -x)
  {
    if x < 0.0 then -x else x
  }

  /** `abs(x)` on an int. */
  function AbsInt(x: int): (r: int)
    ensures r >= 0 && (r == x || r == -x)
  {
    if x < 0 then -x else x
  }

  /** Python `==` between two values: `True == 1` and `1 == 1.0`, a list
      never equals a tuple, containers compare element-wise. */
  predicate PyEq(a: Value, b: Value)
    decreases a
  {
    match a
    case Nil => b.Nil?
    case Bool(p) => (b.Bool? && b.b == p) || (b.Num? && b.x == (if p then 1.0 else 0.0))
    case Num(x) => (b.Num? && b.x == x) || (b.Bool? && x == (if b.b then 1.0 else 0.0))
    case Str(s) => b.Str? && b.s == s
    case List(xs) => b.List? && |xs| == |b.items| && forall k :: 0 <= k < |xs| ==> PyEq(xs[k], b.items[k])
    case Tuple(xs) => b.Tuple? && |xs| == |b.items| && forall k :: 0 <= k < |xs| ==> PyEq(xs[k], b.items[k])
  }

  /** `str(v)` before stripping.  Strings are exact; for other kinds only
      the fact that Python's text is non-empty and has no surrounding
      whitespace matters to the pipeline, and a fixed rendering stands for it. */
  function Display(v: Value): (r: string)
    ensures v.Str? ==> r == v.s
    ensures !v.Str? ==> |r| > 0 && !Text.IsSpace(r[0]) && !Text.IsSpace(r[|r| - 1])
  {
    match v
    case Nil => "None"
    case Bool(b) => if b then "True" else "False"
    case Num(_) => "<number>"
    case Str(s) => s
    case List(_) => "[...]"
    case Tuple(_) => "(...)"
  }

  /** `((start, end), content)`: the shape both normalisers produce, with
      the times already passed through `float`. */
  datatype Timed = Timed(start: real, end: real, content: Value)

  /** A pair of numbers built by the code itself, e.g. `(-1, -1)`. */
  function TimePair(start: real, end: real): (r: Value)
    ensures r.Tuple? && |r.items| == 2
  {
    Tuple([Num(start), Num(end)])
  }
}
