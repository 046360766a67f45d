/** JavaScript values as the EXIF decoder hands them over, and the parts of
    the language's semantics that the metadata code applies to them:
    truthiness, property reads, `||`, `String(v)`, `Number(v)` and
    `parseFloat(v)`. */
module JsValues {
  import opened Wrappers
  import opened JsStrings

  /** A loosely shaped value. `Num` is a finite number (NaN and the
      infinities are not values of this type). */
  datatype JsValue =
    | Undefined
    | Null
    | Bool(b: bool)
    | Num(n: real)
    | Str(s: string)
    | Arr(elems: seq<JsValue>)
    | Obj(props: map<string, JsValue>)

  /** JavaScript truthiness: `undefined`, `null`, `false`, `0` and `""` are
      falsy; arrays and objects are always truthy. */
  predicate Truthy(v: JsValue) {
    match v
    case Undefined => false
    case Null => false
    case Bool(b) => b
    case Num(n) => n != 0.0
    case Str(s) => s != ""
    case Arr(_) => true
    case Obj(_) => true
  }

  /** `v.key` (or `v?.key`): an object's own property; every other value,
      and a missing property, reads as `undefined`. */
  function Get(v: JsValue, key: string): (r: JsValue)
    ensures r != Undefined ==> v.Obj? && key in v.props && r == v.props[key]
  {
    if v.Obj? && key in v.props then v.props[key] else Undefined
  }

  /** `a || b`. */
  function Or(a: JsValue, b: JsValue): (r: JsValue)
    ensures Truthy(a) ==> r == a
    ensures !Truthy(a) ==> r == b
  {
    if Truthy(a) then a else b
  }

  /** `tag.description || tag`: the decoder's human-readable description
      when it has a truthy one, the tag itself otherwise. */
  function Described(tag: JsValue): (r: JsValue)
    ensures !tag.Obj? ==> r == tag
  {
    Or(Get(tag, "description"), tag)
  }

  /** `parts.join(sep)`. */
  function Join(parts: seq<string>, sep: string): string {
    if |parts| == 0 then ""
    else if |parts| == 1 then parts[0]
    else Join(parts[..|parts| - 1], sep) + sep + parts[|parts| - 1]
  }

  /** `String(v)`. An array joins its elements with ',' (null and
      undefined elements as empty text); a plain object is
      "[object Object]". */
  function ToString(v: JsValue): (r: string)
    ensures v.Str? ==> r == v.s
    ensures v.Num? ==> r == NumberToString(v.n)
  {
    match v
    case Undefined => "undefined"
    case Null => "null"
    case Bool(b) => if b then "true" else "false"
    case Num(n) => NumberToString(n)
    case Str(s) => s
    case Arr(es) =>
      Join(seq(|es|, i requires 0 <= i < |es| =>
        if es[i].Undefined? || es[i].Null? then "" else ToString(es[i])), ",")
    case Obj(_) => "[object Object]"
  }

  /** `String([a, b])` is the two texts joined by ','. */
  lemma ToStringPair(a: JsValue, b: JsValue)
    requires !a.Undefined? && !a.Null? && !b.Undefined? && !b.Null?
    ensures ToString(Arr([a, b])) == ToString(a) + "," + ToString(b)
  {
    var es := [a, b];
    var parts := seq(|es|, i requires 0 <= i < |es| =>
      if es[i].Undefined? || es[i].Null? then "" else ToString(es[i]));
    assert parts == [ToString(a), ToString(b)];
    assert parts[..1] == [ToString(a)];
    assert Join(parts, ",") == ToString(a) + "," + ToString(b);
  }

  /** `Number(v)`, the conversion that arithmetic applies to its operands;
      `None` is NaN. */
  function ToNumber(v: JsValue): (r: Option<real>)
    ensures v.Num? ==> r == Some(v.n)
    ensures v.Undefined? ==> r.None?
    ensures v.Null? ==> r == Some(0.0)
  {
    match v
    case Undefined => None
    case Null => Some(0.0)
    case Bool(b) => Some(if b then 1.0 else 0.0)
    case Num(n) => Some(n)
    case Str(s) => StringToNumber(s)
    case Arr(_) => StringToNumber(ToString(v))
    case Obj(_) => StringToNumber(ToString(v))
  }

  /** `parseFloat(v)`: `parseFloat(String(v))`. For a number the text
      `String(x)` always reads back as `x` itself, so a number maps to its
      own value. */
  function JsParseFloat(v: JsValue): (r: Option<real>)
    ensures v.Num? ==> r == Some(v.n)
    ensures v.Str? ==> r == ParseFloat(v.s)
  {
    if v.Num? then Some(v.n) else ParseFloat(ToString(v))
  }

  /** For an integer the shortcut above is what the text route gives. */
  lemma JsParseFloatInteger(n: int)
    ensures JsParseFloat(Num(n as real)) == ParseFloat(ToString(Num(n as real)))
  {
    ParseFloatNumberToString(n);
  }
}
