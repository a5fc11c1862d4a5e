/**
 * The JavaScript values the tree list inspects with `typeof`, and the shape
 * of one model entry. Numbers are integers here; `null` is left out.
 */
module Js {
  import opened Wrappers
  import Dom

  /** A caller-supplied function, known only by its identity. */
  datatype Callback = Callback(tag: nat)

  datatype JsVal =
    | Undefined
    | Bool(b: bool)
    | Num(n: int)
    | Str(s: string)
    | Fn(f: Callback)
    | Element(surface: Dom.Surface)  // a DOM element: an object with `appendChild`
    | Record                         // a plain object without `appendChild` or `length`
    | Arr(items: seq<Entry>)         // an array of model entries

  /** One entry of the nested model: `{id, name, children}`; a missing
    * `children` is the empty sequence. */
  datatype Entry = Entry(id: JsVal, name: JsVal, children: seq<Entry>)

  /** The JavaScript `typeof` operator. */
  function TypeOf(v: JsVal): (t: string)
    ensures t == "function" <==> v.Fn?
    ensures t == "number" <==> v.Num?
    ensures t == "string" <==> v.Str?
    ensures t == "object" <==> v.Element? || v.Record? || v.Arr?
  {
    match v
    case Undefined => "undefined"
    case Bool(_) => "boolean"
    case Num(_) => "number"
    case Str(_) => "string"
    case Fn(_) => "function"
    case Element(_) => "object"
    case Record => "object"
    case Arr(_) => "object"
  }

  /** A value kept only when `typeof` says it is a function, `undefined` otherwise;
    * both the node's `clicked` and the tree's `nodeClicked` are checked this way. */
  function CallbackOf(v: JsVal): (cb: Option<Callback>)
    ensures v.Fn? ==> cb == Some(v.f)
    ensures !v.Fn? ==> cb == None
  {
    if TypeOf(v) != "function" then None else Some(v.f)
  }

  /** The value handed on as `clicked`: the function itself, or `undefined`. */
  function FromCallback(cb: Option<Callback>): (v: JsVal)
    ensures CallbackOf(v) == cb
  {
    match cb
    case Some(f) => Fn(f)
    case None => Undefined
  }
}
