/**
 * The values on both sides of the conversion: a JavaScript value as the
 * converter receives it, and the Sass value it builds with the node-sass
 * constructors.
 */
module Values {
  import opened Wrappers
  import opened JsNumber

  /**
   * A JavaScript value that forms a finite tree. An object is the list of its
   * own enumerable properties in the order `Object.keys` gives them.
   */
  datatype JsValue =
    | Null
    | Undefined
    | Num(n: Dec)
    | Str(s: string)
    | Bool(b: bool)
    | Arr(elems: seq<JsValue>)
    | Obj(props: seq<(string, JsValue)>)

  /**
   * A Sass value, as the arguments given to the node-sass constructor that
   * built it. A colour is built either from channels (`Color(r, g, b, a)`),
   * where `None` stands for a channel that is `NaN` or missing, or from one
   * packed 0xAARRGGBB word (`Color(argb)`), read as an unsigned 32-bit number.
   */
  datatype SassValue =
    | SassNull
    | SassBoolean(truth: bool)
    | SassNumber(value: Dec, unit: string)
    | SassColor(red: Option<int>, green: Option<int>, blue: Option<int>, alpha: int)
    | SassColorArgb(argb: nat)
    | SassString(text: string)
    | SassList(items: seq<SassValue>)
    | SassMap(entries: seq<(SassValue, SassValue)>)

  predicate IsColor(v: SassValue) {
    v.SassColor? || v.SassColorArgb?
  }

  /**
   * `list.getValue(i)` on a Sass list: the item at `i`, or `None` where
   * node-sass raises a `RangeError` for an index outside the list.
   */
  function GetValue(list: SassValue, i: int): (r: Option<SassValue>)
    requires list.SassList?
    ensures r.Some? <==> 0 <= i < |list.items|
    ensures r.Some? ==> r.value == list.items[i]
  {
    if 0 <= i < |list.items| then Some(list.items[i]) else None
  }
}
