/**
 JSON values.  An object is a sequence of entries: the order of its keys is visible until it is sorted.
 Whole numbers are kept as integers; other numbers as the text they are printed with.
 */
module Json {
  import opened Wrappers

  predicate IsNumberChar(c: char) {
    '0' <= c <= '9' || c in {'-', '+', '.', 'e', 'E'}
  }

  /** A finite number that is not whole is printed with a decimal point or an exponent. */
  predicate IsFloatText(text: string) {
    (forall i :: 0 <= i < |text| ==> IsNumberChar(text[i])) && exists i :: 0 <= i < |text| && text[i] in {'.', 'e', 'E'}
  }

  lemma HalfIsFloatText()
    ensures IsFloatText("0.5")
  {
    assert "0.5"[1] == '.';
  }

  type FloatText = text: string | IsFloatText(text) ghost witness (HalfIsFloatText(); "0.5")

  datatype Number = Whole(value: int) | Float(text: FloatText)

  datatype Json =
    | Null
    | Bool(b: bool)
    | Number(n: Number)
    | String(s: string)
    | Array(items: seq<Json>)
    | Object(entries: seq<Entry>)

  datatype Entry = Entry(key: string, value: Json)

  function Keys(entries: seq<Entry>): (keys: seq<string>)
    ensures |keys| == |entries|
    ensures forall i :: 0 <= i < |keys| ==> keys[i] == entries[i].key
  {
    seq(|entries|, i requires 0 <= i < |entries| => entries[i].key)
  }

  /** The value reached from `v` by choosing the child with the given position at each level. */
  function At(v: Json, path: seq<nat>): Option<Json>
    decreases path
  {
    if path == [] then Some(v)
    else match v
      case Array(items) => if path[0] < |items| then At(items[path[0]], path[1..]) else None
      case Object(entries) => if path[0] < |entries| then At(entries[path[0]].value, path[1..]) else None
      case _ => None
  }
}
