/** The PHP values a database field can hold once unserialised. */
module PhpValue {

  /** Scalars other than strings: `null`, booleans and integers. */
  datatype Atom = Null | Bool(b: bool) | Int(i: int)

  /** Array keys: PHP arrays are keyed by integers or strings. */
  datatype Key = IntKey(i: int) | StrKey(s: string)

  /** A PHP value: a string, another scalar, or an ordered array. */
  datatype Value = Str(s: string) | Scalar(a: Atom) | Arr(entries: seq<Entry>)

  /** One key/value slot of an array, in the array's iteration order. */
  datatype Entry = Entry(key: Key, val: Value)

  /** The keys of an array in iteration order. */
  function KeysOf(es: seq<Entry>): (ks: seq<Key>)
    ensures |ks| == |es|
    ensures forall k :: 0 <= k < |es| ==> ks[k] == es[k].key
  {
    seq(|es|, k requires 0 <= k < |es| => es[k].key)
  }
}
