/** Values of the D-Bus type system, as a message iterator presents them:
    every container lists its children in the order the iterator visits
    them. A dictionary `a{kv}` is an `Array` of `DictEntry` values; a
    well-formed dict entry has exactly two fields (key, value), but the tree
    admits any number so that a reply that breaks its signature can be
    described too. */
module DBus {

  datatype Value =
    | Array(items: seq<Value>)
    | DictEntry(fields: seq<Value>)
    | Struct(members: seq<Value>)
    | Variant(inner: Value)
    | ObjectPath(path: string)
    | Str(text: string)
    | Bool(truth: bool)
    | Int(n: int)
}
