/** Document values, records and the errors the table resource raises. */
module Values {
  import opened PhpStrings

  /** A JSON-like document value. */
  datatype Value =
    | Null
    | Bool(b: bool)
    | Int(i: int)
    | Str(s: string)
    | Object(fields: map<string, Value>)

  /** A record or document: field name to value (PHP key order is not kept). */
  type Record = map<string, Value>

  /** Table::ID_FIELD */
  const IdField: string := "_id"

  datatype Error =
    | BadRequest(message: string)
    | DocumentExists(id: string)
    | DocumentNotFound(id: string)

  datatype Result<+T> = Ok(value: T) | Err(error: Error)

  /** array_get($record, $key): the value under key when the key exists;
      otherwise key is read as a dot path (explode('.', $key)) and walked
      down from the record, null when a step is missing. */
  function Lookup(r: Record, key: string): (v: Value)
    ensures key in r ==> v == r[key]
    ensures key !in r && (forall k :: 0 <= k < |key| ==> key[k] != '.') ==> v == Null
  {
    if key in r then r[key]
    else
      UndottedMiss(r, key);
      Walk(Object(r), Explode(".", key))
  }

  /** A missing key without a dot is a one-segment path that finds nothing. */
  lemma UndottedMiss(r: Record, key: string)
    requires key !in r
    ensures (forall k :: 0 <= k < |key| ==> key[k] != '.') ==> Walk(Object(r), Explode(".", key)) == Null
  {
    if forall k :: 0 <= k < |key| ==> key[k] != '.' {
      ExplodeNone(".", key);
    }
  }

  /** The value a path of segments reaches from v, descending into an
      object's field at each step; null once a segment is missing or the
      value on the way is not an object. */
  function Walk(v: Value, path: seq<string>): (w: Value)
    ensures path == [] ==> w == v
    ensures path != [] && !v.Object? ==> w == Null
  {
    if path == [] then v
    else match v
      case Object(fields) => if path[0] in fields then Walk(fields[path[0]], path[1..]) else Null
      case _ => Null
  }

  /** A dotted key missing from the record descends into the field named by
      its first segment and walks the rest of the path from there. */
  lemma LookupPath(r: Record, head: string, rest: string)
    requires forall k :: 0 <= k < |head| ==> head[k] != '.'
    requires head + "." + rest !in r
    ensures Lookup(r, head + "." + rest) ==
            if head in r then Walk(r[head], Explode(".", rest)) else Null
  {
    ExplodeFirst(".", head, rest);
  }

  /** The two-level record {"a": {"b": 1}} answers "a.b" with 1 and "a.c" with null. */
  lemma LookupPathExample()
    ensures Lookup(map["a" := Object(map["b" := Int(1)])], "a.b") == Int(1)
    ensures Lookup(map["a" := Object(map["b" := Int(1)])], "a.c") == Null
  {
    var r := map["a" := Object(map["b" := Int(1)])];
    assert "a.b" == "a" + "." + "b" && "a.c" == "a" + "." + "c";
    assert "a.b" !in r && "a.c" !in r;
    LookupPath(r, "a", "b");
    LookupPath(r, "a", "c");
    ExplodeNone(".", "b");
    ExplodeNone(".", "c");
  }

  /** PHP's empty() on a value. */
  predicate IsEmptyValue(v: Value) {
    match v
    case Null => true
    case Bool(b) => !b
    case Int(i) => i == 0
    case Str(s) => s == "" || s == "0"
    case Object(fields) => fields == map[]
  }

  /** PHP's empty() on a string. */
  predicate IsEmptyText(s: string) {
    s == "" || s == "0"
  }

  /** (array)$v: an object becomes its fields, null the empty array and any
      other scalar a one-element list under key 0. */
  function CastToRecord(v: Value): (r: Record)
    ensures v.Object? ==> r == v.fields
    ensures v.Null? ==> r == map[]
    ensures !v.Object? && !v.Null? ==> r == map["0" := v]
  {
    match v
    case Object(fields) => fields
    case Null => map[]
    case _ => map["0" := v]
  }
}
