/**
 * The data record the form engine binds components to: a nested keyed
 * structure of JavaScript values, and the few JavaScript notions the engine
 * relies on (truthiness, the normalisation of empty writes, reading a key).
 */
module Values {

  datatype Option<T> = None | Some(value: T)

  /** The outcome of a statement that JavaScript may abort with a TypeError. */
  datatype Result<T> = Success(value: T) | TypeError

  /**
   * A JavaScript value as it can occur in the data record or in a
   * component's `value`. Numbers are modelled as integers; an object is a
   * map from its own keys to their values (arrays are objects keyed by
   * index strings).
   */
  datatype Val =
    | Undef
    | Null
    | Bool(b: bool)
    | Num(n: int)
    | Str(s: string)
    | Obj(fields: map<string, Val>)

  const EmptyObj: Val := Obj(map[])

  /** JavaScript truthiness: what `if (v)` and `!v` test. */
  predicate Truthy(v: Val)
  {
    match v
    case Undef => false
    case Null => false
    case Bool(b) => b
    case Num(n) => n != 0
    case Str(s) => s != ""
    case Obj(_) => true
  }

  /**
   * The normalisation `setValue` applies before writing: `undefined` and
   * the empty string are stored as `null`, every other value as itself.
   */
  function Normalise(v: Val): (r: Val)
    ensures r != Undef && r != Str("")
    ensures (v == Undef || v == Str("")) <==> r == Null && v != Null
    ensures v != Undef && v != Str("") ==> r == v
  {
    if v == Undef || v == Str("") then Null else v
  }

  /** `item[key]`: the value of an own key of an object, `undefined` otherwise. */
  function Child(item: Val, key: string): Val
  {
    if item.Obj? && key in item.fields then item.fields[key] else Undef
  }

  /**
   * Reading the record along a list of keys, yielding `undefined` as soon as
   * a key is missing or a value on the way is not an object (the
   * "get" half of the path accessor; it never fails).
   */
  function Lookup(d: Val, path: seq<string>): Val
    decreases |path|
  {
    if path == [] then d else Lookup(Child(d, path[0]), path[1..])
  }

  lemma {:induction false} LookupUndef(path: seq<string>)
    ensures Lookup(Undef, path) == Undef
    decreases |path|
  {
    if path != [] {
      LookupUndef(path[1..]);
    }
  }

  /** Below a value that is not an object, every non-empty path reads `undefined`. */
  lemma LookupBelowScalar(d: Val, path: seq<string>)
    requires !d.Obj? && path != []
    ensures Lookup(d, path) == Undef
  {
    LookupUndef(path[1..]);
  }
}
