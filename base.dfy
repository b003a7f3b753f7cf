/** Python-level values and the failure types shared by the webhook pipeline. */
module Base {

  /** Python's `None`-or-value. */
  datatype Option<+T> = None | Some(value: T)

  /** Attribute presence, as `hasattr(obj, name)` sees it, and the attribute's value. */
  datatype Attr<+T> = Absent | Present(value: T)

  /** The exceptions the pipeline raises to its caller. */
  datatype Error =
    | NoUserProperty                        // the triggering instance has no owner
    | UnknownEvent(name: string)            // the event name is not a key of the event table
    | MalformedDescriptor(descriptor: string) // a descriptor without a dot cannot be unpacked
    | NotSerializable                       // the built-in serializer was handed `None`
    | Failed(reason: string)                // raised by code outside the pipeline: a serializer,
                                            // the deliverer, `json.dumps` or the HTTP client

  datatype Result<+T> = Ok(value: T) | Err(error: Error)

  /** How a handler that returns nothing ends: normally, or by raising. */
  datatype Outcome = Done | Raised(error: Error)

  /** The Python values that travel as payloads. A dict keeps its entries in
      insertion order and records whether it is an `OrderedDict`. */
  datatype Value =
    | PyNone
    | PyBool(b: bool)
    | PyInt(i: int)
    | PyStr(s: string)
    | PyList(items: seq<Value>)
    | PyDict(entries: seq<(string, Value)>, ordered: bool)

  /** Python truthiness: `None`, `False`, `0` and empty containers are false. */
  predicate Truthy(v: Value) {
    match v
    case PyNone => false
    case PyBool(b) => b
    case PyInt(i) => i != 0
    case PyStr(s) => s != ""
    case PyList(items) => items != []
    case PyDict(entries, _) => entries != []
  }

  /** The keys of a dict, in order. */
  function Keys(entries: seq<(string, Value)>): seq<string> {
    seq(|entries|, i requires 0 <= i < |entries| => entries[i].0)
  }

  /** `d.get(key)`: the value stored under `key`, if any. */
  function Lookup(entries: seq<(string, Value)>, key: string): Option<Value>
    decreases |entries|
  {
    if entries == [] then None
    else if entries[0].0 == key then Some(entries[0].1)
    else Lookup(entries[1..], key)
  }
}
