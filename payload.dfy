/** Request data as PHP sees it: a string, or an ordered array of keyed values nested
    to any depth. */
module Payload {
  import opened Wrappers
  import opened Php

  /** A PHP array key: an integer index or a string name. */
  datatype Key = Index(n: int) | Name(s: string)

  /** A request value: a string leaf or an ordered array of (key, value) entries. */
  datatype Value = Str(s: string) | Arr(entries: seq<(Key, Value)>)

  /** The merged request ($_REQUEST): field name to value. */
  type Request = map<string, Value>

  /** PHP's empty() on a value: "" and "0" for strings, no entries for arrays. */
  predicate EmptyValue(v: Value)
  {
    match v
    case Str(s) => EmptyString(s)
    case Arr(es) => es == []
  }

  /** $request[$name], None when the field is not set. */
  function Lookup(request: Request, name: string): Option<Value>
  {
    if name in request then Some(request[name]) else None
  }

  /** FormB::isSetNotEmpty: the variable is set and not empty. */
  predicate IsSetNotEmpty(v: Option<Value>)
  {
    v.Some? && !EmptyValue(v.value)
  }
}
