/**
 The values an argparse namespace holds in pybugz, and the small wrapper
 types the rest of the model uses. A namespace is modelled as a finite map
 from attribute name to value; Python's `None` is `Absent`.
 */
module Values {

  /** The conventional Some/None datatype. */
  datatype Option<+T> = None | Some(value: T)

  /** A value, or the error that prevented computing it. */
  datatype Result<+T, +E> = Ok(value: T) | Err(error: E)

  /**
   The handler bound to a sub-command with `set_defaults(func = ...)`.
   The handlers themselves (methods of PrettyBugz) are not part of this
   model; only their identity is.
   */
  datatype Handler =
    | AttachHandler
    | AttachmentHandler
    | GetHandler
    | ModifyHandler
    | NamedcmdHandler
    | PostHandler
    | SearchHandler

  /** An attribute value of the parsed namespace. */
  datatype Value =
    | Absent                   // Python None
    | Str(s: string)
    | Int(n: int)
    | Bool(b: bool)
    | List(items: seq<Value>)  // what an `append` action or a `nargs='*'` positional builds
    | Func(handler: Handler)   // the `func` attribute

  /** The parsed namespace: attribute name to value. */
  type Namespace = map<string, Value>

  /** The elements an `append` action extends: a list's items, or nothing for None. */
  function Items(v: Value): seq<Value>
  {
    match v
    case List(xs) => xs
    case _ => []
  }
}
