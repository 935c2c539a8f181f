/** JSON trees as the Kubernetes `unstructured` machinery holds them, and the
    error-carrying result used by every operation that can fail. */
module JsonTrees {

  /** `int64` and `float64` are distinct dynamic types in the program, hence two numeric cases. */
  datatype Json =
    | Null
    | Bool(b: bool)
    | Int(i: int)
    | Float(f: real)
    | Str(s: string)
    | List(items: seq<Json>)
    | Obj(fields: map<string, Json>)

  datatype Option<+T> = None | Some(value: T)

  datatype Error =
    | EvaluationError
    | TooFewViews
    | InvalidObject
    | UnknownStage
    | NotFound
    | NotInCache
    | EmptyKey
    | UnknownTarget
    | UnknownRegistration
    | MissingJoin

  datatype Result<+T> = Ok(value: T) | Err(error: Error)
}
