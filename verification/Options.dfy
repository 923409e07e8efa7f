/** The optional value shared by the models. */
module Options {

  datatype Option<+T> = None | Some(value: T)

  /** The value, or `default` when there is none. */
  function GetOr<T>(o: Option<T>, default: T): T {
    match o
    case None => default
    case Some(v) => v
  }
}
