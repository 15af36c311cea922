/** The .NET notions every extension method works with: a reference that may be
    null, the ArgumentNullException that names the offending parameter, and the
    runtime shape of an IEnumerable<T> (a materialised ICollection<T>, or any
    other enumerable such as an iterator block or a LINQ query). */
module Runtime {

  /** An argument of reference type: `null` or a present value. */
  datatype Arg<+T> = Null | NonNull(value: T)

  /** The outcome of a call: a value, or an ArgumentNullException whose
      ParamName is `paramName`. */
  datatype Result<+T> = Ok(value: T) | ArgumentNull(paramName: string)

  /** A finite IEnumerable<T>. `Collection` is a source whose runtime type
      implements ICollection<T> (an array, a List<T>), so its Count is known
      without enumerating; `Deferred` is any other enumerable, which yields
      `items` in order when enumerated. */
  datatype Enumerable<+T> = Collection(items: seq<T>) | Deferred(items: seq<T>)
}
