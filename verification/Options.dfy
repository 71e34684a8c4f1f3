module Options {
  datatype Option<+T> = None | Some(value: T)

  datatype Result<+T, +E> = Good(value: T) | Bad(error: E)

  /** `Boolean(x)`: the empty string counts as absent. */
  predicate Given(x: Option<string>) { x.Some? && x.value != "" }

  /** `x || y` */
  function OrElse(x: Option<string>, y: Option<string>): Option<string> {
    if Given(x) then x else y
  }

  /** `x || text` */
  function TextOr(x: Option<string>, text: string): string {
    if Given(x) then x.value else text
  }
}
