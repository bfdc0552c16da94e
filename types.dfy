/**
 * Types shared by the modules `Manager` and `Context` (src/types.ts): the keys a
 * context map accepts and an optional value for "absent" results.
 */
module Types {
  /** A context key: a string, or a symbol. Symbols are process-unique
      tokens; token 0 is reserved for the manager's private merge symbol. */
  datatype Key = Str(name: string) | Sym(token: nat)

  /** `undefined` as a result of a lookup is `None`. */
  datatype Option<T> = None | Some(value: T)
}
