/** The syntax tree that the grammar of src/lisp_comb.rs produces
    (the `LispObject` enum of src/lib.rs). */
module Lib {

  /** A parenthesised list of objects, a string literal's text, or a bare identifier. */
  datatype LispObject =
    | List(items: seq<LispObject>)
    | String(text: string)
    | Ident(name: string)
}
