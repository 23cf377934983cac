/** The optional value used by the parser callbacks: `Some` is an opinion, `None` leaves
    the decision to the header parser's defaults. */
module Wrappers {

  datatype Option<+T> = None | Some(value: T)
}
