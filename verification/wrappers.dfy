/** The optional-value datatype used wherever the bot's code may find nothing:
    a dictionary lookup on a missing key, or a wait that ends without a
    qualifying reaction. */
module Wrappers {

  datatype Option<+T> = None | Some(value: T)

}
