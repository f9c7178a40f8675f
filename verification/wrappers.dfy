/** An optional value, used for "no match" and "not decodable". */
module Wrappers {

  datatype Option<+T> = None | Some(value: T)

}
