/** The optional value used for the scraper's error paths and lookups. */
module Wrappers {

  datatype Option<+T> = None | Some(value: T)

}
