/** Optional values, used for the optional fields of a video record and for
    the results of the parsers that invert the formatters. */
module Wrappers {

  datatype Option<+T> = None | Some(value: T)

}
