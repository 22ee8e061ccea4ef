/** Optional values, for decoders that may reject their input and for the
    optional arguments and request fields of the ledger. */
module Wrappers {

  datatype Option<+T> = None | Some(value: T)

}
