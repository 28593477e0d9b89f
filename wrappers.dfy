/** Option, standing for the C# nullable references and for TryDequeue's (bool, out value) pair. */
module Wrappers {

  datatype Option<+T> = None | Some(value: T)

}
