/** The optional-value wrapper used wherever the script works with Python's
    `None`: an unset environment variable, a missing key, an absent file. */
module Wrappers {

  datatype Option<+T> = None | Some(value: T)
}
