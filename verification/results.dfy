/** Failure-carrying return values: the Python exceptions the script can
    raise are modelled as `Failure` values instead of being ruled out. */
module Results {

  datatype Option<+T> = None | Some(value: T)

  datatype Result<+R, +E> = Success(value: R) | Failure(error: E)
}
