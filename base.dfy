/** Values shared by every part of the model: error kinds and the
    success/failure wrappers the Go code expresses as `(T, error)` pairs. */
module Base {

  datatype Option<+T> = None | Some(value: T)

  /** The errors the modelled code can return. */
  datatype Error =
    | InfoNotFound(pkg: string)   // no metadata record matches the name
    | NothingToRemove             // Remove on an untracked package
    | DependencyLevelNotSet       // the level string is not one of the four names
    | InvalidRestartService       // --restart-service other than "always"/"changed"
    | InvalidTapFormat            // a tap name without the user/repo shape

  datatype Result<+T> = Ok(value: T) | Err(error: Error)
}
