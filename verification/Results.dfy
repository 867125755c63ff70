// Optional values, and the outcomes the command handlers report.
module Results {

  datatype Option<+T> = None | Some(value: T)

  datatype Status =
    | UnknownEntry
    | UnknownCommand
    | MalformedPolicy
    | ExeHashMismatch
    | UnlockFailed
    | ConfigError
    | Internal

  datatype Result<+T> = Ok(value: T) | Err(status: Status)
}
