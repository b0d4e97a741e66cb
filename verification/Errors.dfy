/** What a call hands back: a value, or one of the exceptions the library declares. */
module Errors {

  datatype Error =
    | InvalidKey
    | NoEntry
    | EntryExists
    | NoChildrenForEphemeral
    | TxnFailed(index: nat)
    | ServiceError

  datatype Result<+T> = Ok(value: T) | Err(error: Error)

  datatype Option<+T> = None | Some(value: T)
}
