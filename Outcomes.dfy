/**
 * Small wrappers: `Option` for a lookup that may miss, `Outcome` for a step
 * that may fail (where the modelled code throws or rejects a promise).
 */
module Outcomes {

  datatype Option<+T> = None | Some(value: T)

  datatype Outcome<+T> = Ok(value: T) | Err(message: string)
}
