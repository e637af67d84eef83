/**
  The default error messages of ActiveModel's validators, shared by every
  record that relies on them.
 */
module ValidationMessages {

  /** What the presence validator adds (the `:blank` message). */
  const CantBeBlank: string := "can't be blank"

  /** What the format validator adds (the `:invalid` message). */
  const IsInvalid: string := "is invalid"
}
