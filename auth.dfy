/** The authentication crate's types: credentials, identities and the
    validator that turns one into the other. */
module Auth {
  import opened Wrappers

  datatype Credentials = Credentials(username: string, password: string)

  /** `Identity(String)`. */
  datatype Identity = Identity(name: string)

  datatype ValidationError = InvalidCredentials | Unknown

  /** A `Validator`: the deployment decides which credentials are accepted. */
  type Validator = Credentials -> Result<Identity, ValidationError>
}
