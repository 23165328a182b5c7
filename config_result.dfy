/** Java nulls, thrown configuration errors and the outcome of a `void` operation that may throw. */
module ConfigResult {

  /** A Java reference that may be `null` (`None`). */
  datatype Option<+T> = None | Some(value: T)

  /** The kind of `ConfigException` an operation throws; the localised message text is not modelled. */
  datatype ErrorKind =
    | DnNull                               // a null DN or null value string
    | DnCannotParse                        // a string that is not a valid DN
    | IsRequired                           // a required attribute would have no value
    | SingleValued                         // more than one value for a single-valued attribute
    | AlreadyExists                        // two values with the same string form
    | NoValue                              // a singular accessor found no value
    | MultipleValues                       // a singular accessor found several values
    | MultiplePendingValueSets             // two LDAP attributes carry the pending option
    | MultipleActiveValueSets              // two LDAP attributes carry no option
    | OptionsNotAllowed                    // an LDAP attribute option other than pending
    | NoActiveValueSet                     // no LDAP attribute without options
    | InvalidArrayType(componentType: string) // a JMX array of neither DNs nor strings
    | InvalidType(className: string)       // a JMX value of an unsupported class
    | NullDereference                      // not a ConfigException: a NullPointerException

  /** A value, or the exception thrown instead of returning it. */
  datatype Result<+T> = Ok(value: T) | Err(error: ErrorKind)

  /** The outcome of a method returning `void` that may throw a `ConfigException`. */
  datatype Status = Success | Failure(error: ErrorKind)
}
