/**
 * The settings the generator reads from its configuration and constants:
 * whether private and protected members get tests, the body of the
 * placeholder test, and the indentation unit added per nesting level.
 */
module Configuration {

  datatype Settings = Settings(
    testPrivate: bool,
    testProtected: bool,
    itContent: string,
    spacer: string)
}
