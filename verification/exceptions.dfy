/** The exceptions the core throws, each with the parameter name it reports. */
module Exceptions {

  datatype Exception =
    | ArgumentNull(paramName: string)
      /** `ArgumentException` wrapping the failure that caused it, kept as its message. */
    | Argument(paramName: string, inner: string)
}
