/** The exceptions the services throw, as values. A Java exception has a class, an optional
    message and an optional cause; the model keeps all three so that the wrapping done by the
    services' catch blocks is visible. */
module Exceptions {
  import opened Wrappers

  datatype Kind =
    | BaseRuntime           // com.hubbox.demo.exceptions.BaseRuntimeException
    | CommandExecution      // CommandExecutionException
    | DeviceNotFound        // DeviceNotFoundException
    | RecordNotFound        // RecordNotFoundException
    | Configuration         // ConfigurationException
    | Runtime               // a plain java.lang.RuntimeException
    | JsonProcessing        // Jackson's JsonProcessingException
    | ClassCast             // a JSON template that is not an object
    | NullPointer           // a null dereferenced
    | IndexOutOfBounds      // a list or array indexed out of range
    | NumberFormat          // Integer.parseInt / Long.parseLong refused the text

  datatype Exception = Exception(kind: Kind, message: Option<string>, cause: Option<Exception>)

  /** `new K(message)` */
  function Raise(kind: Kind, message: string): Exception
  {
    Exception(kind, Some(message), None)
  }

  /** `new K(message, cause)`: the form every service catch block uses to rethrow. */
  function Wrap(kind: Kind, message: string, cause: Exception): Exception
  {
    Exception(kind, Some(message), Some(cause))
  }

  /** `new K(cause)`: Java takes the cause's text as the message; the model keeps the cause. */
  function Rethrow(kind: Kind, cause: Exception): Exception
  {
    Exception(kind, None, Some(cause))
  }
}
