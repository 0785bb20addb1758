/** JSON documents as values. Jackson's `JsonNode` trees and minidev's `JSONObject` both become a
    `Json`; an object is a finite map from key to member. Parsing and printing are calls into
    those libraries, so the services receive them as function values. */
module JsonTree {
  import opened Wrappers

  /** `JNum` is an integral number node as a parsed document holds it; `JDouble` is the double
      node `ObjectNode.put(key, double)` stores, known by the decimal text of the number it was
      given (the rounding to the nearest double is not modelled). */
  datatype Json =
    | JNull
    | JBool(b: bool)
    | JNum(n: int)
    | JDouble(value: string)
    | JStr(s: string)
    | JArr(items: seq<Json>)
    | JObj(fields: map<string, Json>)

  /** The two calls of a Jackson `ObjectMapper` the command templates need. */
  datatype ObjectMapper = ObjectMapper(readTree: string -> Option<Json>, writeValueAsString: Json -> string)
}
