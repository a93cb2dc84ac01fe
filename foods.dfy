/** The values the dashboard works with: a food record as the server returns
    it, the outcome of a remote call, and the JSON object sent when a food is
    created. */
module Foods {

  /** A food as persisted by the server. Only `id` and `available` take part
      in the dashboard's logic; the other fields are carried along unchanged.
      The price is a JavaScript number; it is never computed on, so a real
      stands for it. */
  datatype Food = Food(
    id: int,
    name: string,
    description: string,
    price: real,
    image: string,
    available: bool)

  /** The result of a remote call once awaited: the response's data, or a
      rejected promise caught by the handler. */
  datatype Outcome<T> = Ok(value: T) | Err

  /** A JSON value as it appears in a flat request body. */
  datatype JsonValue = JBool(b: bool) | JNumber(n: real) | JString(s: string)

  /** A JSON object: property name to value. */
  type JsonObject = map<string, JsonValue>

  /** The body of the create request, `{ ...food, available: true }`. The
      literal comes after the spread, so `available` is true whatever the
      caller's object holds; every other property is the caller's. Object
      spread `{ ...a, ...b }` is the right-biased map union `a + b`. */
  function CreatePayload(input: JsonObject): (body: JsonObject)
    ensures body.Keys == input.Keys + {"available"}
    ensures body["available"] == JBool(true)
    ensures forall k :: k in input && k != "available" ==> body[k] == input[k]
  {
    input + map["available" := JBool(true)]
  }
}
