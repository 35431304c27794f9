/** The log record shared by every component (internal/core/domain/log.go). */
module Domain {

  /** A value of the open `fields` mapping: whatever JSON decoding put into a
      Go `interface{}`. Numbers keep their literal text; their float64 reading
      is not modelled. The core only copies these values. */
  datatype Value =
    | Null
    | Bool(b: bool)
    | Number(literal: string)
    | Text(s: string)
    | List(items: seq<Value>)
    | Object(members: map<string, Value>)

  /** The instant the event happened; its calendar representation and time
      zone are abstract. */
  datatype Time = Time(unixNano: int)

  /** One log event. */
  datatype LogMessage = LogMessage(
    time: Time,
    level: string,
    app: string,
    service: string,
    message: string,
    fields: map<string, Value>)
}
