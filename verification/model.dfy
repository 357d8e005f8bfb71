/** The records a bag reader hands out: topics and raw messages. */
module Model {
  import opened Errors
  import opened Bytes

  /** A topic of the bag. */
  datatype Topic = Topic(
    id: int,
    name: string,
    typeName: string,
    serializationFormat: string,
    offeredQosProfiles: Option<string>)

  /** A message as stored: its UNIX-epoch timestamp in nanoseconds, the id
      of its topic and its CDR payload. */
  datatype RawMessage = RawMessage(timestamp: int, topicId: int, data: seq<byte>)
}
