/** The queue directory of log batches that could not be delivered. */
module Spool {
  import opened Wrappers
  import opened Text

  datatype LogRecord = LogRecord(time: nat, body: Bytes)

  /** One export request: a source and its records in order. */
  datatype Request = Request(source: Bytes, records: seq<LogRecord>)

  /** The protobuf codec of a request. */
  datatype Codec = Codec(encode: Request -> Bytes, decode: Bytes -> Option<Request>)

  ghost predicate RoundTrips(codec: Codec) {
    forall r :: codec.decode(codec.encode(r)) == Some(r)
  }

  /** File names and contents of the queue directory. */
  type Dir = map<string, Bytes>

  function BatchName(uuid: string): string {
    "log-" + uuid + ".protobuf"
  }

  predicate IsBatch(name: string) { Extension(name) == Some("protobuf") }

  /** The files a replay looks at. */
  function Pending(files: Dir): set<string> {
    set n | n in files && IsBatch(n)
  }

  /** Every file `write_log_batch` can create is one that a replay looks at. */
  lemma BatchIsPending(uuid: string)
    ensures BatchName(uuid) == "log-" + uuid + ".protobuf" && IsBatch(BatchName(uuid))
  {
    assert BatchName(uuid) == ("log-" + uuid) + "." + "protobuf";
    ExtensionOf("log-" + uuid, "protobuf");
  }
}
