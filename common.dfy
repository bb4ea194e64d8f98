/** Values shared by the segment and the log: payload bytes, records,
    the log's configuration and its error kinds. */
module Common {

  newtype byte = x: int | 0 <= x < 256

  /** The bytes of one record as the store keeps them. */
  type Payload = seq<byte>

  /** A record read back from the log: its payload and the offset the log assigned. */
  datatype Record = Record(value: Payload, offset: nat)

  /** Config.Segment: the two rotation thresholds and the first offset of a new log. */
  datatype Config = Config(maxStoreBytes: nat, maxIndexBytes: nat, initialOffset: nat)

  datatype NumErrorKind = ErrSyntax | ErrRange

  datatype Error =
    | OffsetOutOfRange(offset: nat)            // api.ErrOffsetOutOfRange{Offset}
    | EOF                                      // io.EOF: the index has no room for another entry
    | NumError(num: string, kind: NumErrorKind) // a strconv.ParseUint failure on num
    | SegmentIOError(base: nat)                // a file operation on the segment at base failed
    | DirIOError                               // an operation on the log directory itself failed

  datatype Option<T> = None | Some(value: T)

  datatype Result<T> = Ok(value: T) | Err(error: Error)
}
