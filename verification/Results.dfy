/** Failure values shared by the whole model.

    Every exception the library throws becomes an `Err`; the constructors of
    `Error` name the conditions rather than the C++ exception classes.
 */
module Results {

  datatype Option<+T> = None | Some(value: T)

  datatype Error =
    | NotEnoughData        // Buffer::remove / StringReader past the end
    | EndOfStream          // the peer closed the connection
    | ReadFailed           // the kernel reported a read error
    | WriteFailed          // the kernel reported a write error
    | InvalidVarint        // a length-encoded integer starting with 0xFB or 0xFF
    | NotConnected         // a command on a closed connection
    | BufferNotEmpty       // read_command into a non-empty buffer
    | OutOfSequence        // a packet with an unexpected sequence number
    | ServerError          // an ERR packet
    | LocalInfile          // a LOCAL INFILE request
    | BadColumnHeader      // column metadata without its 0x0C length byte
    | NotReadingBinlogs    // get_binlog_event outside a binlog stream
    | EndOfBinlog          // the binlog stream is over
    | BadBinlogPacket      // a binlog packet that is neither OK nor EOF
    | WrongEventType       // a binlog event of another kind
    | BadBinlogVersion     // a format description of a version other than 4
    | BadHeaderLength      // a format description with another header length
    | BadEventLengths      // a format description with unexpected event lengths
    | UnknownTable         // a rows event for a table that was never mapped
    | TableMapFree         // the reserved table id 0xFFFFFF
    | ColumnMismatch       // a rows event with another column count
    | ColumnAbsent         // a rows event that leaves out a column
    | BadColumnType        // an unimplemented or invalid column type
    | BadTypeOptions       // column metadata of the wrong size
    | BadTypeValue         // column metadata of the right size that makes no sense
    | TrailingMetadata     // column metadata left over
    | UnexpectedNull       // NULL in a column that is not nullable
    | Diverges             // the source loops forever here
    | ClientDisconnected   // a close frame
    | UnknownControl       // a control frame with an unassigned opcode
    | InvalidOpcode        // a fragment that does not fit the message
    | LogicError           // an internal check of the library failed

  datatype Result<+T> = Ok(value: T) | Err(error: Error) {

    predicate IsFailure() {
      Err?
    }

    function PropagateFailure<U>(): Result<U>
      requires Err?
    {
      Err(error)
    }

    function Extract(): T
      requires Ok?
    {
      value
    }
  }
}
