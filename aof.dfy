/**
 * The records of a Redis append-only file, as the AOF codec delivers them.
 * The codec itself (RESP decoding and `ToAof` encoding) is not part of this model:
 * a reader is the sequence of results its successive reads return.
 */
module Aof {

  /** One decoded operation: command verb, optional sub-operation, optional key, arguments. */
  datatype Operation = Operation(command: string, subOp: string, key: string, arguments: seq<string>)

  /** The result of one `ReadOperation` call. */
  datatype ReadResult = Read(op: Operation) | Eof | ParseError(cause: string)
}
