/**
 * The values the FASTQ reader hands to the analysis: decoded records,
 * per-record decode failures, and the failure to open the source at all.
 * Parsing itself belongs to the reader and is not modelled.
 */
module Fastq {
  import opened Wrappers

  /** One byte of a sequence or quality line. */
  newtype byte = x: int | 0 <= x < 256

  /** A decoded read: its identifier, its bases and its Phred+33 quality bytes.
      Nothing ties the two lengths together: the analysis does not rely on it. */
  datatype Record = Record(id: string, sequence: seq<byte>, quality: seq<byte>)

  /** The reader's error value, carried but never inspected. */
  datatype ReaderError = ReaderError(message: string)

  /** One item of the reader's record stream. */
  type Item = Result<Record, ReaderError>

  /** The reader as the analysis sees it: either it could not be opened, or it
      yields its items once, front to back. */
  type Source = Result<seq<Item>, ReaderError>
}
