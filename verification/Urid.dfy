/** The two URID features of a host: strings to numbers and back. */
module Urid {
  import opened Bytes

  /** map and unmap; unmap knows no string for some numbers. */
  datatype Host = Host(map_: seq<byte> -> word, unmap: word -> Option<seq<byte>>)

  /** A string that C sees whole. */
  predicate IsText(s: seq<byte>) {
    forall i :: 0 <= i < |s| ==> s[i] != 0
  }
}
