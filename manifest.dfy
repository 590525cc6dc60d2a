/** The delta manifest exchanged between the backend's manifest builder and the
    frontend's playback engine: a base text and one delta per later revision. */
module Manifest {
  import opened Wrappers

  /** Diff opcodes as the diff library encodes them. */
  const EQUAL: int := 0
  const INSERT: int := 1
  const DELETE: int := -1

  /** One `[op, text]` pair of a diff. Any integer may appear as the opcode;
      the flattener ignores those it does not recognise. */
  datatype Op = Op(code: int, text: string)

  /** A revision after the first: its id, its recorded time (an integer number
      of milliseconds), its author and the diff from the previous revision. */
  datatype Delta = Delta(revId: string, timestamp: int, author: string, ops: seq<Op>)

  /** `baseText` may be absent in a manifest received from elsewhere; the
      playback engine then starts from the empty string. */
  datatype DeltaManifest = DeltaManifest(
    fileId: string,
    totalRevisions: nat,
    baseText: Option<string>,
    deltas: seq<Delta>)

  /** `manifest.baseText || ''`: an absent base text reads as the empty string. */
  function BaseTextOf(m: DeltaManifest): string
  {
    match m.baseText
    case Some(b) => b
    case None => ""
  }
}
