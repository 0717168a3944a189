/** Wire-level constants shared by client and server (common/protocol.py). */
module Protocol {

  /** Marks the end of one message on the reliable channel. */
  const PROTOCOL_END: string := "\n"

  /** The key of a decoded message that names the operation to run. */
  const PROTOCOL_METHOD: string := "method"

  lemma EndIsOneCharacter()
    ensures |PROTOCOL_END| == 1 && PROTOCOL_END[0] == '\n'
  {
  }
}
