/** What several handlers share: the packet buffer's size (include/server.h), two replies, and the
    packet that turns acknowledgments off. */
module Protocol {
  import opened Memory

  const PBUFSIZ: nat := 2000
  const OK: seq<byte> := [79, 75]
  const ERROR: seq<byte> := [69, 48, 49]   // E01

  /** "QStartNoAckMode" */
  const START_NO_ACK: seq<byte> := [81, 83, 116, 97, 114, 116, 78, 111, 65, 99, 107, 77, 111, 100, 101]
}
