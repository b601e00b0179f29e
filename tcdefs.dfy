/** The tail-call program indexes shared by the tc and XDP programs, and the
    size of the jump array in the XDP global data. Their definitions live
    outside attach.go; the values below are the model's, and everything
    proved about them uses only that they are distinct and below
    `ProgIndexEnd <= JumpSlots`. */
module TcDefs {

  const ProgIndexMain: nat := 0
  const ProgIndexPolicy: nat := 1
  const ProgIndexAllowed: nat := 2
  const ProgIndexDrop: nat := 4
  /** One past the last program index: the end of the range that is given a
      self-jump default. */
  const ProgIndexEnd: nat := 5

  /** Number of entries of the `Jumps` array of the XDP global data. */
  const JumpSlots: nat := 32
}
