/** The scalar field of BN254, in which amount changes are signed. */
module Field {
  const FIELD_P: int := 21888242871839275222246405745257275088548364400416034343698204186575808495617

  /** A negative change is written as its distance below the field order; it is not reduced further. */
  function Wrap(x: int): int {
    if x < 0 then FIELD_P + x else x
  }
}
