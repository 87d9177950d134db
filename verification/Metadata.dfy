/** The 16-bit metadatum that a bucket of the hash map carries (cc.h:2880-2903). */
module Metadata {

  // 0b0000011111111111: both the displacement mask and the displacement limit.
  const DISPLACEMENT_LIMIT: nat := 0x7FF

  /** XXXXYZZZZZZZZZZZ: hash fragment, in-home-bucket flag, quadratic displacement of the next key in the chain. */
  datatype Metadatum = Metadatum(frag: nat, home: bool, disp: nat)

  const EMPTY := Metadatum(0, false, 0)

  /** The uint16_t in memory for given fields. */
  function Packed(frag: bv16, home: bool, disp: bv16): bv16 {
    (frag << 12) | (if home then 0x0800 else 0) | disp
  }

  /** The three masks of the source select the three fields, and only the empty metadatum is zero. */
  lemma MasksSelectFields(f: bv16, h: bool, d: bv16)
    requires f < 16 && d < 0x800
    ensures Packed(f, h, d) & 0xF000 == f << 12
    ensures Packed(f, h, d) & 0x0800 != 0 <==> h
    ensures Packed(f, h, d) & 0x07FF == d
    ensures Packed(f, h, d) == 0 <==> f == 0 && !h && d == 0
  {}

  /** The masked assignments of the source change one field each: setting a displacement, ending a chain and copying
      a fragment. */
  lemma MaskedAssignments(f: bv16, h: bool, d: bv16, f': bv16, h': bool, d': bv16)
    requires f < 16 && d < 0x800 && f' < 16 && d' < 0x800
    ensures Packed(f, h, d') == (Packed(f, h, d) & !0x07FF) | d'
    ensures Packed(f, h, 0x07FF) == Packed(f, h, d) | 0x07FF
    ensures Packed(f', h, d) == (Packed(f, h, d) & !0xF000) | (Packed(f', h', d') & 0xF000)
  {}
}
