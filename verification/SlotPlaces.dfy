/** The hooked slots of the TerSafe vtables, and the number by which an observer knows each of them. */
module SlotPlaces {
  import opened Words

  const NUM_SLOTS := 6
  const NUM_SUBS := 2
  const SUB_SLOTS := 16
  const TRAMPOLINES := NUM_SLOTS + NUM_SUBS * SUB_SLOTS

  datatype AnyPlace = MainSlot(slot: nat) | SubSlot(sub: nat, slot: nat)

  /** A slot of the main vtable, or of one of the two sub-object vtables. */
  type Place = p: AnyPlace | if p.MainSlot? then p.slot < NUM_SLOTS else p.sub < NUM_SUBS && p.slot < SUB_SLOTS
    witness MainSlot(0)

  /** The slot itself, or `(sub_idx << 8) | slot`. */
  function Number(p: Place): Word {
    match p
    case MainSlot(slot) => slot
    case SubSlot(sub, slot) => 0x100 * sub + slot
  }

  /** The trampolines in the order of their allocation: the main slots, then each sub-vtable's. */
  function SubId(sub: nat, slot: nat): nat {
    NUM_SLOTS + sub * SUB_SLOTS + slot
  }

  function IdOf(p: Place): (id: nat)
    ensures id < TRAMPOLINES
  {
    match p
    case MainSlot(slot) => slot
    case SubSlot(sub, slot) => SubId(sub, slot)
  }

  /** What `idx >> 8` and `idx & 0xFF` make of a number. */
  lemma NumberDecodes(p: Place)
    requires p.SubSlot?
    ensures Number(p) / 0x100 == p.sub && Number(p) % 0x100 == p.slot
  {
  }
}
