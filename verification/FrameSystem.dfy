/** Who a call comes from, as the frame system pallet tells it. */
module FrameSystem {
  import opened Scale

  datatype Origin = Root | Signed(who: AccountId) | Unsigned
}
