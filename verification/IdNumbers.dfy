/** The 16-bit numbers handed out to clan members and applicants, friends and requests. */
module IdNumbers {
  import opened Bytes

  /** The largest of the IDs in use, zero when there is none. */
  function Highest(ids: seq<uint16>): (h: uint16)
    ensures forall id | id in ids :: id <= h
    ensures h == 0 || h in ids
  {
    if ids == [] then 0
    else
      var rest := Highest(ids[1..]);
      assert forall id | id in ids :: id == ids[0] || id in ids[1..];
      if ids[0] > rest then ids[0] else rest
  }

  lemma HighestIs(ids: seq<uint16>, h: uint16)
    requires forall j | 0 <= j < |ids| :: ids[j] <= h
    requires h == 0 || h in ids
    ensures Highest(ids) == h
  {
  }

  /** One past the highest number in use, in `uint16` arithmetic. */
  function OnePast(ids: seq<uint16>): uint16 {
    (Highest(ids) + 1) % 0x1_0000
  }

  /** The wrapped number is a used one exactly when both ends of the range are in use. */
  lemma OnePastFresh(ids: seq<uint16>)
    ensures OnePast(ids) !in ids <==> !(0xFFFF in ids && 0 in ids)
  {
  }
}
