/** The older revision of the SPM90 driver (src/meters_spm90.c). Its response
    checks, request and exchange are the same code as the newer driver's and
    are the members of module Spm90; what differs is the read, which keeps no
    failure counter: a failed read leaves the meter exactly as it was. */
module Spm90Legacy {
  import opened Wire
  import opened Bus485
  import opened MeterTypes
  import Spm90

  /** The item after `i32_Meters_ReadSpm90`: on success the shadow holds the
      new reading, the values become valid, are stamped with `now` and take
      the DC view of the shadow. */
  function ReadItem(item: Item, param: Parameters, replies: BusReplies, now: u32): (r: Item)
    requires Spm90.RecvShape(replies.recv)
    ensures Spm90.Exchange(Lo(Spm90.ToU16(param.address)), replies) == 0 ==>
      r.isValidValues && r.timemark == now &&
      r.shadow == Spm90.Decode(Spm90.Registers(replies.recv.buffer, Spm90.RegisterCount)) &&
      r.values == item.values.(payload := DcPayload(r.shadow))
  {
    var id := Lo(Spm90.ToU16(param.address));
    if Spm90.Exchange(id, replies) == 0 then
      var shadow := Spm90.Decode(Spm90.Registers(replies.recv.buffer, Spm90.RegisterCount));
      item.(shadow := shadow, isValidValues := true, timemark := now,
            values := item.values.(payload := DcPayload(shadow)))
    else item
  }

  /** `i32_Meters_ReadSpm90`: polls meter `itemIdx`, updates that item and no
      other, and always returns 0. */
  method Read(ctx: Context, itemIdx: u32, now: u32, replies: BusReplies) returns (ret: int)
    requires ctx.Valid() && itemIdx < ctx.items.Length
    requires !ctx.bus.locked && Spm90.RecvShape(replies.recv)
    modifies ctx.bus, ctx.items
    ensures ret == 0
    ensures ctx.items[..] == old(ctx.items[..])[itemIdx := ReadItem(old(ctx.items[itemIdx]), ctx.parameters[itemIdx], replies, now)]
    ensures !ctx.bus.locked
    ensures ctx.bus.trace == old(ctx.bus.trace) +
      Spm90.Session(Lo(Spm90.ToU16(ctx.parameters[itemIdx].address)), Spm90.ToU16(ctx.parameters[itemIdx].baudrate), replies)
  {
    var item := ctx.items[itemIdx];
    var param := ctx.parameters[itemIdx];
    ghost var expected := ReadItem(item, param, replies, now);
    var shadow;
    ret, shadow := Spm90.GetValues(ctx, Spm90.ToU16(param.address), Spm90.ToU16(param.baudrate), item.shadow, replies);
    item := item.(shadow := shadow);
    if ret == 0 {
      item := item.(isValidValues := true, timemark := now, values := item.values.(payload := DcPayload(item.shadow)));
    }
    assert item == expected;
    ctx.items[itemIdx] := item;
    ret := 0;
  }

  /** `i32_Meters_InitSpm90` is the same code as the newer `meters_spm90_init`:
      -ERANGE outside the registered meters, otherwise the counter of that
      meter is set to the threshold. */
  method Init(ctx: Context, itemIdx: u32) returns (ret: int)
    requires ctx.Valid()
    modifies ctx.items
    ensures itemIdx >= ctx.itemCount ==> ret == -ERANGE && ctx.items[..] == old(ctx.items[..])
    ensures itemIdx < ctx.itemCount ==>
      ret == 0 &&
      ctx.items[..] == old(ctx.items[..])[itemIdx := old(ctx.items[itemIdx]).(badResponseCount := Spm90.ErrorThreshold)]
  {
    ret := Spm90.Init(ctx, itemIdx);
  }

  // ---------------------------------------------------------------------
  // Properties

  /** A failed read changes nothing, and a successful one never touches the
      failure counter or the error time. */
  lemma FailureChangesNothing(item: Item, param: Parameters, replies: BusReplies, now: u32)
    requires Spm90.RecvShape(replies.recv)
    ensures Spm90.Exchange(Lo(Spm90.ToU16(param.address)), replies) != 0 ==>
      ReadItem(item, param, replies, now) == item
    ensures ReadItem(item, param, replies, now).badResponseCount == item.badResponseCount
    ensures ReadItem(item, param, replies, now).errorTimemark == item.errorTimemark
  {
  }

  /** Once valid, a meter stays valid in the older revision, however many
      reads fail; it is valid after a read iff the read succeeded or it was
      valid before. */
  lemma ValidityIsMonotone(item: Item, param: Parameters, replies: BusReplies, now: u32)
    requires Spm90.RecvShape(replies.recv)
    ensures ReadItem(item, param, replies, now).isValidValues <==>
      item.isValidValues || Spm90.Exchange(Lo(Spm90.ToU16(param.address)), replies) == 0
  {
  }

  /** The two revisions agree on a successful read except for the counter,
      which only the newer one resets; on a failed read they agree when the
      meter is already invalid. */
  lemma AgreesWithNewer(item: Item, param: Parameters, replies: BusReplies, now: u32)
    requires Spm90.RecvShape(replies.recv)
    ensures Spm90.Exchange(Lo(Spm90.ToU16(param.address)), replies) == 0 ==>
      ReadItem(item, param, replies, now) ==
      Spm90.ReadItem(item, param, replies, now).(badResponseCount := item.badResponseCount)
    ensures !item.isValidValues ==>
      ReadItem(item, param, replies, now).isValidValues == Spm90.ReadItem(item, param, replies, now).isValidValues
  {
  }
}
