/** The meter registry (src/meters.c): registering the configuration
    callback, loading the parameter table through it, writing one meter's
    values from outside, and one iteration of the registry's thread. */
module Registry {
  import opened Wire
  import opened MeterTypes

  /** The slot a configuration starts from: current factor 1, address 0 and
      type "none"; the baud rate is left as it was. */
  function Default(p: Parameters): (d: Parameters)
    ensures d.currentFactor == 1 && d.address == 0 && d.meterType == TypeLastIndex
    ensures d.baudrate == p.baudrate
  {
    p.(currentFactor := 1, address := 0, meterType := TypeLastIndex)
  }

  /** The table handed to the callback: every slot reset. */
  function Defaults(table: seq<Parameters>): (r: seq<Parameters>)
    ensures |r| == |table| && forall i :: 0 <= i < |table| ==> r[i] == Default(table[i])
  {
    seq(|table|, i requires 0 <= i < |table| => Default(table[i]))
  }

  /** The first `n` registered meters all have a known type. */
  predicate AllKnown(table: seq<Parameters>, n: nat)
    requires n <= |table|
  {
    forall i :: 0 <= i < n ==> table[i].meterType < TypeLastIndex
  }

  /** What the callback returns and writes when it is handed the reset
      table. */
  function Fill(ctx: Context): FillResult
    reads ctx, ctx.parameters
    requires ctx.getParameters.Some?
  {
    ctx.getParameters.value(Defaults(ctx.parameters[..]))
  }

  /** The callback writes a whole table and reports at most as many meters as
      the table holds (the count is not checked against the capacity, and
      the type scan would read past the table). */
  predicate CallbackFits(ctx: Context)
    reads ctx, ctx.parameters
  {
    ctx.getParameters.Some? &&
    |Fill(ctx).table| == ctx.parameters.Length && Fill(ctx).ret <= ctx.parameters.Length
  }

  /** The result of `initializeMetersContext` for callback result `fill`. */
  function InitOutcome(fill: FillResult): Status
    requires fill.ret <= |fill.table|
  {
    if fill.ret < 0 then Returned(fill.ret)
    else if !AllKnown(fill.table, fill.ret) then Returned(-1)
    else NoReturnValue
  }

  /** The registry after `initializeMetersContext`: a negative callback result
      keeps the old count; an unknown type among the registered meters
      clears it; otherwise the count is the callback's. */
  function CountAfter(fill: FillResult, oldCount: nat): (r: nat)
    requires fill.ret <= |fill.table|
    ensures fill.ret >= 0 && AllKnown(fill.table, fill.ret) ==> r == fill.ret
    ensures fill.ret >= 0 && !AllKnown(fill.table, fill.ret) ==> r == 0
    ensures fill.ret < 0 ==> r == oldCount
  {
    if fill.ret < 0 then oldCount
    else if !AllKnown(fill.table, fill.ret) then 0
    else fill.ret
  }

  /** The reset loop of `initializeMetersContext`. */
  method ResetParameters(ctx: Context)
    requires ctx.Valid()
    modifies ctx.parameters
    ensures ctx.parameters[..] == Defaults(old(ctx.parameters[..]))
  {
    ghost var before := ctx.parameters[..];
    for i := 0 to ctx.parameters.Length
      invariant forall k :: 0 <= k < i ==> ctx.parameters[k] == Default(before[k])
      invariant forall k :: i <= k < ctx.parameters.Length ==> ctx.parameters[k] == before[k]
    {
      ctx.parameters[i] := ctx.parameters[i].(currentFactor := 1, address := 0, meterType := TypeLastIndex);
    }
  }

  /** The type scan of `initializeMetersContext`: the first registered meter
      of unknown type clears the count. */
  method CheckTypes(ctx: Context) returns (st: Status)
    requires ctx.Valid()
    modifies ctx
    ensures ctx.Valid() && unchanged(ctx`items, ctx`parameters, ctx`getParameters)
    ensures AllKnown(ctx.parameters[..], old(ctx.itemCount)) ==> st == NoReturnValue && ctx.itemCount == old(ctx.itemCount)
    ensures !AllKnown(ctx.parameters[..], old(ctx.itemCount)) ==> st == Returned(-1) && ctx.itemCount == 0
  {
    var i := 0;
    while i < ctx.itemCount
      invariant 0 <= i <= ctx.itemCount
      invariant AllKnown(ctx.parameters[..], i)
    {
      if ctx.parameters[i].meterType >= TypeLastIndex {
        ctx.itemCount := 0;
        return Returned(-1);
      }
      i := i + 1;
    }
    st := NoReturnValue;
  }

  /** `initializeMetersContext`: resets the table, lets the callback fill it
      and take the count from its result, then rejects unknown types. The
      success path ends without a return statement. */
  method Initialize(ctx: Context) returns (st: Status)
    requires ctx.Valid() && CallbackFits(ctx)
    modifies ctx, ctx.parameters
    ensures ctx.Valid() && unchanged(ctx`items, ctx`parameters, ctx`getParameters)
    ensures ctx.parameters[..] == old(Fill(ctx)).table
    ensures st == InitOutcome(old(Fill(ctx)))
    ensures ctx.itemCount == CountAfter(old(Fill(ctx)), old(ctx.itemCount))
  {
    ghost var fill := Fill(ctx);
    ResetParameters(ctx);
    var res := ctx.getParameters.value(ctx.parameters[..]);
    assert res == fill;
    forall i | 0 <= i < ctx.parameters.Length {
      ctx.parameters[i] := res.table[i];
    }
    assert ctx.parameters[..] == res.table;
    if res.ret < 0 {
      return Returned(res.ret);
    }
    ctx.itemCount := res.ret;
    st := CheckTypes(ctx);
  }

  /** `meters_init`: a missing callback gives -EINVAL and leaves the context
      alone; otherwise the callback is stored and the result is 0 (the
      registry's thread is then started). */
  method Init(ctx: Context, cb: Option<ParamsCallback>) returns (ret: int)
    modifies ctx
    ensures cb.None? ==> ret == -EINVAL && ctx.getParameters == old(ctx.getParameters)
    ensures cb.Some? ==> ret == 0 && ctx.getParameters == cb
    ensures unchanged(ctx`items, ctx`parameters, ctx`itemCount)
  {
    if cb.None? {
      return -EINVAL;
    }
    ctx.getParameters := cb;
    ret := 0;
  }

  /** The 32-bit time stamp of an uptime in milliseconds. */
  function Stamp(uptime: nat): (r: u32)
    ensures uptime < 0x1_0000_0000 ==> r == uptime
  {
    uptime % 0x1_0000_0000
  }

  /** The result of `meters_set_values`: -EINVAL without a buffer, -ERANGE
      outside the registered meters, otherwise no return statement. */
  function SetValuesOutcome(idx: u32, buffer: Option<Values>, count: nat): Status {
    if buffer.None? then Returned(-EINVAL)
    else if idx >= count then Returned(-ERANGE)
    else NoReturnValue
  }

  /** `meters_set_values`: writes the values of meter `idx`, stamped with the
      uptime (`k_uptime_get`, truncated to 32 bits) and marked valid; the
      failure counter, the error time and the driver data are kept. */
  method SetValues(ctx: Context, idx: u32, buffer: Option<Values>, uptime: nat) returns (st: Status)
    requires ctx.Valid()
    modifies ctx.items
    ensures st == SetValuesOutcome(idx, buffer, ctx.itemCount)
    ensures st.Returned? ==> ctx.items[..] == old(ctx.items[..])
    ensures st.NoReturnValue? ==>
      ctx.items[..] == old(ctx.items[..])[idx := old(ctx.items[idx]).(values := buffer.value, timemark := Stamp(uptime), isValidValues := true)]
  {
    if buffer.None? {
      return Returned(-EINVAL);
    }
    if idx >= ctx.itemCount {
      return Returned(-ERANGE);
    }
    ctx.items[idx] := ctx.items[idx].(values := buffer.value);
    ctx.items[idx] := ctx.items[idx].(timemark := uptime % 0x1_0000_0000);
    ctx.items[idx] := ctx.items[idx].(isValidValues := true);
    st := NoReturnValue;
  }

  /** A rejected call changes nothing, and the checks run buffer first: a
      missing buffer is reported even for an index out of range. */
  lemma SetValuesChecksInOrder(idx: u32, buffer: Option<Values>, count: nat)
    ensures buffer.None? ==> SetValuesOutcome(idx, buffer, count) == Returned(-EINVAL)
    ensures SetValuesOutcome(idx, buffer, count) == NoReturnValue <==> buffer.Some? && idx < count
    ensures SetValuesOutcome(idx, buffer, count) == Returned(-ERANGE) <==> buffer.Some? && idx >= count
  {
  }

  /** How one iteration of `meters_baseThread` ends. */
  datatype StepEnd = Continue(isInitialize: bool) | ExitThread(code: int)

  /** What the caller of `initializeMetersContext` sees as `ret`: the returned
      value, or `indeterminate` when the function ended without one. */
  function Seen(st: Status, indeterminate: int): int {
    match st
    case Returned(c) => c
    case NoReturnValue => indeterminate
  }

  /** One iteration of `meters_baseThread`. `reinitRequested` is whether
      `k_sem_take` returned 0 within its 250 ms; `indeterminate` is the value
      `ret` holds when initialisation ends without a return statement. The
      per-meter loop under CONFIG_STRIM_METERS_BUS485_ENABLE only sleeps. */
  method BaseThreadStep(ctx: Context, isInitialize: bool, reinitRequested: bool, indeterminate: int)
    returns (next: StepEnd)
    requires ctx.Valid() && CallbackFits(ctx)
    modifies ctx, ctx.parameters
    ensures ctx.Valid()
    ensures !isInitialize && next.Continue? ==> !next.isInitialize
    ensures unchanged(ctx`items, ctx`parameters, ctx`getParameters)
    ensures isInitialize && !reinitRequested ==>
      next == Continue(true) && ctx.itemCount == old(ctx.itemCount) && ctx.parameters[..] == old(ctx.parameters[..])
    ensures (!isInitialize || reinitRequested) ==>
      var st := InitOutcome(old(Fill(ctx)));
      (Seen(st, indeterminate) < 0 ==> next == ExitThread(Seen(st, indeterminate))) &&
      (Seen(st, indeterminate) >= 0 ==> next == Continue(false))
    ensures (!isInitialize || reinitRequested) ==>
      ctx.parameters[..] == old(Fill(ctx)).table &&
      ctx.itemCount == CountAfter(old(Fill(ctx)), old(ctx.itemCount))
  {
    var initialized := isInitialize;
    if reinitRequested {
      initialized := false;
    }
    if !initialized {
      var st := Initialize(ctx);
      var ret := Seen(st, indeterminate);
      if ret < 0 {
        return ExitThread(ret);
      }
      initialized := false;
    }
    next := Continue(initialized);
  }
}
