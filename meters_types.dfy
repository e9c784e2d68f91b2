/** The registry's data: meter types, the values union, the per-meter
    configuration and run-time state, and the context object that holds the
    fixed-capacity tables (meters.h, meters_private.h). */
module MeterTypes {
  import opened Wire
  import opened Bus485

  // meters_type_t, with the RS-485 meter types compiled in.
  const TypeExternAC: u32 := 0
  const TypeExternDC: u32 := 1
  const TypeCE318: u32 := 2
  const TypeMercury234: u32 := 3
  const TypeSPM90: u32 := 4
  /** One past the last valid type; also the "no meter" default. */
  const TypeLastIndex: u32 := 5

  /** meters_currentType_t: the tag stored beside the values union. */
  datatype CurrentType = DC | AC

  /** Three-phase readings. The C fields are floats; here they are the exact
      values the drivers compute before rounding to float. */
  datatype ValuesAC = ValuesAC(
    energyActive: u64,      // watt-seconds
    current: seq<real>,     // three phases, amperes
    voltage: seq<real>,     // three phases, volts
    powerActive: real,      // watts
    frequency: real)

  /** Direct-current readings. */
  datatype ValuesDC = ValuesDC(
    energy: u64,            // watt-seconds
    current: real,
    voltage: real,
    power: real)

  /** The anonymous union: which view was written last. */
  datatype Payload = AcPayload(ac: ValuesAC) | DcPayload(dc: ValuesDC)

  /** meters_values_t: the union and its type tag. Writing one view of the
      union does not change the tag. */
  datatype Values = Values(payload: Payload, kind: CurrentType)

  /** meter_parameters_t. */
  datatype Parameters = Parameters(meterType: u32, address: u32, baudrate: u32, currentFactor: u32)

  /** meters_item_t: the cached values, the SPM90 driver's shadow copy (the
      member of the driver-data union that this model uses), validity, the time
      of the last successful read, the error time and the consecutive-failure
      counter. */
  datatype Item = Item(
    values: Values,
    shadow: ValuesDC,
    isValidValues: bool,
    timemark: u32,
    errorTimemark: u32,
    badResponseCount: u32)

  const ZeroDC := ValuesDC(0, 0.0, 0.0, 0.0)
  /** A zero-initialised item, as in the statically allocated context. */
  const ZeroItem := Item(Values(DcPayload(ZeroDC), DC), ZeroDC, false, 0, 0, 0)
  const ZeroParameters := Parameters(TypeExternAC, 0, 0, 0)

  /** What the configuration callback returns: its result (the number of
      meters, or a negative error) and the parameter table after it wrote it. */
  datatype FillResult = FillResult(ret: int, table: seq<Parameters>)

  /** meters_get_parameters_t; the user data it receives is captured in the
      function. */
  type ParamsCallback = seq<Parameters> -> FillResult

  /** meters_context_t. Its mutex, semaphore and thread fields belong to the
      runtime and are not part of this model. */
  class Context {
    const bus: Bus
    var items: array<Item>
    var parameters: array<Parameters>
    var itemCount: nat
    var getParameters: Option<ParamsCallback>

    /** The tables have the same capacity, CONFIG_STRIM_METERS_ITEMS_MAX_COUNT,
        and the registered meters fit in them. */
    ghost predicate Valid()
      reads this
    {
      items.Length == parameters.Length && itemCount <= items.Length
    }

    /** The statically allocated context: zero-filled tables, no meters, no
        callback. */
    constructor (bus: Bus, maxCount: nat)
      ensures Valid() && this.bus == bus && fresh(items) && fresh(parameters)
      ensures items.Length == maxCount && itemCount == 0 && getParameters == None
      ensures forall i :: 0 <= i < maxCount ==> items[i] == ZeroItem && parameters[i] == ZeroParameters
    {
      this.bus := bus;
      items := new Item[maxCount](_ => ZeroItem);
      parameters := new Parameters[maxCount](_ => ZeroParameters);
      itemCount := 0;
      getParameters := None;
    }
  }
}
