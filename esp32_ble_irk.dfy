/**
 * The ESP32 BLE IRK component: its configuration, its bond-identity table,
 * the text sensors it feeds, the subscribers it notifies, and its handlers for
 * the stack's security and connection events.  Every operation runs as one
 * atomic step; what it does to the outside world is appended to `trace`, and
 * what the subscribed automation triggers receive is appended to `fired`.
 */
module Esp32BleIrk {
  import opened Wrappers
  import opened Bytes
  import opened Formatters
  import opened Events
  import opened Bluedroid
  import opened DeviceTable
  import opened Reactor

  /** A text sensor showing one encoding of the first bonded device. */
  class TextSensor {
    var format: IrkFormat
    /** The sensor's current state, "" until something is published. */
    var state: string
    /** The values handed to publish_state, in order. */
    var published: seq<string>

    constructor (format: IrkFormat)
      ensures this.format == format && state == "" && published == []
    {
      this.format := format;
      state := "";
      published := [];
    }

    method SetFormat(format: IrkFormat)
      modifies this`format
      ensures this.format == format
    {
      this.format := format;
    }

    /** Publishes only a value that differs from the current state, so
        repeating a value publishes nothing. */
    method UpdateValue(value: string)
      modifies this`state, this`published
      ensures state == value
      ensures published == old(published) + (if old(state) != value then [value] else [])
    {
      if state != value {
        state := value;
        published := published + [value];
      }
    }
  }

  /** Every sensor of `sensors` now shows its format's field of `table` (or ""),
      having published it only if that differs from what it showed before. */
  twostate predicate Refreshed(sensors: seq<TextSensor>, table: seq<DeviceIrkInfo>)
    reads sensors
  {
    forall s :: s in sensors ==>
      && s.format == old(s.format)
      && s.state == SensorValue(table, s.format)
      && s.published == old(s.published) + (if old(s.state) != s.state then [s.state] else [])
  }

  /** No sensor of `sensors` has changed or published anything. */
  twostate predicate Untouched(sensors: seq<TextSensor>)
    reads sensors
  {
    forall s :: s in sensors ==>
      s.format == old(s.format) && s.state == old(s.state) && s.published == old(s.published)
  }

  class BleIrk {
    /** The host stack this component talks to. */
    const stack: Stack
    var autoExtract: bool
    var clearBondsOnStartup: bool
    var textSensors: seq<TextSensor>
    var deviceInfo: seq<DeviceIrkInfo>
    /** The triggers subscribed to this component, in registration order. */
    var listeners: seq<Trigger>
    /** Every stack call made and every event emitted, in order. */
    var trace: seq<Effect>
    /** Every trigger firing, in order. */
    var fired: seq<Firing>

    /** Each record's text fields are the encodings of its own bytes. */
    ghost predicate Valid()
      reads this
    {
      forall d :: d in deviceInfo ==> Consistent(d)
    }

    /** A fresh component: auto-extract on, no clear on startup, nothing registered yet. */
    constructor (stack: Stack)
      ensures this.stack == stack
      ensures autoExtract && !clearBondsOnStartup
      ensures textSensors == [] && deviceInfo == [] && listeners == [] && trace == [] && fired == []
      ensures Valid()
    {
      this.stack := stack;
      autoExtract := true;
      clearBondsOnStartup := false;
      textSensors := [];
      deviceInfo := [];
      listeners := [];
      trace := [];
      fired := [];
    }

    method SetAutoExtract(autoExtract: bool)
      modifies this`autoExtract
      ensures this.autoExtract == autoExtract
    {
      this.autoExtract := autoExtract;
    }

    method SetClearBondsOnStartup(clearBonds: bool)
      modifies this`clearBondsOnStartup
      ensures clearBondsOnStartup == clearBonds
    {
      clearBondsOnStartup := clearBonds;
    }

    /** Sensors are kept in registration order. */
    method AddTextSensor(sensor: TextSensor)
      modifies this`textSensors
      ensures textSensors == old(textSensors) + [sensor]
    {
      textSensors := textSensors + [sensor];
    }

    /** A trigger's constructor subscribes it to its own event kind. */
    method On(t: Trigger)
      modifies this`listeners
      ensures listeners == old(listeners) + [t]
    {
      listeners := listeners + [t];
    }

    /** The latest identity table, read-only; each record is consistent. */
    function GetDeviceInfo(): (r: seq<DeviceIrkInfo>)
      requires Valid()
      reads this
      ensures r == deviceInfo
      ensures forall d :: d in r ==> Consistent(d)
    {
      deviceInfo
    }

    /** A call whose status the component does not act on. */
    method Call(c: StackCall)
      modifies this`trace
      ensures trace == old(trace) + [Called(c)]
    {
      var ok := stack.Request(c);
      trace := trace + [Called(c)];
    }

    /** emit_: the subscribers of the emission's kind run, in registration order. */
    method Emit(e: Emission)
      modifies this`trace, this`fired
      ensures trace == old(trace) + [Emitted(e)]
      ensures fired == old(fired) + Dispatch(listeners, e)
    {
      trace := trace + [Emitted(e)];
      fired := fired + Dispatch(listeners, e);
    }

    /** update_text_sensors */
    method UpdateTextSensors()
      modifies textSensors`state, textSensors`published
      ensures Refreshed(textSensors, deviceInfo)
    {
      var i := 0;
      while i < |textSensors|
        invariant 0 <= i <= |textSensors|
        invariant forall s :: s in textSensors[..i] ==>
          && s.state == SensorValue(deviceInfo, s.format)
          && s.published == old(s.published) + (if old(s.state) != s.state then [s.state] else [])
        invariant forall s :: s in textSensors && s !in textSensors[..i] ==>
          s.state == old(s.state) && s.published == old(s.published)
      {
        var sensor := textSensors[i];
        var value := "";
        if |deviceInfo| > 0 {
          var device := deviceInfo[0];
          match sensor.format
          case HexFormat => value := device.irkHex;
          case Base64Format => value := device.irkBase64;
          case ReverseFormat => value := device.irkReverse;
          case AddressFormat => value := device.addressStr;
        }
        sensor.UpdateValue(value);
        assert textSensors[..i + 1] == textSensors[..i] + [sensor];
        i := i + 1;
      }
      assert textSensors[..i] == textSensors;
    }

    /** The count, buffer and list steps extract_irk_data and clear_all_bonds
        both begin with; the list query asks for as many records as counted. */
    method ListBonds() returns (o: Listing)
      modifies this`trace
      ensures ListingOf(stack.bonds, o)
      ensures trace == old(trace) + ListingTrace(|stack.bonds|, o)
    {
      var devNum := stack.GetBondDeviceNum();
      trace := trace + [Called(GetBondDeviceNum)];
      if devNum == 0 {
        return NoBonds;
      }
      var gotBuffer := Allocate(devNum);
      if !gotBuffer {
        return AllocFailed;
      }
      var listed, list := stack.GetBondDeviceList(devNum);
      trace := trace + [Called(GetBondDeviceList(devNum))];
      if !listed {
        return ListFailed;
      }
      return Listed(list);
    }

    /** The loop of extract_irk_data: one record per listed bond, pushed in list order. */
    method RecordDevices(list: seq<BondRecord>)
      requires deviceInfo == []
      modifies this`deviceInfo
      ensures deviceInfo == BuildTable(list)
    {
      var i := 0;
      while i < |list|
        invariant 0 <= i <= |list|
        invariant deviceInfo == BuildTable(list[..i])
      {
        var prefix := list[..i + 1];
        assert prefix[..i] == list[..i] && prefix[i] == list[i];
        deviceInfo := deviceInfo + [MakeDeviceInfo(list[i])];
        i := i + 1;
      }
      assert list[..i] == list;
    }

    /** The loop of clear_all_bonds: one removal request per listed record, in
        list order, whatever each request returns. */
    method RequestRemovals(list: seq<BondRecord>)
      modifies this`trace
      ensures trace == old(trace) + RemovalTrace(list)
    {
      var i := 0;
      while i < |list|
        invariant 0 <= i <= |list|
        invariant trace == old(trace) + RemovalTrace(list[..i])
      {
        var prefix := list[..i + 1];
        assert prefix[..i] == list[..i] && prefix[i] == list[i];
        Call(RemoveBondDevice(list[i].bdAddr));
        i := i + 1;
      }
      assert list[..i] == list;
    }

    /** Setup's six security-manager calls, in order, whatever each returns. */
    method ConfigureSecurity()
      modifies this`trace
      ensures trace == old(trace) + SecurityConfigTrace()
    {
      Call(SetSecurityParam(AuthenReqMode, AUTH_REQ_SC_MITM_BOND as int));
      Call(SetSecurityParam(MaxKeySize, MAX_KEY_SIZE as int));
      Call(SetSecurityParam(SetInitKey, ENC_AND_ID_KEY_MASK as int));
      Call(SetSecurityParam(SetRspKey, ENC_AND_ID_KEY_MASK as int));
      Call(SetSecurityParam(SetStaticPasskey, STATIC_PASSKEY));
      Call(SetSecurityParam(OnlyAcceptSpecifiedSecAuth, ONLY_ACCEPT_SPECIFIED_AUTH_DISABLE as int));
    }

    /** extract_irk_data */
    method ExtractIrkData() returns (ghost o: Listing)
      requires Valid()
      modifies this`deviceInfo, this`trace, this`fired, textSensors`state, textSensors`published
      ensures Valid()
      ensures ListingOf(stack.bonds, o)
      ensures trace == old(trace) + ExtractTrace(|stack.bonds|, o)
      ensures fired == old(fired) + Deliver(listeners, ExtractEmissions(o))
      ensures deviceInfo == TableAfterExtract(o)
      ensures RefreshesSensors(o) ==> Refreshed(textSensors, deviceInfo)
      ensures !RefreshesSensors(o) ==> Untouched(textSensors)
    {
      deviceInfo := [];
      var listing := ListBonds();
      if listing.NoBonds? {
        UpdateTextSensors();
      } else if listing.Listed? {
        RecordDevices(listing.records);
        UpdateTextSensors();
        Emit(IrkExtracted(ToUint16(|listing.records|)));
        assert Valid() by { ExtractTable(listing); }
      } else {
        assert Untouched(textSensors);
      }
      ExtractDelivers(listeners, listing);
      o := listing;
    }

    /** What clear_all_bonds does once it has its listing: a removal request
        per record, an empty table shown on the sensors, then ON_BOND_CLEARED. */
    method ForgetBonds(list: seq<BondRecord>)
      modifies this`deviceInfo, this`trace, this`fired, textSensors`state, textSensors`published
      ensures trace == old(trace) + (RemovalTrace(list) + [Emitted(BondCleared())])
      ensures fired == old(fired) + Dispatch(listeners, BondCleared())
      ensures deviceInfo == [] && Refreshed(textSensors, [])
    {
      RequestRemovals(list);
      deviceInfo := [];
      UpdateTextSensors();
      Emit(BondCleared());
    }

    /** clear_all_bonds */
    method ClearAllBonds() returns (ghost o: Listing)
      requires Valid()
      modifies this`deviceInfo, this`trace, this`fired, textSensors`state, textSensors`published
      ensures Valid()
      ensures ListingOf(stack.bonds, o)
      ensures trace == old(trace) + ClearTrace(|stack.bonds|, o)
      ensures fired == old(fired) + Deliver(listeners, ClearEmissions(o))
      ensures o.Listed? ==> deviceInfo == [] && Refreshed(textSensors, [])
      ensures !o.Listed? ==> deviceInfo == old(deviceInfo) && Untouched(textSensors)
    {
      var listing := ListBonds();
      if listing.Listed? {
        ForgetBonds(listing.records);
        DeliverOne(listeners, BondCleared());
        assert trace == old(trace) + ClearTrace(|stack.bonds|, listing);
      }
      o := listing;
    }

    /** setup: the six security parameters, whatever each call returns, then
        the optional clear. */
    method Setup() returns (ghost o: Option<Listing>)
      requires Valid()
      modifies this`deviceInfo, this`trace, this`fired, textSensors`state, textSensors`published
      ensures Valid()
      ensures o.Some? <==> clearBondsOnStartup
      ensures o.None? ==>
        && trace == old(trace) + SecurityConfigTrace()
        && fired == old(fired) && deviceInfo == old(deviceInfo) && Untouched(textSensors)
      ensures o.Some? ==>
        && ListingOf(stack.bonds, o.value)
        && trace == old(trace) + SecurityConfigTrace() + ClearTrace(|stack.bonds|, o.value)
        && fired == old(fired) + Deliver(listeners, ClearEmissions(o.value))
        && (o.value.Listed? ==> deviceInfo == [] && Refreshed(textSensors, []))
        && (!o.value.Listed? ==> deviceInfo == old(deviceInfo) && Untouched(textSensors))
    {
      ConfigureSecurity();
      assert deviceInfo == old(deviceInfo) && Untouched(textSensors);
      if clearBondsOnStartup {
        var cleared := ClearAllBonds();
        o := Some(cleared);
      } else {
        o := None;
      }
    }

    /** The immediate response of gap_event_handler to each event kind: the
        accepting replies, and the ON_PAIRING_COMPLETE announcement. */
    method RespondToGap(e: GapEvent)
      modifies this`trace, this`fired
      ensures trace == old(trace) + GapEffects(e)
      ensures fired == old(fired) + Deliver(listeners, GapEmissions(e))
    {
      match e
      case SecurityRequest(a) =>
        Call(SecurityRsp(a, true));
      case NumericComparisonRequest(a, _) =>
        Call(ConfirmReply(a, true));
      case PasskeyNotification(_, _) =>
      case PasskeyRequest(a) =>
        Call(PasskeyReply(a, true, STATIC_PASSKEY));
      case AuthComplete(a, _, success, failReason) =>
        var address := FormatAddress(a);
        var reason := if success then 0 else failReason;
        Emit(PairingComplete(address, success, reason));
        DeliverOne(listeners, PairingComplete(address, success, reason));
      case RemoveBondDevComplete(_) =>
      case OtherGapEvent(_) =>
    }

    /** gap_event_handler: the immediate response, then, after a successful
        pairing with auto-extract on or after a bond removal, an extraction
        whose listing is `o.value`. */
    method GapEventHandler(e: GapEvent) returns (ghost o: Option<Listing>)
      requires Valid()
      modifies this`deviceInfo, this`trace, this`fired, textSensors`state, textSensors`published
      ensures Valid()
      ensures o.Some? <==> ExtractsAfter(e, autoExtract)
      ensures o.None? ==>
        && trace == old(trace) + GapEffects(e)
        && fired == old(fired) + Deliver(listeners, GapEmissions(e))
        && deviceInfo == old(deviceInfo) && Untouched(textSensors)
      ensures o.Some? ==> ListingOf(stack.bonds, o.value)
      ensures o.Some? ==> trace == old(trace) + GapEffects(e) + ExtractTrace(|stack.bonds|, o.value)
      ensures o.Some? ==> fired == old(fired) + Deliver(listeners, GapEmissions(e)) + Deliver(listeners, ExtractEmissions(o.value))
      ensures o.Some? ==> deviceInfo == TableAfterExtract(o.value)
      ensures o.Some? && RefreshesSensors(o.value) ==> Refreshed(textSensors, deviceInfo)
      ensures o.Some? && !RefreshesSensors(o.value) ==> Untouched(textSensors)
    {
      RespondToGap(e);
      assert deviceInfo == old(deviceInfo) && Untouched(textSensors);
      if ExtractsAfter(e, autoExtract) {
        var listing := ExtractIrkData();
        o := Some(listing);
      } else {
        o := None;
      }
    }

    /** gatts_event_handler */
    method GattsEventHandler(e: GattsEvent)
      modifies this`trace, this`fired
      ensures trace == old(trace) + GattsEffects(e)
      ensures fired == old(fired) + Deliver(listeners, GattsEmissions(e))
    {
      match e
      case GattsConnect(a) =>
        var address := FormatAddress(a);
        Emit(PairingStarted(address));
        Call(SetEncryption(a, EncryptMitm));
        DeliverOne(listeners, PairingStarted(address));
      case GattsDisconnect(_) =>
      case OtherGattsEvent(_) =>
    }
  }

  /** The automation action that extracts. */
  class ExtractAction {
    const parent: BleIrk

    constructor (parent: BleIrk)
      ensures this.parent == parent
    {
      this.parent := parent;
    }

    /** Runs one extraction, and nothing else. */
    method Play() returns (ghost o: Listing)
      requires parent.Valid()
      modifies parent`deviceInfo, parent`trace, parent`fired, parent.textSensors`state, parent.textSensors`published
      ensures parent.Valid()
      ensures ListingOf(parent.stack.bonds, o)
      ensures parent.trace == old(parent.trace) + ExtractTrace(|parent.stack.bonds|, o)
      ensures parent.fired == old(parent.fired) + Deliver(parent.listeners, ExtractEmissions(o))
      ensures parent.deviceInfo == TableAfterExtract(o)
      ensures RefreshesSensors(o) ==> Refreshed(parent.textSensors, parent.deviceInfo)
      ensures !RefreshesSensors(o) ==> Untouched(parent.textSensors)
    {
      o := parent.ExtractIrkData();
    }
  }

  /** The automation action that deletes every bond. */
  class ClearBondsAction {
    const parent: BleIrk

    constructor (parent: BleIrk)
      ensures this.parent == parent
    {
      this.parent := parent;
    }

    /** Runs one bulk delete, and nothing else. */
    method Play() returns (ghost o: Listing)
      requires parent.Valid()
      modifies parent`deviceInfo, parent`trace, parent`fired, parent.textSensors`state, parent.textSensors`published
      ensures parent.Valid()
      ensures ListingOf(parent.stack.bonds, o)
      ensures parent.trace == old(parent.trace) + ClearTrace(|parent.stack.bonds|, o)
      ensures parent.fired == old(parent.fired) + Deliver(parent.listeners, ClearEmissions(o))
      ensures o.Listed? ==> parent.deviceInfo == [] && Refreshed(parent.textSensors, [])
      ensures !o.Listed? ==> parent.deviceInfo == old(parent.deviceInfo) && Untouched(parent.textSensors)
    {
      o := parent.ClearAllBonds();
    }
  }
}
