/**
 * What the component does, as a trace of observable effects: the calls it
 * makes into the stack and the events it emits, in order.  The trace of each
 * operation is given as a function of the outcome the stack chose (bond count,
 * allocation and listing results), and the security-event reactor as a
 * memoryless table from one stack event to its response.
 */
module Reactor {
  import opened Wrappers
  import opened Bytes
  import opened Seqs
  import opened Formatters
  import opened Events
  import opened Bluedroid
  import opened DeviceTable

  /** One observable step: a call into the stack, or an emission to subscribers. */
  datatype Effect = Called(call: StackCall) | Emitted(emission: Emission)

  /** The emissions of a trace, in order. */
  function Emissions(t: seq<Effect>): seq<Emission>
    decreases |t|
  {
    if |t| == 0 then []
    else Emissions(t[..|t| - 1]) + (if t[|t| - 1].Emitted? then [t[|t| - 1].emission] else [])
  }

  /** How many times a trace asks the stack for its bond count: once per extraction or clear. */
  function BondQueries(t: seq<Effect>): nat
    decreases |t|
  {
    if |t| == 0 then 0
    else BondQueries(t[..|t| - 1]) + (if t[|t| - 1] == Called(GetBondDeviceNum) then 1 else 0)
  }

  lemma {:induction false} EmissionsAppend(a: seq<Effect>, b: seq<Effect>)
    ensures Emissions(a + b) == Emissions(a) + Emissions(b)
    decreases |b|
  {
    if |b| > 0 {
      var b' := b[..|b| - 1];
      assert (a + b)[..|a + b| - 1] == a + b';
      assert (a + b)[|a + b| - 1] == b[|b| - 1];
      EmissionsAppend(a, b');
    } else {
      assert a + b == a;
    }
  }

  lemma {:induction false} BondQueriesAppend(a: seq<Effect>, b: seq<Effect>)
    ensures BondQueries(a + b) == BondQueries(a) + BondQueries(b)
    decreases |b|
  {
    if |b| > 0 {
      var b' := b[..|b| - 1];
      assert (a + b)[..|a + b| - 1] == a + b';
      assert (a + b)[|a + b| - 1] == b[|b| - 1];
      BondQueriesAppend(a, b');
    } else {
      assert a + b == a;
    }
  }

  /** A trace of calls alone emits nothing. */
  lemma {:induction false} EmissionsOfCalls(t: seq<Effect>)
    requires forall i :: 0 <= i < |t| ==> t[i].Called?
    ensures Emissions(t) == []
    decreases |t|
  {
    if |t| > 0 {
      EmissionsOfCalls(t[..|t| - 1]);
    }
  }

  /** A trace without bond-count calls makes no bond query. */
  lemma {:induction false} BondQueriesNone(t: seq<Effect>)
    requires forall i :: 0 <= i < |t| ==> t[i] != Called(GetBondDeviceNum)
    ensures BondQueries(t) == 0
    decreases |t|
  {
    if |t| > 0 {
      BondQueriesNone(t[..|t| - 1]);
    }
  }

  lemma EmissionsSingle(x: Effect)
    ensures Emissions([x]) == (if x.Emitted? then [x.emission] else [])
    ensures BondQueries([x]) == (if x == Called(GetBondDeviceNum) then 1 else 0)
  {
    assert [x][..0] == [];
  }

  /** The emissions and bond queries of a two-step trace. */
  lemma EmissionsPair(x: Effect, y: Effect)
    ensures Emissions([x, y]) == (if x.Emitted? then [x.emission] else []) + (if y.Emitted? then [y.emission] else [])
    ensures BondQueries([x, y]) ==
      (if x == Called(GetBondDeviceNum) then 1 else 0) + (if y == Called(GetBondDeviceNum) then 1 else 0)
  {
    assert [x, y][..1] == [x];
    EmissionsSingle(x);
  }

  /** The emissions and bond queries of consecutive traces. */
  lemma EffectsAppend(a: seq<Effect>, b: seq<Effect>)
    ensures Emissions(a + b) == Emissions(a) + Emissions(b)
    ensures BondQueries(a + b) == BondQueries(a) + BondQueries(b)
  {
    EmissionsAppend(a, b);
    BondQueriesAppend(a, b);
  }

  // ---------------------------------------------------------------------------
  // The bond listing both extract_irk_data and clear_all_bonds begin with

  /** How asking the stack for its bonds can end, as the stack and the
      allocator decide. */
  datatype Listing =
    | NoBonds                                // the count is 0
    | AllocFailed                            // malloc of the enumeration buffer failed
    | ListFailed                             // the list query returned an error
    | Listed(records: seq<BondRecord>)       // the list query returned these records

  /** Which listings a bond store allows: the count query reports the whole
      store, and a successful listing of that many records returns all of it. */
  predicate ListingOf(bonds: seq<BondRecord>, o: Listing)
  {
    match o
    case NoBonds => |bonds| == 0
    case AllocFailed => |bonds| > 0
    case ListFailed => |bonds| > 0
    case Listed(rs) => |bonds| > 0 && rs == bonds
  }

  /** The calls of a listing that saw `n` bonds: the count, then the list
      query unless the count was 0 or the buffer could not be allocated. */
  function ListingTrace(n: int, o: Listing): seq<Effect>
  {
    if o.NoBonds? || o.AllocFailed? then [Called(GetBondDeviceNum)]
    else [Called(GetBondDeviceNum), Called(GetBondDeviceList(n))]
  }

  /** A listing asks for the count once and emits nothing. */
  lemma ListingQuiet(n: int, o: Listing)
    ensures Emissions(ListingTrace(n, o)) == []
    ensures BondQueries(ListingTrace(n, o)) == 1
  {
    var head := [Called(GetBondDeviceNum)];
    EmissionsSingle(Called(GetBondDeviceNum));
    if o.ListFailed? || o.Listed? {
      var list := [Called(GetBondDeviceList(n))];
      EmissionsSingle(Called(GetBondDeviceList(n)));
      EmissionsAppend(head, list);
      BondQueriesAppend(head, list);
      assert ListingTrace(n, o) == head + list;
    }
  }

  // ---------------------------------------------------------------------------
  // extract_irk_data

  /** What an extraction emits: ON_IRK_EXTRACTED with the listed count taken
      modulo 2^16 after a listing, and nothing otherwise. */
  function ExtractEmissions(o: Listing): seq<Emission>
  {
    if o.Listed? then [IrkExtracted(ToUint16(|o.records|))] else []
  }

  /** The effects of one extraction that saw `n` bonds. */
  function ExtractTrace(n: int, o: Listing): seq<Effect>
  {
    ListingTrace(n, o) + (if o.Listed? then [Emitted(IrkExtracted(ToUint16(|o.records|)))] else [])
  }

  /** The table left behind: rebuilt from the listing, or empty, because it is
      cleared before the count is asked for. */
  function TableAfterExtract(o: Listing): seq<DeviceIrkInfo>
  {
    if o.Listed? then BuildTable(o.records) else []
  }

  /** The sensors are pushed new values when there were no bonds and after a
      listing, but not after an allocation or listing failure. */
  predicate RefreshesSensors(o: Listing)
  {
    o.NoBonds? || o.Listed?
  }

  /** An extraction asks for the bond count once, and emits ON_IRK_EXTRACTED
      exactly when the listing succeeded, with the listed count (exactly, below
      2^16); so with no bonds, or after a failure, it emits nothing. */
  lemma ExtractEmits(n: int, o: Listing)
    ensures Emissions(ExtractTrace(n, o)) == ExtractEmissions(o)
    ensures ExtractEmissions(o) == (if o.Listed? then [IrkExtracted(ToUint16(|o.records|))] else [])
    ensures o.Listed? && |o.records| < 0x1_0000 ==> ExtractEmissions(o)[0].count == |o.records|
    ensures BondQueries(ExtractTrace(n, o)) == 1
  {
    ListingQuiet(n, o);
    var tail := if o.Listed? then [Emitted(IrkExtracted(ToUint16(|o.records|)))] else [];
    if o.Listed? {
      EmissionsSingle(tail[0]);
    }
    EmissionsAppend(ListingTrace(n, o), tail);
    BondQueriesAppend(ListingTrace(n, o), tail);
  }

  /** What the subscribers receive for an extraction: the one dispatch of
      ON_IRK_EXTRACTED after a listing, and nothing otherwise. */
  lemma ExtractDelivers(listeners: seq<Trigger>, o: Listing)
    ensures Deliver(listeners, ExtractEmissions(o)) ==
      (if o.Listed? then Dispatch(listeners, IrkExtracted(ToUint16(|o.records|))) else [])
  {
    if o.Listed? {
      DeliverOne(listeners, IrkExtracted(ToUint16(|o.records|)));
    }
  }

  /** After an extraction the table holds one consistent record per listed bond,
      in list order, with that bond's address and key. */
  lemma ExtractTable(o: Listing)
    ensures |TableAfterExtract(o)| == (if o.Listed? then |o.records| else 0)
    ensures o.Listed? ==> forall i :: 0 <= i < |o.records| ==>
      && TableAfterExtract(o)[i].bdAddr == o.records[i].bdAddr
      && TableAfterExtract(o)[i].irk == o.records[i].irk
    ensures forall d :: d in TableAfterExtract(o) ==> Consistent(d)
  {
    if o.Listed? {
      BuildTableAt(o.records);
    }
  }

  // ---------------------------------------------------------------------------
  // clear_all_bonds

  /** What a bulk delete emits: ON_BOND_CLEARED once when it got a listing. */
  function ClearEmissions(o: Listing): seq<Emission>
  {
    if o.Listed? then [BondCleared()] else []
  }

  /** One removal request per listed record, whatever each request returns. */
  function RemovalOf(r: BondRecord): Effect
  {
    Called(RemoveBondDevice(r.bdAddr))
  }

  function RemovalTrace(rs: seq<BondRecord>): seq<Effect>
  {
    PushAll(RemovalOf, rs)
  }

  /** The effects of one bulk delete that saw `n` bonds. */
  function ClearTrace(n: int, o: Listing): seq<Effect>
  {
    if o.Listed? then ListingTrace(n, o) + RemovalTrace(o.records) + [Emitted(BondCleared())]
    else ListingTrace(n, o)
  }

  /** A bulk delete that got its listing requests the removal of every listed
      address, in list order, between the list query and the ON_BOND_CLEARED
      emission. */
  lemma ClearRemovesEveryBond(n: int, rs: seq<BondRecord>)
    ensures |ClearTrace(n, Listed(rs))| == |rs| + 3
    ensures ClearTrace(n, Listed(rs))[1] == Called(GetBondDeviceList(n))
    ensures forall i :: 0 <= i < |rs| ==> ClearTrace(n, Listed(rs))[2 + i] == Called(RemoveBondDevice(rs[i].bdAddr))
    ensures ClearTrace(n, Listed(rs))[|rs| + 2] == Emitted(BondCleared())
  {
    PushAllAt(RemovalOf, rs);
  }

  /** A bulk delete asks for the count once and emits ON_BOND_CLEARED exactly
      once when it got its listing, and nothing otherwise. */
  lemma ClearEmits(n: int, o: Listing)
    ensures Emissions(ClearTrace(n, o)) == ClearEmissions(o)
    ensures ClearEmissions(o) == (if o.Listed? then [BondCleared()] else [])
    ensures BondQueries(ClearTrace(n, o)) == 1
  {
    ListingQuiet(n, o);
    if o.Listed? {
      var l, r, e := ListingTrace(n, o), RemovalTrace(o.records), [Emitted(BondCleared())];
      RemovalsQuiet(o.records);
      EmissionsSingle(e[0]);
      EffectsAppend(l, r);
      EffectsAppend(l + r, e);
      assert ClearTrace(n, o) == l + r + e;
    }
  }

  /** Removal requests emit nothing and make no bond query. */
  lemma RemovalsQuiet(rs: seq<BondRecord>)
    ensures Emissions(RemovalTrace(rs)) == []
    ensures BondQueries(RemovalTrace(rs)) == 0
  {
    var r := RemovalTrace(rs);
    PushAllAt(RemovalOf, rs);
    EmissionsOfCalls(r);
    BondQueriesNone(r);
  }

  // ---------------------------------------------------------------------------
  // The security-event reactor

  /** The GAP events the handler distinguishes, with the parameters it reads. */
  datatype GapEvent =
    | SecurityRequest(bdAddr: Address)
    | NumericComparisonRequest(bdAddr: Address, passkey: int)
    | PasskeyNotification(bdAddr: Address, passkey: int)
    | PasskeyRequest(bdAddr: Address)
    | AuthComplete(bdAddr: Address, addrType: uint8, success: bool, failReason: uint8)
    | RemoveBondDevComplete(status: int)
    | OtherGapEvent(code: int)

  /** The GATT-server events the handler distinguishes. */
  datatype GattsEvent =
    | GattsConnect(remoteBda: Address)
    | GattsDisconnect(reason: int)
    | OtherGattsEvent(code: int)

  /** The immediate response to a GAP event, before any extraction it triggers. */
  function GapEffects(e: GapEvent): seq<Effect>
  {
    match e
    case SecurityRequest(a) => [Called(SecurityRsp(a, true))]
    case NumericComparisonRequest(a, _) => [Called(ConfirmReply(a, true))]
    case PasskeyNotification(_, _) => []
    case PasskeyRequest(a) => [Called(PasskeyReply(a, true, STATIC_PASSKEY))]
    case AuthComplete(a, _, s, r) => [Emitted(PairingComplete(FormatAddress(a), s, if s then 0 else r))]
    case RemoveBondDevComplete(_) => []
    case OtherGapEvent(_) => []
  }

  /** What the immediate response to a GAP event emits. */
  function GapEmissions(e: GapEvent): seq<Emission>
  {
    if e.AuthComplete? then [PairingComplete(FormatAddress(e.bdAddr), e.success, if e.success then 0 else e.failReason)] else []
  }

  /** Whether a GAP event is followed by an extraction. */
  predicate ExtractsAfter(e: GapEvent, autoExtract: bool)
  {
    (e.AuthComplete? && e.success && autoExtract) || e.RemoveBondDevComplete?
  }

  /** The response to a GATT-server event. */
  function GattsEffects(e: GattsEvent): seq<Effect>
  {
    match e
    case GattsConnect(a) => [Emitted(PairingStarted(FormatAddress(a))), Called(SetEncryption(a, EncryptMitm))]
    case GattsDisconnect(_) => []
    case OtherGattsEvent(_) => []
  }

  /** What the response to a GATT-server event emits. */
  function GattsEmissions(e: GattsEvent): seq<Emission>
  {
    if e.GattsConnect? then [PairingStarted(FormatAddress(e.remoteBda))] else []
  }

  /** The reactor never refuses: a security request is accepted, a numeric
      comparison confirmed and a passkey request answered with the static
      passkey, each by its own call to the requesting peer.  Every other GAP
      event makes no call, and only an authentication-complete event emits,
      once, with reason 0 on success and the stack's failure reason otherwise. */
  lemma GapResponse(e: GapEvent)
    ensures e.SecurityRequest? ==> GapEffects(e) == [Called(SecurityRsp(e.bdAddr, true))]
    ensures e.NumericComparisonRequest? ==> GapEffects(e) == [Called(ConfirmReply(e.bdAddr, true))]
    ensures e.PasskeyRequest? ==> GapEffects(e) == [Called(PasskeyReply(e.bdAddr, true, 123456))]
    ensures !e.SecurityRequest? && !e.NumericComparisonRequest? && !e.PasskeyRequest? ==>
      forall i :: 0 <= i < |GapEffects(e)| ==> GapEffects(e)[i].Emitted?
    ensures Emissions(GapEffects(e)) == GapEmissions(e)
    ensures GapEmissions(e) ==
      (if e.AuthComplete? then [PairingComplete(FormatAddress(e.bdAddr), e.success, if e.success then 0 else e.failReason)] else [])
    ensures BondQueries(GapEffects(e)) == 0
  {
    if |GapEffects(e)| == 1 {
      EmissionsSingle(GapEffects(e)[0]);
    }
  }

  /** Only two GAP events lead to an extraction: a successful authentication
      while auto-extract is on (a failed one never does, whatever the setting),
      and a completed bond removal, always.  The handler's trace then holds
      exactly one extraction (one bond-count query), and otherwise none. */
  lemma GapExtractsOnce(e: GapEvent, autoExtract: bool, n: int, o: Listing)
    ensures e.AuthComplete? ==> (ExtractsAfter(e, autoExtract) <==> e.success && autoExtract)
    ensures e.RemoveBondDevComplete? ==> ExtractsAfter(e, autoExtract)
    ensures !e.AuthComplete? && !e.RemoveBondDevComplete? ==> !ExtractsAfter(e, autoExtract)
    ensures BondQueries(GapEffects(e)) == 0
    ensures BondQueries(GapEffects(e) + ExtractTrace(n, o)) == 1
  {
    GapResponse(e);
    ExtractEmits(n, o);
    BondQueriesAppend(GapEffects(e), ExtractTrace(n, o));
  }

  /** A connection first announces ON_PAIRING_STARTED with the peer's address,
      and only then asks the stack for MITM-protected encryption of that link. */
  lemma GattsResponse(e: GattsEvent)
    ensures e.GattsConnect? ==>
      && Emissions(GattsEffects(e)) == GattsEmissions(e) == [PairingStarted(FormatAddress(e.remoteBda))]
      && |GattsEffects(e)| == 2
      && GattsEffects(e)[0].Emitted? && GattsEffects(e)[1] == Called(SetEncryption(e.remoteBda, EncryptMitm))
    ensures !e.GattsConnect? ==> GattsEffects(e) == []
    ensures BondQueries(GattsEffects(e)) == 0
  {
    if e.GattsConnect? {
      var a := e.remoteBda;
      EmissionsPair(Emitted(PairingStarted(FormatAddress(a))), Called(SetEncryption(a, EncryptMitm)));
    }
  }

  // ---------------------------------------------------------------------------
  // setup

  /** The six security-manager parameters, in the order setup applies them. */
  function SecurityConfigTrace(): seq<Effect>
  {
    [ Called(SetSecurityParam(AuthenReqMode, AUTH_REQ_SC_MITM_BOND as int)),
      Called(SetSecurityParam(MaxKeySize, MAX_KEY_SIZE as int)),
      Called(SetSecurityParam(SetInitKey, ENC_AND_ID_KEY_MASK as int)),
      Called(SetSecurityParam(SetRspKey, ENC_AND_ID_KEY_MASK as int)),
      Called(SetSecurityParam(SetStaticPasskey, STATIC_PASSKEY)),
      Called(SetSecurityParam(OnlyAcceptSpecifiedSecAuth, ONLY_ACCEPT_SPECIFIED_AUTH_DISABLE as int)) ]
  }

  /** The parameter an effect sets, if it sets one. */
  function ParamOf(x: Effect): Option<SecurityParam>
  {
    if x.Called? && x.call.SetSecurityParam? then Some(x.call.param) else None
  }

  /** The value set for parameter `p` in a trace of parameter settings. */
  function ValueSet(t: seq<Effect>, p: SecurityParam): Option<int>
    decreases |t|
  {
    if |t| == 0 then None
    else if ParamOf(t[0]) == Some(p) then Some(t[0].call.value)
    else ValueSet(t[1..], p)
  }

  /** Setup sets every security parameter exactly once and emits nothing; the
      values ask for bonding with MITM protection and secure connections, a
      16-octet key, both encryption and identity keys in both directions, and a
      static passkey equal to the one the reactor answers passkey requests with. */
  lemma SecurityConfiguration(a: Address)
    ensures |SecurityConfigTrace()| == 6
    ensures forall i :: 0 <= i < 6 ==> ParamOf(SecurityConfigTrace()[i]).Some?
    ensures forall i, j :: 0 <= i < j < 6 ==> ParamOf(SecurityConfigTrace()[i]) != ParamOf(SecurityConfigTrace()[j])
    ensures forall p :: ValueSet(SecurityConfigTrace(), p).Some?
    ensures ValueSet(SecurityConfigTrace(), AuthenReqMode) == Some(AUTH_REQ_SC_MITM_BOND as int)
    ensures DecodeAuthReq(AUTH_REQ_SC_MITM_BOND) == AuthReq(true, true, true, false)
    ensures ValueSet(SecurityConfigTrace(), MaxKeySize) == Some(16)
    ensures ValueSet(SecurityConfigTrace(), SetInitKey) == ValueSet(SecurityConfigTrace(), SetRspKey) == Some(ENC_AND_ID_KEY_MASK as int)
    ensures DecodeKeyDistribution(ENC_AND_ID_KEY_MASK) == KeyDistribution(true, true, false, false)
    ensures ValueSet(SecurityConfigTrace(), SetStaticPasskey) == Some(123456)
    ensures GapEffects(PasskeyRequest(a))[0].call.passkey == ValueSet(SecurityConfigTrace(), SetStaticPasskey).value
    ensures ValueSet(SecurityConfigTrace(), OnlyAcceptSpecifiedSecAuth) == Some(0)
    ensures Emissions(SecurityConfigTrace()) == []
    ensures BondQueries(SecurityConfigTrace()) == 0
  {
    var t := SecurityConfigTrace();
    PolicyMeaning();
    assert t[1..][1..][1..][1..][1..] == [t[5]];
    forall p
      ensures ValueSet(t, p).Some?
    {
      match p
      case AuthenReqMode =>
      case MaxKeySize => assert ValueSet(t, p) == ValueSet(t[1..], p);
      case SetInitKey => assert ValueSet(t[1..], p) == ValueSet(t[1..][1..], p);
      case SetRspKey => assert ValueSet(t[1..][1..], p) == ValueSet(t[1..][1..][1..], p);
      case SetStaticPasskey => assert ValueSet(t[1..][1..][1..], p) == ValueSet(t[1..][1..][1..][1..], p);
      case OnlyAcceptSpecifiedSecAuth => assert ValueSet(t[1..][1..][1..][1..], p) == ValueSet([t[5]], p);
    }
    assert ValueSet(t[1..][1..], SetRspKey) == ValueSet(t[1..][1..][1..], SetRspKey);
    assert ValueSet(t[1..][1..][1..], SetStaticPasskey) == ValueSet(t[1..][1..][1..][1..], SetStaticPasskey);
    EmissionsOfCalls(t);
    BondQueriesNone(t);
  }
}
