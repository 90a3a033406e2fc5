/**
 * The component's event vocabulary: the four event kinds, the four text
 * formats a sensor can select, the argument pack of one emission, and the
 * four automation triggers that subscribe to emissions and pass on only the
 * arguments their kind needs.
 */
module Events {
  import opened Bytes

  /** BLEIrkEvt::IrkEvent */
  datatype IrkEvent = OnPairingStarted | OnPairingComplete | OnIrkExtracted | OnBondCleared

  /** IrkFormat */
  datatype IrkFormat = HexFormat | Base64Format | ReverseFormat | AddressFormat

  /** The enumerator value of an event kind; the four kinds are numbered 0..3 without gaps. */
  function EventOrdinal(e: IrkEvent): (n: nat)
    ensures n < 4
    ensures EventOfOrdinal(n) == e
  {
    match e
    case OnPairingStarted => 0
    case OnPairingComplete => 1
    case OnIrkExtracted => 2
    case OnBondCleared => 3
  }

  function EventOfOrdinal(n: nat): IrkEvent
    requires n < 4
  {
    if n == 0 then OnPairingStarted
    else if n == 1 then OnPairingComplete
    else if n == 2 then OnIrkExtracted
    else OnBondCleared
  }

  /** The enumerator value of a format; the four formats are numbered 0..3 without gaps. */
  function FormatOrdinal(f: IrkFormat): (n: nat)
    ensures n < 4
    ensures FormatOfOrdinal(n) == f
  {
    match f
    case HexFormat => 0
    case Base64Format => 1
    case ReverseFormat => 2
    case AddressFormat => 3
  }

  function FormatOfOrdinal(n: nat): IrkFormat
    requires n < 4
  {
    if n == 0 then HexFormat
    else if n == 1 then Base64Format
    else if n == 2 then ReverseFormat
    else AddressFormat
  }

  /** The arguments of one emit_(event, address, success, reason, count) call:
      every emission carries all five, whatever its kind. */
  datatype Emission = Emission(event: IrkEvent, address: string, success: bool, reason: uint8, count: uint16)

  function PairingStarted(address: string): Emission
  {
    Emission(OnPairingStarted, address, false, 0, 0)
  }

  function PairingComplete(address: string, success: bool, reason: uint8): Emission
  {
    Emission(OnPairingComplete, address, success, reason, 0)
  }

  function IrkExtracted(count: uint16): Emission
  {
    Emission(OnIrkExtracted, "", false, 0, count)
  }

  function BondCleared(): Emission
  {
    Emission(OnBondCleared, "", false, 0, 0)
  }

  /** The four automation trigger classes. */
  datatype Trigger = PairingStartedTrigger | PairingCompleteTrigger | ExtractedTrigger | BondClearedTrigger

  /** What a trigger fires with: only the arguments of its own kind. */
  datatype TriggerArgs =
    | StartedArgs(address: string)
    | CompleteArgs(address: string, success: bool, reason: uint8)
    | ExtractedArgs(count: uint16)
    | ClearedArgs

  /** One trigger firing: the subscriber that ran, named by its registration
      index, and the arguments it received. */
  datatype Firing = Fired(subscriber: nat, args: TriggerArgs)

  /** The event kind each trigger's constructor subscribes to. */
  function ListensTo(t: Trigger): IrkEvent
  {
    match t
    case PairingStartedTrigger => OnPairingStarted
    case PairingCompleteTrigger => OnPairingComplete
    case ExtractedTrigger => OnIrkExtracted
    case BondClearedTrigger => OnBondCleared
  }

  /** The subscriber lambda of each trigger: a projection of the emission. */
  function Project(t: Trigger, e: Emission): TriggerArgs
    requires ListensTo(t) == e.event
  {
    match t
    case PairingStartedTrigger => StartedArgs(e.address)
    case PairingCompleteTrigger => CompleteArgs(e.address, e.success, e.reason)
    case ExtractedTrigger => ExtractedArgs(e.count)
    case BondClearedTrigger => ClearedArgs
  }

  /** One emission handed to the registered subscribers of its kind, in registration order. */
  function Dispatch(listeners: seq<Trigger>, e: Emission): seq<Firing>
    decreases |listeners|
  {
    if |listeners| == 0 then []
    else
      var t := listeners[|listeners| - 1];
      Dispatch(listeners[..|listeners| - 1], e) +
        (if ListensTo(t) == e.event then [Fired(|listeners| - 1, Project(t, e))] else [])
  }

  /** A sequence of emissions handed out one after the other. */
  function Deliver(listeners: seq<Trigger>, es: seq<Emission>): seq<Firing>
    decreases |es|
  {
    if |es| == 0 then [] else Deliver(listeners, es[..|es| - 1]) + Dispatch(listeners, es[|es| - 1])
  }

  /** The number of listeners a kind has. */
  function Subscribers(listeners: seq<Trigger>, kind: IrkEvent): nat
    decreases |listeners|
  {
    if |listeners| == 0 then 0
    else Subscribers(listeners[..|listeners| - 1], kind) + (if ListensTo(listeners[|listeners| - 1]) == kind then 1 else 0)
  }

  /** The argument a subscriber of this kind receives, as the trigger classes forward it. */
  predicate Forwards(f: Firing, e: Emission)
  {
    match e.event
    case OnPairingStarted => f.args == StartedArgs(e.address)
    case OnPairingComplete => f.args == CompleteArgs(e.address, e.success, e.reason)
    case OnIrkExtracted => f.args == ExtractedArgs(e.count)
    case OnBondCleared => f.args == ClearedArgs
  }

  /** Every subscriber of the emission's kind fires once, and each firing carries
      exactly the fields of that kind: address for a start, address, success and
      reason for a completion, the count for an extraction, nothing for a clear. */
  lemma {:induction false} DispatchFires(listeners: seq<Trigger>, e: Emission)
    ensures |Dispatch(listeners, e)| == Subscribers(listeners, e.event)
    ensures forall i :: 0 <= i < |Dispatch(listeners, e)| ==> Forwards(Dispatch(listeners, e)[i], e)
    decreases |listeners|
  {
    if |listeners| > 0 {
      DispatchFires(listeners[..|listeners| - 1], e);
    }
  }

  /** The subscribers that fire for an emission are exactly those registered
      for its kind, each once, in increasing registration index, each with its
      own projection of the emission. */
  lemma {:induction false} DispatchInRegistrationOrder(listeners: seq<Trigger>, e: Emission)
    ensures forall k :: 0 <= k < |Dispatch(listeners, e)| ==>
      var i := Dispatch(listeners, e)[k].subscriber;
      && i < |listeners| && ListensTo(listeners[i]) == e.event
      && Dispatch(listeners, e)[k].args == Project(listeners[i], e)
    ensures forall k, m :: 0 <= k < m < |Dispatch(listeners, e)| ==>
      Dispatch(listeners, e)[k].subscriber < Dispatch(listeners, e)[m].subscriber
    ensures forall i :: 0 <= i < |listeners| && ListensTo(listeners[i]) == e.event ==>
      exists k :: 0 <= k < |Dispatch(listeners, e)| && Dispatch(listeners, e)[k].subscriber == i
    decreases |listeners|
  {
    if |listeners| > 0 {
      var n := |listeners|;
      var init := listeners[..n - 1];
      var d, d0 := Dispatch(listeners, e), Dispatch(init, e);
      DispatchInRegistrationOrder(init, e);
      assert d[..|d0|] == d0;
      forall k | 0 <= k < |d0|
        ensures d[k] == d0[k] && d0[k].subscriber < n - 1
        ensures listeners[d0[k].subscriber] == init[d0[k].subscriber]
      {
        assert d[..|d0|][k] == d[k];
      }
      forall i | 0 <= i < n && ListensTo(listeners[i]) == e.event
        ensures exists k :: 0 <= k < |d| && d[k].subscriber == i
      {
        if i < n - 1 {
          assert init[i] == listeners[i];
          var k :| 0 <= k < |d0| && d0[k].subscriber == i;
          assert d[k] == d0[k];
        } else {
          assert d[|d0|].subscriber == i;
        }
      }
    }
  }

  /** Deliveries of consecutive emissions are consecutive. */
  lemma {:induction false} DeliverAppend(listeners: seq<Trigger>, a: seq<Emission>, b: seq<Emission>)
    ensures Deliver(listeners, a + b) == Deliver(listeners, a) + Deliver(listeners, b)
    decreases |b|
  {
    if |b| > 0 {
      var b' := b[..|b| - 1];
      assert (a + b)[..|a + b| - 1] == a + b';
      assert (a + b)[|a + b| - 1] == b[|b| - 1];
      DeliverAppend(listeners, a, b');
    } else {
      assert a + b == a;
    }
  }

  /** A single emission is delivered as one dispatch. */
  lemma DeliverOne(listeners: seq<Trigger>, e: Emission)
    ensures Deliver(listeners, [e]) == Dispatch(listeners, e)
  {
    assert [e][..0] == [];
  }
}
