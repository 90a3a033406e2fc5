/**
 * The BLE host stack as the IRK component sees it: a bond store it can
 * query, and calls whose status it may or may not check.  The stack is a
 * collaborator whose internals are not modelled: every status is a
 * nondeterministic choice.  Removing a bond is queued by the stack and takes
 * effect later (announced by a remove-bond-complete event), so none of the
 * calls changes the store while the component runs.
 */
module Bluedroid {
  import opened Bytes

  /** The part of esp_ble_bond_dev_t the component reads: bd_addr and bond_key.pid_key.irk. */
  datatype BondRecord = BondRecord(bdAddr: Address, irk: Irk)

  /** The security-manager parameters set through esp_ble_gap_set_security_param. */
  datatype SecurityParam =
    | AuthenReqMode
    | MaxKeySize
    | SetInitKey
    | SetRspKey
    | SetStaticPasskey
    | OnlyAcceptSpecifiedSecAuth

  /** esp_ble_sec_act_t */
  datatype SecAct = Encrypt | EncryptNoMitm | EncryptMitm

  /** A call the component makes into the stack, with its arguments. */
  datatype StackCall =
    | SetSecurityParam(param: SecurityParam, value: int)
    | SetEncryption(bdAddr: Address, action: SecAct)
    | SecurityRsp(bdAddr: Address, accept: bool)
    | ConfirmReply(bdAddr: Address, accept: bool)
    | PasskeyReply(bdAddr: Address, accept: bool, passkey: int)
    | GetBondDeviceNum
    | GetBondDeviceList(devNum: int)
    | RemoveBondDevice(bdAddr: Address)

  // The octet layouts below are those of the AuthReq and key-distribution
  // fields of the Pairing Request/Response (Bluetooth Core Specification,
  // Vol 3, Part H, sections 3.5.1 and 3.6.1).

  /** ESP_LE_AUTH_REQ_SC_MITM_BOND: bonding flags 01, MITM bit 2, SC bit 3. */
  const AUTH_REQ_SC_MITM_BOND: uint8 := 0x0D

  /** The largest encryption key size, in octets. */
  const MAX_KEY_SIZE: uint8 := 16

  /** ESP_BLE_ENC_KEY_MASK | ESP_BLE_ID_KEY_MASK: EncKey bit 0, IdKey bit 1. */
  const ENC_AND_ID_KEY_MASK: uint8 := 0x03

  /** The static passkey, set at setup and sent on every passkey request. */
  const STATIC_PASSKEY: int := 123456

  /** ESP_BLE_ONLY_ACCEPT_SPECIFIED_AUTH_DISABLE */
  const ONLY_ACCEPT_SPECIFIED_AUTH_DISABLE: uint8 := 0

  /** The meaning of an AuthReq octet. */
  datatype AuthReq = AuthReq(bonding: bool, mitm: bool, secureConnections: bool, keypress: bool)

  function DecodeAuthReq(octet: uint8): AuthReq
  {
    AuthReq(octet % 4 == 1, (octet / 4) % 2 == 1, (octet / 8) % 2 == 1, (octet / 16) % 2 == 1)
  }

  /** The meaning of a key-distribution octet. */
  datatype KeyDistribution = KeyDistribution(encKey: bool, idKey: bool, signKey: bool, linkKey: bool)

  function DecodeKeyDistribution(octet: uint8): KeyDistribution
  {
    KeyDistribution(octet % 2 == 1, (octet / 2) % 2 == 1, (octet / 4) % 2 == 1, (octet / 8) % 2 == 1)
  }

  /** The authentication requirement asks for bonding, MITM protection and
      secure connections, and both sides distribute encryption and identity keys. */
  lemma PolicyMeaning()
    ensures DecodeAuthReq(AUTH_REQ_SC_MITM_BOND) == AuthReq(true, true, true, false)
    ensures DecodeKeyDistribution(ENC_AND_ID_KEY_MASK) == KeyDistribution(true, true, false, false)
  {
  }

  class Stack {
    /** The persistent bond store, in enumeration order. */
    var bonds: seq<BondRecord>

    constructor (bonds: seq<BondRecord>)
      ensures this.bonds == bonds
    {
      this.bonds := bonds;
    }

    /** esp_ble_get_bond_device_num */
    method GetBondDeviceNum() returns (n: int)
      ensures n == |bonds|
    {
      n := |bonds|;
    }

    /** esp_ble_get_bond_device_list: on success, the first min(devNum, stored)
        records of the store in order; the length of `list` is the dev_num the
        call hands back. */
    method GetBondDeviceList(devNum: int) returns (ok: bool, list: seq<BondRecord>)
      requires devNum >= 0
      ensures ok ==> list == bonds[..if devNum < |bonds| then devNum else |bonds|]
      ensures !ok ==> list == []
    {
      ok :| true;
      list := if ok then bonds[..if devNum < |bonds| then devNum else |bonds|] else [];
    }

    /** Any other call: only its status comes back. */
    method Request(call: StackCall) returns (ok: bool)
    {
      ok :| true;
    }
  }

  /** malloc of the enumeration buffer: it may fail. */
  method Allocate(records: int) returns (ok: bool)
  {
    ok :| true;
  }
}
