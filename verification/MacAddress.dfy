/**
 * The MAC-address node identifier: a 6-byte hardware address, validated once
 * and folded into a 48-bit big-endian value on every `get()`.
 *
 * The operating system's interface list is a parameter: a sequence of
 * interface records in enumeration order.
 */
module MacAddress {
  import opened Wrappers
  import opened Bytes

  const MAC_ADDRESS_LEN := 6

  datatype NodeError =
    | NullAddress                  // Objects.requireNonNull fails
    | InvalidAddress               // IllegalArgumentException("Invalid MAC address")
    | NoViableAddress              // IllegalStateException("No viable MAC address found")
    | InterfaceNotFound(name: string)  // IllegalStateException("Cannot get MAC address from interface ...")

  /** What the model keeps of a java.net.NetworkInterface. */
  datatype NetworkInterface = NetworkInterface(name: string, loopback: bool, up: bool, hardwareAddress: seq<Byte>)

  predicate Viable(nic: NetworkInterface) {
    !nic.loopback && nic.up
  }

  /** The identifier holds its (final, never written) address. */
  datatype MacAddressNodeIdentifier = MacAddressNodeIdentifier(macAddress: seq<Byte>)
  {
    ghost predicate Valid() {
      |macAddress| == MAC_ADDRESS_LEN
    }

    /** Folds the six bytes, most significant first, into one value below 2^48. */
    method Get() returns (macAsLong: int)
      requires Valid()
      ensures macAsLong == FromBigEndian(macAddress)
      ensures 0 <= macAsLong < 0x1_0000_0000_0000
    {
      macAsLong := 0;
      for i := 0 to MAC_ADDRESS_LEN
        invariant macAsLong == FromBigEndian(macAddress[..i]) * Pow256(MAC_ADDRESS_LEN - i)
      {
        // `(b & 0xFF) << (5 - i) * 8` lands on bits that are still zero in
        // macAsLong, so the bitwise OR adds it.
        FoldStep(macAddress, i);
        macAsLong := macAsLong + macAddress[i] * Pow256(MAC_ADDRESS_LEN - 1 - i);
      }
      assert macAddress[..MAC_ADDRESS_LEN] == macAddress;
    }
  }

  /** One step of get()'s loop: adding byte i at weight 256^(5-i) extends the folded prefix by one byte. */
  lemma FoldStep(mac: seq<Byte>, i: nat)
    requires i < |mac| == MAC_ADDRESS_LEN
    ensures FromBigEndian(mac[..i]) * Pow256(MAC_ADDRESS_LEN - i) + mac[i] * Pow256(MAC_ADDRESS_LEN - 1 - i)
      == FromBigEndian(mac[..i + 1]) * Pow256(MAC_ADDRESS_LEN - 1 - i)
  {
    var p := Pow256(MAC_ADDRESS_LEN - 1 - i);
    var prefix := FromBigEndian(mac[..i]);
    assert FromBigEndian(mac[..i + 1]) == prefix * 256 + mac[i] by {
      assert mac[..i + 1][..i] == mac[..i];
    }
    assert Pow256(MAC_ADDRESS_LEN - i) == 256 * p;
    ShiftIn(prefix, mac[i], p);
  }

  /** Shifting a prefix one byte further left and adding the next byte at weight p. */
  lemma ShiftIn(prefix: int, b: int, p: int)
    ensures prefix * (256 * p) + b * p == (prefix * 256 + b) * p
  {
  }

  /** The private newInstance(byte[]): rejects a null address and any length but six. */
  function FromAddress(macAddress: Option<seq<Byte>>): (r: Result<MacAddressNodeIdentifier, NodeError>)
    ensures r.Success? <==> macAddress.Some? && |macAddress.value| == MAC_ADDRESS_LEN
    ensures r.Success? ==> r.value.Valid() && r.value.macAddress == macAddress.value
    ensures macAddress.None? ==> r == Failure(NullAddress)
    ensures macAddress.Some? && |macAddress.value| != MAC_ADDRESS_LEN ==> r == Failure(InvalidAddress)
  {
    match macAddress
    case None => Failure(NullAddress)
    case Some(addr) =>
      if |addr| != MAC_ADDRESS_LEN then Failure(InvalidAddress)
      else Success(MacAddressNodeIdentifier(addr))
  }

  /** The hardware address of the first interface, in enumeration order, that is up and not a loopback. */
  method FindViableMacAddress(nics: seq<NetworkInterface>) returns (r: Option<seq<Byte>>)
    ensures r.None? <==> forall i :: 0 <= i < |nics| ==> !Viable(nics[i])
    ensures r.Some? ==>
      exists i :: 0 <= i < |nics| && Viable(nics[i]) && r.value == nics[i].hardwareAddress &&
        forall j :: 0 <= j < i ==> !Viable(nics[j])
  {
    var k := 0;
    while k < |nics|
      invariant 0 <= k <= |nics|
      invariant forall j :: 0 <= j < k ==> !Viable(nics[j])
    {
      var currentNic := nics[k];
      if Viable(currentNic) {
        return Some(currentNic.hardwareAddress);
      }
      k := k + 1;
    }
    return None;
  }

  /** NetworkInterface.getByName: the interface carrying that name, if any. */
  function GetMacAddressFromInterface(nics: seq<NetworkInterface>, name: string): (r: Option<seq<Byte>>)
    ensures r.None? <==> forall i :: 0 <= i < |nics| ==> nics[i].name != name
    ensures r.Some? ==> exists i :: 0 <= i < |nics| && nics[i].name == name && r.value == nics[i].hardwareAddress
  {
    if nics == [] then None
    else if nics[0].name == name then Some(nics[0].hardwareAddress)
    else
      var r := GetMacAddressFromInterface(nics[1..], name);
      assert forall i :: 1 <= i < |nics| ==> nics[i] == nics[1..][i - 1];
      r
  }

  /** newInstance(): the first viable interface's address, or NoViableAddress when there is none. */
  method NewInstance(nics: seq<NetworkInterface>) returns (r: Result<MacAddressNodeIdentifier, NodeError>)
    ensures r.Failure? <==>
      (forall i :: 0 <= i < |nics| ==> !Viable(nics[i])) ||
      (exists i :: 0 <= i < |nics| && Viable(nics[i]) && |nics[i].hardwareAddress| != MAC_ADDRESS_LEN &&
        forall j :: 0 <= j < i ==> !Viable(nics[j]))
    ensures (forall i :: 0 <= i < |nics| ==> !Viable(nics[i])) <==> r == Failure(NoViableAddress)
    ensures r.Failure? ==> r.error == NoViableAddress || r.error == InvalidAddress
    ensures r.Success? ==> r.value.Valid()
    ensures r.Success? ==>
      exists i :: 0 <= i < |nics| && Viable(nics[i]) && r.value.macAddress == nics[i].hardwareAddress &&
        forall j :: 0 <= j < i ==> !Viable(nics[j])
  {
    var found := FindViableMacAddress(nics);
    if found.None? {
      return Failure(NoViableAddress);
    }
    r := FromAddress(found);
  }

  /** newInstance(String): the named interface's address, or InterfaceNotFound when it is absent. */
  function NewInstanceByName(nics: seq<NetworkInterface>, name: string): (r: Result<MacAddressNodeIdentifier, NodeError>)
    ensures (forall i :: 0 <= i < |nics| ==> nics[i].name != name) <==> r == Failure(InterfaceNotFound(name))
    ensures r.Success? <==>
      GetMacAddressFromInterface(nics, name).Some? &&
      |GetMacAddressFromInterface(nics, name).value| == MAC_ADDRESS_LEN
    ensures r.Failure? ==> r.error == InterfaceNotFound(name) || r.error == InvalidAddress
    ensures r.Success? ==> r.value.Valid()
    ensures r.Success? ==>
      exists i :: 0 <= i < |nics| && nics[i].name == name && r.value.macAddress == nics[i].hardwareAddress
  {
    match GetMacAddressFromInterface(nics, name)
    case None => Failure(InterfaceNotFound(name))
    case Some(addr) => FromAddress(Some(addr))
  }

  /** Distinct addresses give distinct node values. */
  lemma GetInjective(a: MacAddressNodeIdentifier, b: MacAddressNodeIdentifier)
    requires a.Valid() && b.Valid() && a.macAddress != b.macAddress
    ensures FromBigEndian(a.macAddress) != FromBigEndian(b.macAddress)
  {
    if FromBigEndian(a.macAddress) == FromBigEndian(b.macAddress) {
      FromBigEndianInjective(a.macAddress, b.macAddress);
    }
  }
}
