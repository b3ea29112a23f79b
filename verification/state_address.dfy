/**
 * The address plumbing of the `state` package: the persisted address record
 * and its conversions, the selection of state-server addresses from the
 * manager machines, port suffixing, the accessors built from them, and the
 * single document that holds the API server addresses.
 *
 * The database and the environment configuration are not called: their
 * answers are fields of `State`, the transaction's outcome is a parameter,
 * and `instance.SelectInternalAddress(_, false)` is the `Selector` parameter.
 */
module StateAddress {
  import opened Wrappers
  import Instance
  import Decimal

  /** An error as Go callers see it: its message. */
  datatype Error = Error(message: string)

  const NoStateServerMachinesFound := "no state server machines found"
  const NoStateServerAddressesFound := "no state server machines with addresses found"
  const CannotSetAPIAddresses := "cannot set API addresses: "
  /** The message of the database driver's missing-document error. */
  const NotFound := "not found"

  /** `address`: the persisted form of an `Instance.Address`, field for field. */
  datatype Address = Address(
    value: string,
    addressType: Instance.AddressType,
    networkName: string,
    networkScope: Instance.NetworkScope)

  /** `newAddress`: copies every field of an instance address. */
  function NewAddress(a: Instance.Address): (r: Address)
    ensures r.value == a.value && r.addressType == a.addrType
    ensures r.networkName == a.networkName && r.networkScope == a.networkScope
  {
    Address(a.value, a.addrType, a.networkName, a.networkScope)
  }

  /** `address.InstanceAddress`: copies every field back; it undoes `NewAddress`. */
  function InstanceAddress(addr: Address): (r: Instance.Address)
    ensures r.value == addr.value && r.addrType == addr.addressType
    ensures r.networkName == addr.networkName && r.networkScope == addr.networkScope
    ensures NewAddress(r) == addr
  {
    Instance.Address(addr.value, addr.addressType, addr.networkName, addr.networkScope)
  }

  /** `InstanceAddress` also undoes `NewAddress`: the two are mutual inverses. */
  lemma InstanceAddressRoundTrip(a: Instance.Address)
    ensures InstanceAddress(NewAddress(a)) == a
  {
  }

  /** `addressesToInstanceAddresses`: converts a list position by position. */
  function AddressesToInstanceAddresses(addrs: seq<Address>): (r: seq<Instance.Address>)
    ensures |r| == |addrs|
    ensures forall i :: 0 <= i < |addrs| ==> r[i] == InstanceAddress(addrs[i])
    decreases |addrs|
  {
    if |addrs| == 0 then []
    else [InstanceAddress(addrs[0])] + AddressesToInstanceAddresses(addrs[1..])
  }

  /** `instanceAddressesToAddresses`: converts a list position by position. */
  function InstanceAddressesToAddresses(addrs: seq<Instance.Address>): (r: seq<Address>)
    ensures |r| == |addrs|
    ensures forall i :: 0 <= i < |addrs| ==> r[i] == NewAddress(addrs[i])
    decreases |addrs|
  {
    if |addrs| == 0 then []
    else [NewAddress(addrs[0])] + InstanceAddressesToAddresses(addrs[1..])
  }

  /** Converting a stored list out and back in gives the original list. */
  lemma AddressesRoundTrip(addrs: seq<Address>)
    ensures InstanceAddressesToAddresses(AddressesToInstanceAddresses(addrs)) == addrs
  {
  }

  /** Converting an instance list in and back out gives the original list. */
  lemma InstanceAddressesRoundTrip(addrs: seq<Instance.Address>)
    ensures AddressesToInstanceAddresses(InstanceAddressesToAddresses(addrs)) == addrs
  {
  }

  /** A manager machine's document; only its address list is read. */
  datatype Machine = Machine(addresses: seq<Address>)

  /** `instance.SelectInternalAddress(_, false)`: picks one address, or "" for none. */
  type Selector = seq<Instance.Address> -> string

  /**
   * The address chosen for one machine, "" when there is none: the selector
   * sees exactly the instance addresses that the machine's records stand for.
   */
  function Pick(select: Selector, m: Machine): (r: string)
    ensures forall xs :: InstanceAddressesToAddresses(xs) == m.addresses ==> r == select(xs)
  {
    assert forall xs :: InstanceAddressesToAddresses(xs) == m.addresses ==> AddressesToInstanceAddresses(m.addresses) == xs by {
      forall xs | InstanceAddressesToAddresses(xs) == m.addresses {
        InstanceAddressesRoundTrip(xs);
      }
    }
    select(AddressesToInstanceAddresses(m.addresses))
  }

  /**
   * The loop of `stateServerAddresses`: the machines' non-empty picks, in
   * machine order.
   */
  function SelectedAddresses(select: Selector, ms: seq<Machine>): (r: seq<string>)
    ensures |r| <= |ms|
    ensures forall k :: 0 <= k < |r| ==> r[k] != ""
    decreases |ms|
  {
    if |ms| == 0 then []
    else
      var head := Pick(select, ms[0]);
      (if head != "" then [head] else []) + SelectedAddresses(select, ms[1..])
  }

  /** An address is selected exactly when it is some machine's non-empty pick. */
  lemma {:induction false} SelectedAddressesMembers(select: Selector, ms: seq<Machine>)
    ensures forall a :: a in SelectedAddresses(select, ms) <==>
      a != "" && exists i :: 0 <= i < |ms| && Pick(select, ms[i]) == a
    decreases |ms|
  {
    if |ms| != 0 {
      SelectedAddressesMembers(select, ms[1..]);
      forall a | a != "" && (exists i :: 0 <= i < |ms| && Pick(select, ms[i]) == a)
        ensures a in SelectedAddresses(select, ms)
      {
        var i :| 0 <= i < |ms| && Pick(select, ms[i]) == a;
        if i != 0 {
          assert Pick(select, ms[1..][i - 1]) == a;
        }
      }
    }
  }

  /** Selection works machine by machine: it distributes over concatenation. */
  lemma {:induction false} SelectedAddressesAppend(select: Selector, a: seq<Machine>, b: seq<Machine>)
    ensures SelectedAddresses(select, a + b) == SelectedAddresses(select, a) + SelectedAddresses(select, b)
    decreases |a|
  {
    if |a| == 0 {
      assert a + b == b;
    } else {
      assert (a + b)[1..] == a[1..] + b;
      SelectedAddressesAppend(select, a[1..], b);
    }
  }

  /** One machine contributes its pick when that is non-empty, and nothing otherwise. */
  lemma SelectedAddressesSingle(select: Selector, m: Machine)
    ensures SelectedAddresses(select, [m]) == if Pick(select, m) == "" then [] else [Pick(select, m)]
  {
  }

  /** The environment configuration's two ports. */
  datatype EnvironConfig = EnvironConfig(statePort: int, apiPort: int)

  /**
   * What the state reads from its collaborators: the answer of the query for
   * machines with the manage-environ job, the answer of `EnvironConfig`, and
   * the API addresses document (None when it does not exist).
   */
  datatype State = State(
    managerMachines: Result<seq<Machine>, Error>,
    environConfig: Result<EnvironConfig, Error>,
    apiAddressesDoc: Option<seq<Address>>)

  /** `stateServerAddresses`: one internal address per manager machine that has one. */
  function StateServerAddresses(st: State, select: Selector): (r: Result<seq<string>, Error>)
    ensures st.managerMachines.Failure? ==> r == Failure(st.managerMachines.error)
    ensures st.managerMachines == Success([]) ==> r == Failure(Error(NoStateServerMachinesFound))
    ensures st.managerMachines.Success? && st.managerMachines.value != [] ==>
      var ms := st.managerMachines.value;
      (r.Success? <==> exists i :: 0 <= i < |ms| && Pick(select, ms[i]) != "") &&
      (r.Failure? ==> r.error == Error(NoStateServerAddressesFound))
    ensures r.Success? ==>
      && st.managerMachines.Success?
      && r.value == SelectedAddresses(select, st.managerMachines.value)
      && 0 < |r.value| <= |st.managerMachines.value|
      && forall k :: 0 <= k < |r.value| ==> r.value[k] != ""
  {
    match st.managerMachines
    case Failure(e) => Failure(e)
    case Success(ms) =>
      if |ms| == 0 then Failure(Error(NoStateServerMachinesFound))
      else
        var addrs := SelectedAddresses(select, ms);
        SelectedAddressesMembers(select, ms);
        assert forall i :: 0 <= i < |ms| ==> Pick(select, ms[i]) == "" || Pick(select, ms[i]) in addrs;
        if |addrs| == 0 then Failure(Error(NoStateServerAddressesFound))
        else
          assert addrs[0] in addrs;
          Success(addrs)
  }

  /** The position of the last `c` in `s`, if any. */
  function LastIndexOf(s: string, c: char): (r: Option<nat>)
    ensures r.Some? ==> r.value < |s| && s[r.value] == c
    ensures r.Some? ==> forall j :: r.value < j < |s| ==> s[j] != c
    ensures r.None? ==> forall j :: 0 <= j < |s| ==> s[j] != c
    decreases |s|
  {
    if |s| == 0 then None
    else if s[|s| - 1] == c then Some(|s| - 1)
    else LastIndexOf(s[..|s| - 1], c)
  }

  /** Splits "host:port" at its last colon; the partner of `WithPort`. */
  function SplitPort(s: string): Option<(string, int)> {
    match LastIndexOf(s, ':')
    case None => None
    case Some(i) =>
      match Decimal.Parse(s[i + 1..])
      case None => None
      case Some(port) => Some((s[..i], port))
  }

  /** A host, a colon and a rendered port split back into that host and port, even when the host holds colons. */
  lemma SplitWithPort(host: string, port: int)
    ensures SplitPort(host + ":" + Decimal.Format(port)) == Some((host, port))
  {
    var digits := Decimal.Format(port);
    var s := host + ":" + digits;
    assert s[|host|] == ':';
    assert forall j :: |host| < j < |s| ==> s[j] == digits[j - |host| - 1];
    var i := LastIndexOf(s, ':');
    assert i == Some(|host|);
    assert s[|host| + 1..] == digits;
    assert s[..|host|] == host;
    Decimal.ParseFormat(port);
  }

  /** `fmt.Sprintf("%s:%d", host, port)`: the host and the port can be read back from it. */
  function WithPort(host: string, port: int): (r: string)
    ensures SplitPort(r) == Some((host, port))
  {
    SplitWithPort(host, port);
    host + ":" + Decimal.Format(port)
  }

  /** Whatever splits is exactly the `WithPort` of its parts, so `WithPort` and `SplitPort` are inverses. */
  lemma JoinSplitPort(s: string, host: string, port: int)
    requires SplitPort(s) == Some((host, port))
    ensures WithPort(host, port) == s
  {
    var i := LastIndexOf(s, ':').value;
    var tail := s[i + 1..];
    Decimal.FormatParse(tail);
    assert s == s[..i] + ":" + tail;
  }

  /** Different hosts or different ports never give the same `host:port` text. */
  lemma WithPortInjective(h1: string, p1: int, h2: string, p2: int)
    ensures WithPort(h1, p1) == WithPort(h2, p2) <==> h1 == h2 && p1 == p2
  {
  }

  /** `appendPort`: a new list whose i-th entry is the i-th address with the port appended. */
  function AppendPort(addrs: seq<string>, port: int): (r: seq<string>)
    ensures |r| == |addrs|
    ensures forall i :: 0 <= i < |addrs| ==> r[i] == WithPort(addrs[i], port)
    decreases |addrs|
  {
    if |addrs| == 0 then []
    else [WithPort(addrs[0], port)] + AppendPort(addrs[1..], port)
  }

  /** Every entry of `AppendPort` splits back into the original address and the port. */
  lemma AppendPortSplits(addrs: seq<string>, port: int)
    ensures forall i :: 0 <= i < |addrs| ==> SplitPort(AppendPort(addrs, port)[i]) == Some((addrs[i], port))
  {
  }

  /** `Addresses`: the state-server addresses with the state port. */
  function Addresses(st: State, select: Selector): (r: Result<seq<string>, Error>)
    ensures StateServerAddresses(st, select).Failure? ==> r == Failure(StateServerAddresses(st, select).error)
    ensures StateServerAddresses(st, select).Success? && st.environConfig.Failure? ==>
      r == Failure(st.environConfig.error)
    ensures r.Success? ==>
      && StateServerAddresses(st, select).Success?
      && st.environConfig.Success?
      && |r.value| == |StateServerAddresses(st, select).value|
  {
    match StateServerAddresses(st, select)
    case Failure(e) => Failure(e)
    case Success(addrs) =>
      match st.environConfig
      case Failure(e) => Failure(e)
      case Success(config) => Success(AppendPort(addrs, config.statePort))
  }

  /** `APIAddressesFromMachines`: the state-server addresses with the API port. */
  function APIAddressesFromMachines(st: State, select: Selector): (r: Result<seq<string>, Error>)
    ensures StateServerAddresses(st, select).Failure? ==> r == Failure(StateServerAddresses(st, select).error)
    ensures StateServerAddresses(st, select).Success? && st.environConfig.Failure? ==>
      r == Failure(st.environConfig.error)
    ensures r.Success? ==>
      && StateServerAddresses(st, select).Success?
      && st.environConfig.Success?
      && |r.value| == |StateServerAddresses(st, select).value|
  {
    match StateServerAddresses(st, select)
    case Failure(e) => Failure(e)
    case Success(addrs) =>
      match st.environConfig
      case Failure(e) => Failure(e)
      case Success(config) => Success(AppendPort(addrs, config.apiPort))
  }

  /** Each entry of `Addresses` is a state-server address followed by the state port. */
  lemma AddressesCarryStatePort(st: State, select: Selector)
    ensures Addresses(st, select).Success? ==>
      var servers := StateServerAddresses(st, select).value;
      var r := Addresses(st, select).value;
      0 < |r| && forall i :: 0 <= i < |r| ==>
        && r[i] == servers[i] + ":" + Decimal.Format(st.environConfig.value.statePort)
        && SplitPort(r[i]) == Some((servers[i], st.environConfig.value.statePort))
  {
    if Addresses(st, select).Success? {
      AppendPortSplits(StateServerAddresses(st, select).value, st.environConfig.value.statePort);
    }
  }

  /** Each entry of `APIAddressesFromMachines` is a state-server address followed by the API port. */
  lemma APIAddressesCarryAPIPort(st: State, select: Selector)
    ensures APIAddressesFromMachines(st, select).Success? ==>
      var servers := StateServerAddresses(st, select).value;
      var r := APIAddressesFromMachines(st, select).value;
      0 < |r| && forall i :: 0 <= i < |r| ==>
        && r[i] == servers[i] + ":" + Decimal.Format(st.environConfig.value.apiPort)
        && SplitPort(r[i]) == Some((servers[i], st.environConfig.value.apiPort))
  {
    if APIAddressesFromMachines(st, select).Success? {
      AppendPortSplits(StateServerAddresses(st, select).value, st.environConfig.value.apiPort);
    }
  }

  /** `DeployerConnectionValues`. */
  datatype DeployerConnectionValues = DeployerConnectionValues(
    stateAddresses: seq<string>,
    apiAddresses: seq<string>)

  /** `DeployerConnectionInfo`: both address lists from a single lookup. */
  function DeployerConnectionInfo(st: State, select: Selector): (r: Result<DeployerConnectionValues, Error>)
    ensures r.Failure? <==> Addresses(st, select).Failure?
    ensures r.Failure? ==>
      Addresses(st, select) == Failure(r.error) && APIAddressesFromMachines(st, select) == Failure(r.error)
    ensures r.Success? ==>
      Addresses(st, select) == Success(r.value.stateAddresses) &&
      APIAddressesFromMachines(st, select) == Success(r.value.apiAddresses)
    ensures r.Success? ==> |r.value.stateAddresses| == |r.value.apiAddresses|
  {
    match StateServerAddresses(st, select)
    case Failure(e) => Failure(e)
    case Success(addrs) =>
      match st.environConfig
      case Failure(e) => Failure(e)
      case Success(config) =>
        Success(DeployerConnectionValues(
          AppendPort(addrs, config.statePort),
          AppendPort(addrs, config.apiPort)))
  }

  /**
   * The deployer's two lists differ only in the port: entries at the same
   * position split into the same host, with the state and API port
   * respectively.
   */
  lemma DeployerEntriesDifferOnlyInPort(st: State, select: Selector, i: nat)
    requires st.managerMachines.Success? && st.environConfig.Success?
    requires i < |SelectedAddresses(select, st.managerMachines.value)|
    ensures DeployerConnectionInfo(st, select).Success?
    ensures
      var v := DeployerConnectionInfo(st, select).value;
      var config := st.environConfig.value;
      && i < |v.apiAddresses|
      && SplitPort(v.stateAddresses[i]).Some?
      && SplitPort(v.apiAddresses[i]).Some?
      && SplitPort(v.stateAddresses[i]).value.0 == SplitPort(v.apiAddresses[i]).value.0
      && SplitPort(v.stateAddresses[i]).value.1 == config.statePort
      && SplitPort(v.apiAddresses[i]).value.1 == config.apiPort
  {
  }

  /** With different ports, a state entry never equals the API entry at the same position. */
  lemma DeployerEntriesDistinctPorts(st: State, select: Selector, i: nat)
    requires st.managerMachines.Success? && st.environConfig.Success?
    requires i < |SelectedAddresses(select, st.managerMachines.value)|
    requires st.environConfig.value.statePort != st.environConfig.value.apiPort
    ensures DeployerConnectionInfo(st, select).Success?
    ensures
      var v := DeployerConnectionInfo(st, select).value;
      i < |v.apiAddresses| && v.stateAddresses[i] != v.apiAddresses[i]
  {
  }

  /** `APIAddresses`: reads the API addresses document back as instance addresses. */
  function APIAddresses(st: State): (r: Result<seq<Instance.Address>, Error>)
    ensures st.apiAddressesDoc.None? ==> r == Failure(Error(NotFound))
    ensures st.apiAddressesDoc.Some? ==>
      r.Success? && InstanceAddressesToAddresses(r.value) == st.apiAddressesDoc.value
  {
    match st.apiAddressesDoc
    case None => Failure(Error(NotFound))
    case Some(doc) => Success(AddressesToInstanceAddresses(doc))
  }

  /**
   * `SetAPIAddresses` as intended: stores the addresses in the API
   * addresses document by a transaction whose outcome is `txn`, inserting
   * the document when it is missing (the comment at state/address.go:135-137).
   * On success the new state is returned; nothing but the document changes.
   */
  function SetAPIAddresses(st: State, addrs: seq<Instance.Address>, txn: Outcome<Error>): (r: Result<State, Error>)
    ensures txn.Fail? ==> r == Failure(Error(CannotSetAPIAddresses + txn.error.message))
    ensures txn.Pass? ==>
      && r.Success?
      && r.value.managerMachines == st.managerMachines
      && r.value.environConfig == st.environConfig
      && r.value.apiAddressesDoc.Some?
  {
    match txn
    case Fail(e) => Failure(Error(CannotSetAPIAddresses + e.message))
    case Pass => Success(st.(apiAddressesDoc := Some(InstanceAddressesToAddresses(addrs))))
  }

  /** A successful `SetAPIAddresses` followed by `APIAddresses` returns exactly what was set. */
  lemma SetThenGetAPIAddresses(st: State, addrs: seq<Instance.Address>)
    ensures SetAPIAddresses(st, addrs, Pass).Success?
    ensures APIAddresses(SetAPIAddresses(st, addrs, Pass).value) == Success(addrs)
  {
    InstanceAddressesRoundTrip(addrs);
  }

  /** Setting the addresses does not change what the machine-derived accessors return. */
  lemma SetAPIAddressesKeepsServerAddresses(st: State, addrs: seq<Instance.Address>, txn: Outcome<Error>, select: Selector)
    ensures SetAPIAddresses(st, addrs, txn).Success? ==>
      var st' := SetAPIAddresses(st, addrs, txn).value;
      && Addresses(st', select) == Addresses(st, select)
      && APIAddressesFromMachines(st', select) == APIAddressesFromMachines(st, select)
  {
  }

  /**
   * `SetAPIAddresses` as the transaction at state/address.go:138-144 is
   * written: one update with `$set` and no insert, which applies only to a
   * document that exists. A successful transaction on a missing document
   * leaves it missing.
   */
  function SetAPIAddressesAsWritten(st: State, addrs: seq<Instance.Address>, txn: Outcome<Error>): (r: Result<State, Error>)
    ensures txn.Fail? ==> r == Failure(Error(CannotSetAPIAddresses + txn.error.message))
    ensures txn.Pass? ==>
      && r.Success?
      && r.value.managerMachines == st.managerMachines
      && r.value.environConfig == st.environConfig
      && (r.value.apiAddressesDoc.Some? <==> st.apiAddressesDoc.Some?)
  {
    match txn
    case Fail(e) => Failure(Error(CannotSetAPIAddresses + e.message))
    case Pass =>
      if st.apiAddressesDoc.None? then Success(st)
      else Success(st.(apiAddressesDoc := Some(InstanceAddressesToAddresses(addrs))))
  }

  /**
   * On a missing document the written transaction reports success, yet a
   * following `APIAddresses` still fails with "not found".
   */
  lemma SetAsWrittenLosesMissingDocument(st: State, addrs: seq<Instance.Address>)
    requires st.apiAddressesDoc.None?
    ensures SetAPIAddressesAsWritten(st, addrs, Pass).Success?
    ensures APIAddresses(SetAPIAddressesAsWritten(st, addrs, Pass).value) == Failure(Error(NotFound))
  {
  }

  /** Where the document exists, the written and the intended operation agree. */
  lemma SetAsWrittenAgreesOnExistingDocument(st: State, addrs: seq<Instance.Address>, txn: Outcome<Error>)
    requires st.apiAddressesDoc.Some?
    ensures SetAPIAddressesAsWritten(st, addrs, txn) == SetAPIAddresses(st, addrs, txn)
  {
  }
}
