# State address plumbing

A Dafny model of the address helpers of juju's `state` package
(`state/address.go`). The helpers:

- convert the persisted `address` record to and from the provider-facing
  `instance.Address`, one value or a whole list at a time;
- pick one internal address per state-server (manager) machine;
- append the state or API port to each address;
- build the `Addresses`, `APIAddressesFromMachines` and
  `DeployerConnectionInfo` accessors from those pieces;
- write and read the single document that holds the API server addresses.

Modules:

- `Wrappers` (`wrappers.dfy`): `Option`, `Result` and `Outcome`. Go's
  `(value, error)` pairs become `Result`.
- `Instance` (`instance.dfy`): `instance.Address`. `AddressType` and
  `NetworkScope` are opaque labels.
- `Decimal` (`decimal.dfy`): the `%d` rendering of an integer, with no
  leading zeros, plus a parser that accepts exactly the texts `%d` writes.
  Each undoes the other.
- `StateAddress` (`state_address.dfy`): everything in `state/address.go`.

The collaborators are inputs rather than calls:

- `State` holds what the database and the configuration would answer:
  - the result of the query for machines with the manage-environ job;
  - the result of `EnvironConfig`, reduced to its two ports;
  - the API addresses document, or `None` when that document does not exist.
- `SetAPIAddresses` takes the transaction's outcome as a parameter. On
  success it returns the new `State`.
- `instance.SelectInternalAddress(addrs, false)` is an arbitrary function,
  the `Selector` parameter, which may return `""`.

Errors are modelled as their messages, because that is how Go callers see
them. The exact strings of the source are kept.

## Model

| member | source | states |
|---|---|---|
| StateAddress.NewAddress | state/address.go:22-30 | each of the four fields of the instance address is copied unchanged into the stored record |
| StateAddress.InstanceAddress | state/address.go:32-40 | each field is copied back unchanged, and `NewAddress` of the result is the original record, so no stored record is lost in the conversion |
| StateAddress.InstanceAddressRoundTrip | state/address.go:22-40 | converting an instance address to a stored record and back gives the original, so the two conversions are mutual inverses |
| StateAddress.AddressesToInstanceAddresses | state/address.go:42-48 | the output has the input's length, and entry i is the conversion of input entry i |
| StateAddress.InstanceAddressesToAddresses | state/address.go:50-56 | the output has the input's length, and entry i is the conversion of input entry i |
| StateAddress.AddressesRoundTrip | state/address.go:42-56 | converting a stored list out and back in returns the original list |
| StateAddress.InstanceAddressesRoundTrip | state/address.go:42-56 | converting an instance list in and back out returns the original list |
| StateAddress.Pick | state/address.go:75-76 | the selector is applied to exactly the instance addresses that the machine's stored records stand for |
| StateAddress.SelectedAddresses | state/address.go:73-80 | the selection loop returns no more entries than there are machines, and never an empty string |
| StateAddress.SelectedAddressesMembers | state/address.go:74-79 | an address is selected exactly when it is the non-empty pick of some machine |
| StateAddress.SelectedAddressesAppend | state/address.go:73-80 | selection distributes over concatenating machine lists, so machine order is kept |
| StateAddress.SelectedAddressesSingle | state/address.go:76-79 | a single machine contributes its pick when that is non-empty, and nothing otherwise |
| StateAddress.StateServerAddresses | state/address.go:60-85 | a query error is returned as it is; no machines gives "no state server machines found"; otherwise the call succeeds exactly when some machine has a non-empty pick, and fails with "no state server machines with addresses found" when none does; success yields the ordered non-empty picks, between 1 and the machine count of them |
| Decimal.NatDigits | state/address.go:90 | the digits of a natural number form a non-empty all-digit string, with a single digit exactly for numbers below ten and a leading zero only for zero itself |
| Decimal.Format | state/address.go:90 | `%d` renders a non-negative number as digits with no leading zero (except "0"), and a negative one as a minus sign followed by such digits starting with a non-zero digit; it never writes a colon |
| Decimal.DigitsValueOfNatDigits | state/address.go:90 | reading the digits of a natural number back gives that number |
| Decimal.ParseFormat | state/address.go:90 | parsing the `%d` rendering of any integer gives that integer back |
| Decimal.NatDigitsOfDigitsValue | state/address.go:90 | digits with no leading zero are exactly the digits of the number they denote |
| Decimal.FormatParse | state/address.go:90 | every text the parser accepts is the `%d` rendering of the number it yields, so the parser accepts no other spelling such as "08" or "-0" |
| Decimal.FormatInjective | state/address.go:90 | two integers render the same exactly when they are equal |
| StateAddress.SplitWithPort | state/address.go:90 | a host, a colon and a rendered port split at the last colon back into that host and port, even when the host contains colons |
| StateAddress.WithPort | state/address.go:90 | the `%s:%d` text of a host and a port splits back into exactly that host and port |
| StateAddress.JoinSplitPort | state/address.go:90 | a text that splits into a host and a port is exactly the `%s:%d` text of that host and port, so joining and splitting are inverses |
| StateAddress.WithPortInjective | state/address.go:90 | two `%s:%d` texts are equal exactly when their hosts and their ports are equal |
| StateAddress.AppendPort | state/address.go:87-93 | the result is a new list of the same length whose entry i is address i, a colon and the decimal port |
| StateAddress.AppendPortSplits | state/address.go:87-93 | every entry of the result splits back into the original address at that position and the port |
| StateAddress.Addresses | state/address.go:97-107 | a server-lookup error, and after it a configuration error, is returned with no result; on success there is one entry per state-server address |
| StateAddress.AddressesCarryStatePort | state/address.go:97-107 | on success the list is non-empty, and entry i is exactly state-server address i, a colon and the `%d` text of the state port, and splits back into those two |
| StateAddress.APIAddressesFromMachines | state/address.go:113-123 | a server-lookup error, and after it a configuration error, is returned with no result; on success there is one entry per state-server address |
| StateAddress.APIAddressesCarryAPIPort | state/address.go:113-123 | on success the list is non-empty, and entry i is exactly state-server address i, a colon and the `%d` text of the API port, and splits back into those two |
| StateAddress.DeployerConnectionInfo | state/address.go:167-180 | it fails exactly when `Addresses` fails, with the same error, and then `APIAddressesFromMachines` fails with that error too; on success its two lists are exactly what those two accessors return, and they have equal length |
| StateAddress.DeployerEntriesDifferOnlyInPort | state/address.go:176-179 | when the machines and the configuration are read and position i holds a selected address, the deployer info succeeds, and its state and API entries at position i split into the same host, with the state port and the API port respectively |
| StateAddress.DeployerEntriesDistinctPorts | state/address.go:176-179 | when additionally the two ports differ, the deployer info succeeds and its state and API entries at position i differ |
| StateAddress.APIAddresses | state/address.go:151-158 | a missing document gives the driver's "not found" error; otherwise the stored list is returned as instance addresses that convert back to exactly the stored records |
| StateAddress.SetAPIAddresses | state/address.go:131-149 | the intended operation: a failed transaction gives an error whose message is "cannot set API addresses: " followed by the transaction's message; a successful one writes the document, inserting it when missing as the comment at lines 135-137 requires, and changes nothing else |
| StateAddress.SetThenGetAPIAddresses | state/address.go:131-158 | a successful `SetAPIAddresses` followed by `APIAddresses` returns exactly the addresses that were set |
| StateAddress.SetAPIAddressesKeepsServerAddresses | state/address.go:131-149 | setting the API addresses does not change what `Addresses` or `APIAddressesFromMachines` return |
| StateAddress.SetAPIAddressesAsWritten | state/address.go:138-148 | the transaction as written: the same error on failure; on success only the machines and configuration are kept, and the document exists afterwards exactly when it existed before |
| StateAddress.SetAsWrittenLosesMissingDocument | state/address.go:135-148 | on a missing document the written transaction succeeds, yet a following `APIAddresses` still fails with "not found" |
| StateAddress.SetAsWrittenAgreesOnExistingDocument | state/address.go:138-148 | where the document exists, the written and the intended operation give the same result |

## Left out

- Database access is not modelled. This covers the machines query, the lookup of the API addresses document, `runTransaction`, and the shape of the `txn.Op` update. Their answers are inputs: fields of `State`, plus the transaction's `Outcome`.
- Read failures of the API addresses document other than a missing document are not modelled. The document is either present or absent.
- The transaction at state/address.go:138-144 is a single `Update` with `$set`. It has no `Insert` and no upsert. The transaction library is not part of this model. Its documented rule is that an update of a missing document is skipped and the transaction continues. `SetAPIAddressesAsWritten` models that rule; see "## Findings".
- `instance.SelectInternalAddress` is foreign code. It is an arbitrary `Selector` function, always used with its `false` argument as the source does.
- `EnvironConfig`, `StatePort` and `APIPort` are configuration I/O. Only the two integer ports are kept.
- Ports are unbounded integers. Go's `int` is 64-bit, but `%d` renders any value the same way, and negative values are modelled too.
- The bson struct tags and `omitempty` serialisation of `address` and `apiAddressesDoc` are not modelled.
- That `appendPort` leaves its input list unmodified needs no clause. Sequences are values in this model.
- environs/interface.go holds only Go interface declarations for providers and environs. It has no behaviour to model.
- The cross-model ingress-subnet resolution of apiserver/remotefirewaller is not part of this model. Only its test is available, not the facade that implements it. The test also does not settle the filtering rule: why `127.0.0.0/0` and `::1/0` are dropped while `10.0.0.0/24` is kept. The subnet watcher is resource plumbing.

## Findings

| source | as written | input that shows it | evidently intended | confidence | as-written member | corrected member |
|---|---|---|---|---|---|---|
| state/address.go:135-144 | the transaction holds only an `Update` with `$set`, so on a missing document it inserts nothing and still succeeds | a state with no API addresses document (an old environment) and a transaction that passes: `SetAPIAddresses` returns nil, and `APIAddresses` then fails with "not found" | insert the document when it is missing, as the comment at lines 135-137 says, so that a following `APIAddresses` returns exactly the addresses set (proved as `SetThenGetAPIAddresses`; the discrepancy is shown by `SetAsWrittenLosesMissingDocument`) | medium; not executed; depends on the transaction library's documented handling of updates to missing documents | StateAddress.SetAPIAddressesAsWritten | StateAddress.SetAPIAddresses |
