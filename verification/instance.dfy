/**
 * The provider-facing address type of the `instance` package. Only its shape
 * matters here: the kinds of address and network scope are opaque labels.
 */
module Instance {

  /** The kind of an address (host name, IPv4, IPv6); opaque to this model. */
  datatype AddressType = AddressType(name: string)

  /** How widely an address is reachable (public, cloud-local, ...); opaque to this model. */
  datatype NetworkScope = NetworkScope(name: string)

  /** `instance.Address`: an address value together with metadata about it. */
  datatype Address = Address(
    value: string,
    addrType: AddressType,
    networkName: string,
    networkScope: NetworkScope)
}
