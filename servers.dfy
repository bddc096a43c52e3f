/**
  Backends as the dispatcher sees them.

  In main.go a backend is anything implementing the `Server` interface
  (Address, IsAlive, and a forwarding method). The dispatcher only ever asks
  a backend for its address and whether it is alive, so a backend is modelled
  as a value with those two observations. `SimpleServer` is the one
  implementation the program ships; `ReportingServer` stands for any other
  implementation of the interface, seen through the liveness it reports.
 */
module Servers {

  datatype Server =
    | SimpleServer(address: string)
    | ReportingServer(address: string, alive: bool)
  {
    /** The address the backend forwards to; fixed when the backend is made. */
    function Address(): string {
      address
    }

    /** Whether the backend may be selected. A SimpleServer is always alive. */
    predicate IsAlive()
      ensures SimpleServer? ==> IsAlive()
    {
      match this
      case SimpleServer(_) => true
      case ReportingServer(_, alive) => alive
    }
  }

  /** Builds the shipped backend for `address`; the address is kept as given. */
  function NewSimpleServer(address: string): (s: Server)
    ensures s.Address() == address
    ensures s.IsAlive()
  {
    SimpleServer(address)
  }
}
