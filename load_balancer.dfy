/**
  The `LoadBalancer` record of main.go and its round-robin dispatcher.

  The balancer owns a fixed, ordered list of backends and a cursor
  (`roundRobinCount`) that every probe of the scan moves forward by one.
  Calls are taken one at a time.
 */
module Balancer {
  import opened Servers
  import opened Selection

  class LoadBalancer {
    /** The port the program listens on; only read, never changed. */
    var port: string
    /** The round-robin cursor; Go's `int`, never negative here. */
    var roundRobinCount: nat
    /** The backends in configured order. */
    var servers: seq<Server>

    /** NewLoadBalancer: cursor at 0, the list kept exactly as given (even when empty). */
    constructor (port: string, servers: seq<Server>)
      ensures this.port == port && this.servers == servers
      ensures roundRobinCount == 0
    {
      this.port := port;
      this.roundRobinCount := 0;
      this.servers := servers;
    }

    /**
      getNextServer: probe the slot under the cursor and, while its server
      is dead, bump the cursor and probe again; then bump the cursor once
      more and return the live server found. The caller must supply a
      non-empty list holding a live server: on an empty list the first probe
      divides by zero, and with every server dead the loop never ends.
     */
    method GetNextServer() returns (server: Server)
      requires |servers| > 0 && AnyAlive(servers)
      modifies this`roundRobinCount
      ensures servers == old(servers) && port == old(port)
      ensures server.IsAlive()
      ensures roundRobinCount == old(roundRobinCount) + SkipCount(servers, old(roundRobinCount)) + 1
      ensures server == servers[Slot(|servers|, roundRobinCount - 1)]
      ensures forall k :: old(roundRobinCount) <= k < roundRobinCount - 1 ==> !servers[Slot(|servers|, k)].IsAlive()
      ensures (server, roundRobinCount) == Select(servers, old(roundRobinCount))
    {
      ghost var start := roundRobinCount;
      ghost var skip := SkipCount(servers, start);
      server := servers[Slot(|servers|, roundRobinCount)];
      while !server.IsAlive()
        invariant start <= roundRobinCount <= start + skip
        invariant server == servers[Slot(|servers|, roundRobinCount)]
        decreases start + skip - roundRobinCount
      {
        roundRobinCount := roundRobinCount + 1;
        server := servers[Slot(|servers|, roundRobinCount)];
      }
      assert roundRobinCount == start + skip;
      roundRobinCount := roundRobinCount + 1;
      SelectAdvance(servers, start);
    }

    /**
      The selection step of serverProxy: choose the backend for one request.
      Forwarding the request to it is not part of this model.
     */
    method ServerProxy() returns (target: Server)
      requires |servers| > 0 && AnyAlive(servers)
      modifies this`roundRobinCount
      ensures servers == old(servers) && port == old(port)
      ensures target.IsAlive()
      ensures (target, roundRobinCount) == Select(servers, old(roundRobinCount))
    {
      target := GetNextServer();
    }
  }
}
