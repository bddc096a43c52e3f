# Round-robin load balancer: a Dafny model

This project models the dispatch core of a small Go HTTP load balancer
(`main.go`). The program keeps an ordered list of backend servers and a
cursor, `RoundRobinCount`. For each request it calls `getNextServer`, which
probes the server at `RoundRobinCount % len(Servers)`. While that server
reports that it is not alive, it bumps the cursor and probes the next slot.
It then bumps the cursor once more and returns the server. The request is
then proxied to that server.

The model has three modules:

- `Servers` (`servers.dfy`): the `Server` interface seen as a value with an
  address and a liveness flag. `SimpleServer` is the shipped implementation
  and is always alive. `ReportingServer` stands for any other implementation,
  which may report itself dead.
- `Selection` (`selection.dfy`): the choice `getNextServer` makes, written
  as functions of the server list and the cursor (`ScanFrom`, `SkipCount`,
  `Select`, `Selections`), with the round-robin properties proved about them.
  It also holds `SelectBounded`, a bounded scan that returns an error
  instead of looping. That variant is not what `main.go` does. It is there
  to state when the real loop terminates.
- `Balancer` (`load_balancer.dfy`): the `LoadBalancer` record as a class
  with the fields `port`, `roundRobinCount` and `servers`. It has the
  constructor `NewLoadBalancer`. `GetNextServer` is a `while` loop with
  invariants and a decreases clause, proved equal to `Selection.Select`.
  `ServerProxy` is the selection step of `serverProxy`.

Two edge cases of `getNextServer` shape the model's preconditions:

- Its loop (main.go:64-67) never ends when every server is dead, because
  the guard stays true at every cursor value.
- Its first probe (main.go:63) divides by zero on an empty list, and
  `NewLoadBalancer` (main.go:42-48) accepts an empty list.

So the constructor accepts any list, as the source does. `GetNextServer`
requires a non-empty list that holds a live server. `SelectBounded` is a
separately labelled alternative that stops after one pass and reports both
cases as errors. The endless loop is recorded under "## Findings".

## Model

| member | source | states |
|---|---|---|
| `Servers.Server.IsAlive` | main.go:54-56 | a `SimpleServer` always reports itself alive |
| `Servers.NewSimpleServer` | main.go:30-40 | the backend built for an address reports exactly that address and is alive |
| `Selection.Slot` | main.go:63 | the slot probed for any cursor value is a valid index into a non-empty list |
| `Selection.ScanFrom` | main.go:63-67 | scanning cursor values from `c`, the result is the first one whose slot is live, with every earlier slot dead; None means every slot in the pass is dead |
| `Selection.ScanFindsIffAnyAlive` | main.go:64-67 | one full pass finds a live server if and only if the list holds one, so the loop ends exactly when some server is alive |
| `Selection.SkipCount` | main.go:64-67 | the number of dead servers skipped is below n; the slot after them is live and every slot before it is dead |
| `Selection.Select` | main.go:62-70 | the server returned is alive and is the first live one found scanning cyclically from the cursor; the new cursor lies one past its slot and at most n ahead |
| `Selection.SelectUnique` | main.go:62-70 | any server/cursor pair that is alive, one past its slot, with only dead slots skipped, is exactly what `Select` returns |
| `Selection.SelectAdvance` | main.go:65-68 | the cursor grows by the number of dead servers skipped plus one |
| `Selection.SelectAllAlive` | main.go:62-70 | when every server is alive, a call returns the server at `c % n` and leaves the cursor at `c + 1` |
| `Selection.Selections` | main.go:62-70 | k consecutive calls return k servers, all alive |
| `Selection.RoundRobinOrder` | main.go:62-70 | with every server alive, call j from cursor c returns the server at `(c + j) % n`: the configured order, repeated cyclically |
| `Selection.FreshRoundsRepeatList` | main.go:42-48 | from a fresh balancer (cursor 0) with every server alive, n * rounds calls return the list repeated `rounds` times |
| `Selection.CursorAfter` | main.go:65-68 | after k calls the cursor has moved at least k and at most k * n |
| `Selection.PassedLiveSlotServed` | main.go:64-67 | every live slot the cursor moves past during k calls was returned by one of those calls |
| `Selection.LiveServerServedWithinPass` | main.go:62-70 | from any cursor, each live server is returned by one of the next n calls (no starvation) |
| `Selection.SkipsDeadServer` | main.go:64-67 | with [dead A, live B, live C] and cursor 0, the first two calls return B and then C |
| `Selection.DeadPoolLoopsForever` | main.go:64-67 | with the single dead server [A], a full pass finds nothing and the loop guard holds at every reachable cursor value, so the loop never exits |
| `Selection.SelectBounded` | main.go:62-70 | bounded variant: an empty list gives `EmptyPool`; a list with no live server gives `NoAvailableBackend`; otherwise the result agrees with `Select` |
| `Balancer.LoadBalancer.constructor` | main.go:42-48 | a new balancer has cursor 0 and holds exactly the given port and server list, even when the list is empty |
| `Balancer.LoadBalancer.GetNextServer` | main.go:62-70 | terminates on a non-empty list that holds a live server; returns a live server, the first found scanning cyclically from the cursor; the cursor ends one past its slot, having grown by the skip count plus one; every slot read is a valid index; the server list and port are unchanged |
| `Balancer.LoadBalancer.ServerProxy` | main.go:72-76 | the backend chosen for a request is the one `getNextServer` selects, and it is alive |

`Server.Address` has no contract of its own. The row for `NewSimpleServer`
covers the getter at main.go:50-52.

## Left out

- Forwarding the request: `SimpleServer.Server`, the reverse proxy it wraps and the `ServeHTTP` call in `serverProxy` (main.go:58-60, main.go:75). This is network I/O inside the Go standard library.
- `url.Parse` and the `log.Fatal` on a bad address in `NewSimpleServer` (main.go:31-34). The address is kept as an opaque string, and the parser and the process exit are not modelled.
- All zerolog logging, including the log line naming the chosen address in `serverProxy`. It is output only.
- `main`: the hard-coded server list, `http.HandleFunc` and `http.ListenAndServe` (main.go:78-95). This is startup plumbing.
- Concurrency. Go's HTTP server runs handlers in parallel, and the unguarded `RoundRobinCount++` is a data race. Calls are modelled one at a time, and linearizability is not addressed.
- Balancer.LoadBalancer.GetNextServer: the cursor is a `nat`, not Go's `int`. Overflow is not modelled. After a real wrap-around the cursor would be negative, `%` would yield a negative index, and the slice access would panic.
- Balancer.LoadBalancer.GetNextServer: liveness is read from the server values and is fixed during one call. A `Server` implementation whose `IsAlive` changes between probes is not modelled. Neither is one whose `IsAlive` has side effects.
- Balancer.LoadBalancer.constructor: the Go slice is shared with the caller, who could mutate its elements later. The model copies the list as a sequence, so this aliasing is not captured.
- Fairness counts, meaning that each of n all-live servers is chosen the floor or ceiling of m/n times in m calls, are not stated separately. They follow from `RoundRobinOrder` but are not proved as counts.

## Findings

| source | as written | input that shows it | evidently intended | confidence | as-written member | corrected member |
|---|---|---|---|---|---|---|
| main.go:64-67 | the loop probes slot after slot until it meets a live server, with no bound | a list whose servers are all dead, e.g. one `ReportingServer` reporting dead: the guard holds at every cursor value | stop after one pass over the list and report that no backend is available | medium, not executed | `Selection.DeadPoolLoopsForever` | `Selection.SelectBounded` |
