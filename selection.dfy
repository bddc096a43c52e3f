/**
  The round-robin choice made by `getNextServer`, as functions of the server
  list and the cursor value, and what is proved about it.

  A scan starts at cursor value `start` and probes `servers[c % n]` for
  c = start, start + 1, ...; the first live server ends it, and the cursor
  is left one past the position where it was found.
 */
module Selection {
  import opened Servers

  datatype Option<T> = None | Some(value: T)

  datatype Result<T, E> = Ok(value: T) | Err(error: E)

  /** Why the bounded variant of the selection can fail. */
  datatype SelectError = EmptyPool | NoAvailableBackend

  predicate AnyAlive(servers: seq<Server>) {
    exists i :: 0 <= i < |servers| && servers[i].IsAlive()
  }

  predicate AllAlive(servers: seq<Server>) {
    forall i :: 0 <= i < |servers| ==> servers[i].IsAlive()
  }

  /** The list position probed when the cursor holds `c`; always a valid index. */
  function Slot(n: nat, c: nat): (i: nat)
    requires n > 0
    ensures i < n
  {
    c % n
  }

  /**
    The first cursor value in [c, start + n) whose slot holds a live server,
    or None when every one of those slots holds a dead server.
   */
  function ScanFrom(servers: seq<Server>, start: nat, c: nat): (r: Option<nat>)
    requires |servers| > 0 && start <= c <= start + |servers|
    ensures r.Some? ==> c <= r.value < start + |servers|
    ensures r.Some? ==> servers[Slot(|servers|, r.value)].IsAlive()
    ensures r.Some? ==> forall k :: c <= k < r.value ==> !servers[Slot(|servers|, k)].IsAlive()
    ensures r.None? ==> forall k :: c <= k < start + |servers| ==> !servers[Slot(|servers|, k)].IsAlive()
    decreases start + |servers| - c
  {
    if c == start + |servers| then None
    else if servers[Slot(|servers|, c)].IsAlive() then Some(c)
    else ScanFrom(servers, start, c + 1)
  }

  /** Every list position is the slot of one of any n consecutive cursor values. */
  lemma SlotReached(n: nat, start: nat, i: nat) returns (c: nat)
    requires 0 < n && i < n
    ensures start <= c < start + n && Slot(n, c) == i
  {
    var q, r := start / n, start % n;
    if r <= i {
      c := start + (i - r);
      MultipleOffset(n, q, i);
      assert c == q * n + i;
    } else {
      c := start + (n - r) + i;
      MultipleOffset(n, q + 1, i);
      assert c == (q + 1) * n + i;
    }
  }

  /** Adding a multiple of n to a position below n leaves its slot unchanged. */
  lemma MultipleOffset(n: nat, q: nat, i: nat)
    requires 0 < n && i < n
    ensures (q * n + i) % n == i
  {
    var x := q * n + i;
    var k := x / n - q;
    assert x == (x / n) * n + x % n;
    assert k * n == i - x % n;
  }

  /** A full scan finds a live server exactly when the list holds one. */
  lemma {:induction false} ScanFindsIffAnyAlive(servers: seq<Server>, start: nat)
    requires |servers| > 0
    ensures ScanFrom(servers, start, start).Some? <==> AnyAlive(servers)
  {
    if AnyAlive(servers) {
      var i :| 0 <= i < |servers| && servers[i].IsAlive();
      var c := SlotReached(|servers|, start, i);
      assert servers[Slot(|servers|, c)].IsAlive();
    }
  }

  /**
    The number of dead servers one call of getNextServer skips before it
    meets a live one, scanning from cursor value `start`.
   */
  function SkipCount(servers: seq<Server>, start: nat): (d: nat)
    requires |servers| > 0 && AnyAlive(servers)
    ensures d < |servers|
    ensures servers[Slot(|servers|, start + d)].IsAlive()
    ensures forall k :: start <= k < start + d ==> !servers[Slot(|servers|, k)].IsAlive()
  {
    ScanFindsIffAnyAlive(servers, start);
    ScanFrom(servers, start, start).value - start
  }

  /**
    One call of getNextServer on a balancer whose cursor is `start`: the
    server returned and the cursor value left behind.
   */
  function Select(servers: seq<Server>, start: nat): (r: (Server, nat))
    requires |servers| > 0 && AnyAlive(servers)
    ensures start < r.1 <= start + |servers|
    ensures r.0.IsAlive() && r.0 == servers[Slot(|servers|, r.1 - 1)]
    ensures forall k :: start <= k < r.1 - 1 ==> !servers[Slot(|servers|, k)].IsAlive()
  {
    var d := SkipCount(servers, start);
    (servers[Slot(|servers|, start + d)], start + d + 1)
  }

  /**
    Select is the only outcome a fair round-robin scan can have: the cursor
    must move past the first live slot and no further.
   */
  lemma {:induction false} SelectUnique(servers: seq<Server>, start: nat, s: Server, c: nat)
    requires |servers| > 0 && AnyAlive(servers)
    requires start < c && s == servers[Slot(|servers|, c - 1)] && s.IsAlive()
    requires forall k :: start <= k < c - 1 ==> !servers[Slot(|servers|, k)].IsAlive()
    ensures Select(servers, start) == (s, c)
  {
  }

  /**
    The cursor grows by one for each dead server skipped, plus one. This
    unfolds the definition of Select; what makes it informative is that
    SkipCount's own contract pins the skip count independently.
   */
  lemma {:induction false} SelectAdvance(servers: seq<Server>, start: nat)
    requires |servers| > 0 && AnyAlive(servers)
    ensures Select(servers, start).1 == start + SkipCount(servers, start) + 1
  {
  }

  /** With every server alive, a call returns the server at the cursor and bumps it once. */
  lemma {:induction false} SelectAllAlive(servers: seq<Server>, start: nat)
    requires |servers| > 0 && AllAlive(servers)
    ensures AnyAlive(servers)
    ensures Select(servers, start) == (servers[Slot(|servers|, start)], start + 1)
  {
    assert servers[0].IsAlive();
  }

  /** The servers returned by `k` consecutive calls starting from cursor `start`. */
  function Selections(servers: seq<Server>, start: nat, k: nat): (picked: seq<Server>)
    requires |servers| > 0 && AnyAlive(servers)
    ensures |picked| == k
    ensures forall j :: 0 <= j < k ==> picked[j].IsAlive()
    decreases k
  {
    if k == 0 then []
    else
      var (s, next) := Select(servers, start);
      [s] + Selections(servers, next, k - 1)
  }

  /**
    With every server alive, consecutive calls hand out the configured list
    in order, wrapping around: call j from cursor `start` returns the server
    at position (start + j) % n.
   */
  lemma {:induction false} RoundRobinOrder(servers: seq<Server>, start: nat, k: nat)
    requires |servers| > 0 && AllAlive(servers)
    ensures AnyAlive(servers)
    ensures forall j :: 0 <= j < k ==> Selections(servers, start, k)[j] == servers[Slot(|servers|, start + j)]
    decreases k
  {
    SelectAllAlive(servers, start);
    if k > 0 {
      RoundRobinOrder(servers, start + 1, k - 1);
      forall j | 0 <= j < k
        ensures Selections(servers, start, k)[j] == servers[Slot(|servers|, start + j)]
      {
        SelectionsAllAliveAt(servers, start, k, j);
      }
    }
  }

  /** One unfolding of Selections when every server is alive, read at index j. */
  lemma SelectionsAllAliveAt(servers: seq<Server>, start: nat, k: nat, j: nat)
    requires |servers| > 0 && AllAlive(servers) && j < k
    ensures AnyAlive(servers)
    ensures Selections(servers, start, k)[j] ==
      if j == 0 then servers[Slot(|servers|, start)] else Selections(servers, start + 1, k - 1)[j - 1]
  {
    SelectAllAlive(servers, start);
    assert Selections(servers, start, k) == [servers[Slot(|servers|, start)]] + Selections(servers, start + 1, k - 1);
  }

  /**
    From a fresh balancer (cursor 0) with every server alive, n * rounds
    calls return the configured list repeated `rounds` times.
   */
  lemma {:induction false} FreshRoundsRepeatList(servers: seq<Server>, rounds: nat)
    requires |servers| > 0 && AllAlive(servers)
    ensures AnyAlive(servers)
    ensures forall j :: 0 <= j < rounds * |servers| ==>
      Selections(servers, 0, rounds * |servers|)[j] == servers[j % |servers|]
  {
    RoundRobinOrder(servers, 0, rounds * |servers|);
  }

  /** The cursor value after `k` consecutive calls starting from cursor `start`. */
  function CursorAfter(servers: seq<Server>, start: nat, k: nat): (c: nat)
    requires |servers| > 0 && AnyAlive(servers)
    ensures start + k <= c <= start + k * |servers|
    decreases k
  {
    if k == 0 then start else CursorAfter(servers, Select(servers, start).1, k - 1)
  }

  /**
    Every cursor value the first `k` calls move past with a live server in
    its slot is one at which one of those calls returned that server: the
    calls skip only dead servers.
   */
  lemma {:induction false} PassedLiveSlotServed(servers: seq<Server>, start: nat, k: nat, c: nat)
    requires |servers| > 0 && AnyAlive(servers)
    requires start <= c < CursorAfter(servers, start, k)
    requires servers[Slot(|servers|, c)].IsAlive()
    ensures exists j :: 0 <= j < k && Selections(servers, start, k)[j] == servers[Slot(|servers|, c)]
    decreases k
  {
    if k > 0 {
      var (s, next) := Select(servers, start);
      var picked := Selections(servers, start, k);
      assert picked == [s] + Selections(servers, next, k - 1);
      if c == next - 1 {
        assert picked[0] == servers[Slot(|servers|, c)];
      } else if c >= next {
        PassedLiveSlotServed(servers, next, k - 1, c);
        var j :| 0 <= j < k - 1 && Selections(servers, next, k - 1)[j] == servers[Slot(|servers|, c)];
        assert picked[j + 1] == servers[Slot(|servers|, c)];
      }
    }
  }

  /**
    No live server is starved: whatever the cursor, each live server is
    returned by at least one of the next n calls, n being the list length.
   */
  lemma LiveServerServedWithinPass(servers: seq<Server>, start: nat, i: nat)
    requires 0 <= i < |servers| && servers[i].IsAlive()
    ensures AnyAlive(servers)
    ensures exists j :: 0 <= j < |servers| && Selections(servers, start, |servers|)[j] == servers[i]
  {
    var c := SlotReached(|servers|, start, i);
    PassedLiveSlotServed(servers, start, |servers|, c);
  }

  /**
    A dead server at the cursor is passed over: with [dead A, live B, live C]
    and cursor 0, the first two calls return B and then C.
   */
  lemma SkipsDeadServer(a: string, b: string, c: string)
    ensures var servers := [ReportingServer(a, false), SimpleServer(b), SimpleServer(c)];
      AnyAlive(servers) && Selections(servers, 0, 2) == [SimpleServer(b), SimpleServer(c)]
  {
    var servers := [ReportingServer(a, false), SimpleServer(b), SimpleServer(c)];
    assert servers[1].IsAlive();
    SelectUnique(servers, 0, SimpleServer(b), 2);
    SelectUnique(servers, 2, SimpleServer(c), 3);
    assert Selections(servers, 3, 0) == [];
  }

  /**
    getNextServer as written never returns on a list whose servers are all
    dead: with the single dead server [A], a full pass finds nothing, and the
    loop guard holds at every cursor value the loop can reach.
   */
  lemma DeadPoolLoopsForever(a: string, start: nat)
    ensures var servers := [ReportingServer(a, false)];
      !AnyAlive(servers) && ScanFrom(servers, start, start).None? &&
      forall c :: start <= c ==> !servers[Slot(|servers|, c)].IsAlive()
  {
    ScanFindsIffAnyAlive([ReportingServer(a, false)], start);
  }

  /**
    A bounded variant of the selection that is NOT what main.go does: it
    gives up after one pass over the list instead of looping forever, and
    reports an empty list instead of dividing by zero.
   */
  function SelectBounded(servers: seq<Server>, start: nat): (r: Result<(Server, nat), SelectError>)
    ensures r == Err(EmptyPool) <==> |servers| == 0
    ensures r == Err(NoAvailableBackend) <==> |servers| > 0 && !AnyAlive(servers)
    ensures r.Ok? ==> |servers| > 0 && AnyAlive(servers) && r.value == Select(servers, start)
  {
    if |servers| == 0 then Err(EmptyPool)
    else
      ScanFindsIffAnyAlive(servers, start);
      match ScanFrom(servers, start, start)
      case None => Err(NoAvailableBackend)
      case Some(c) =>
        SelectUnique(servers, start, servers[Slot(|servers|, c)], c + 1);
        Ok((servers[Slot(|servers|, c)], c + 1))
  }
}
