/** The bookkeeping of the stop-and-wait link: which position and which call each
    packet in flight belongs to.  Positions count chunks without wrapping at 63. */
module LinkLedger {

  // ---- non-decreasing sequences ----

  /** s never decreases, starts at lo or above and ends at hi or below. */
  predicate Rising(s: seq<nat>, lo: int, hi: int) {
    s != [] ==> lo <= s[0] <= hi && Rising(s[1..], s[0], hi)
  }

  lemma {:induction false} RisingSnoc(s: seq<nat>, lo: int, hi: int, x: nat)
    requires Rising(s, lo, hi) && lo <= x && hi <= x
    ensures Rising(s + [x], lo, x)
  {
    if s != [] {
      assert (s + [x])[1..] == s[1..] + [x];
      RisingSnoc(s[1..], s[0], hi, x);
    }
  }

  lemma {:induction false} RisingWiden(s: seq<nat>, lo: int, hi: int, lo': int, hi': int)
    requires Rising(s, lo, hi) && lo' <= lo && hi <= hi'
    ensures Rising(s, lo', hi')
  {
    if s != [] {
      RisingWiden(s[1..], s[0], hi, s[0], hi');
    }
  }

  lemma {:induction false} RisingWithout(s: seq<nat>, i: nat, lo: int, hi: int)
    requires i < |s| && Rising(s, lo, hi)
    ensures Rising(Without(s, i), lo, hi)
  {
    if i == 0 {
      assert Without(s, 0) == s[1..];
      RisingWiden(s[1..], s[0], hi, lo, hi);
    } else {
      assert Without(s, i)[1..] == Without(s[1..], i - 1);
      RisingWithout(s[1..], i - 1, s[0], hi);
    }
  }

  lemma {:induction false} RisingTwice(s: seq<nat>, i: nat, lo: int, hi: int)
    requires i < |s| && Rising(s, lo, hi)
    ensures Rising(Twice(s, i), lo, hi)
  {
    if i == 0 {
      assert Twice(s, 0) == [s[0]] + s && Twice(s, 0)[1..] == s;
      RisingWiden(s[1..], s[0], hi, s[0], hi);
    } else {
      assert Twice(s, i)[1..] == Twice(s[1..], i - 1);
      RisingTwice(s[1..], i - 1, s[0], hi);
    }
  }

  lemma {:induction false} RisingSplit(s: seq<nat>, k: nat, lo: int, hi: int)
    requires k < |s| && Rising(s, lo, hi)
    ensures lo <= s[k] <= hi
    ensures Rising(s[..k], lo, s[k]) && Rising(s[k..], s[k], hi)
  {
    if k == 0 {
      RisingWiden(s[1..], s[0], hi, s[0], hi);
      assert s[0..] == s;
    } else {
      RisingSplit(s[1..], k - 1, s[0], hi);
      assert s[..k][1..] == s[1..][..k - 1] && s[k..] == s[1..][k - 1..];
    }
  }

  /** s strictly increases, from 1 or above to hi or below. */
  predicate Increasing(s: seq<nat>, hi: int) {
    s != [] ==> 1 <= s[|s| - 1] <= hi && Increasing(s[..|s| - 1], s[|s| - 1] - 1)
  }

  lemma {:induction false} IncreasingAt(s: seq<nat>, hi: int, i: nat)
    requires i < |s| && Increasing(s, hi)
    ensures 1 <= s[i] <= hi && (i + 1 < |s| ==> s[i] < s[i + 1])
  {
    var n := |s| - 1;
    if i < n {
      IncreasingAt(s[..n], s[n] - 1, i);
    }
  }

  /** Each position is the one at which its owner, counted from 1, began. */
  predicate Owned(positions: seq<nat>, owners: seq<nat>, starts: seq<nat>) {
    && |positions| == |owners|
    && (positions != [] ==>
          && 1 <= owners[0] <= |starts|
          && positions[0] == starts[owners[0] - 1]
          && Owned(positions[1..], owners[1..], starts))
  }

  lemma {:induction false} OwnedMoreStarts(positions: seq<nat>, owners: seq<nat>, starts: seq<nat>, x: nat)
    requires Owned(positions, owners, starts)
    ensures Owned(positions, owners, starts + [x])
  {
    if positions != [] {
      OwnedMoreStarts(positions[1..], owners[1..], starts, x);
    }
  }

  lemma {:induction false} OwnedSnoc(positions: seq<nat>, owners: seq<nat>, starts: seq<nat>)
    requires Owned(positions, owners, starts) && starts != []
    ensures Owned(positions + [starts[|starts| - 1]], owners + [|starts|], starts)
  {
    if positions != [] {
      assert (positions + [starts[|starts| - 1]])[1..] == positions[1..] + [starts[|starts| - 1]];
      assert (owners + [|starts|])[1..] == owners[1..] + [|starts|];
      OwnedSnoc(positions[1..], owners[1..], starts);
    }
  }

  lemma {:induction false} OwnedWithout(positions: seq<nat>, owners: seq<nat>, starts: seq<nat>, i: nat)
    requires Owned(positions, owners, starts) && i < |positions|
    ensures Owned(Without(positions, i), Without(owners, i), starts)
  {
    if i == 0 {
      assert Without(positions, 0) == positions[1..] && Without(owners, 0) == owners[1..];
    } else {
      OwnedWithout(positions[1..], owners[1..], starts, i - 1);
      assert Without(positions, i)[1..] == Without(positions[1..], i - 1);
      assert Without(owners, i)[1..] == Without(owners[1..], i - 1);
    }
  }

  lemma {:induction false} OwnedTwice(positions: seq<nat>, owners: seq<nat>, starts: seq<nat>, i: nat)
    requires Owned(positions, owners, starts) && i < |positions|
    ensures Owned(Twice(positions, i), Twice(owners, i), starts)
  {
    if i == 0 {
      assert Twice(positions, 0)[1..] == positions && Twice(owners, 0)[1..] == owners;
    } else {
      OwnedTwice(positions[1..], owners[1..], starts, i - 1);
      assert Twice(positions, i)[1..] == Twice(positions[1..], i - 1);
      assert Twice(owners, i)[1..] == Twice(owners[1..], i - 1);
    }
  }

  function Without<T>(s: seq<T>, i: nat): seq<T>
    requires i < |s|
  {
    s[..i] + s[i + 1..]
  }

  function Last(s: seq<nat>): nat {
    if s == [] then 0 else s[|s| - 1]
  }

  /** Element i again, next to itself. */
  function Twice<T>(s: seq<T>, i: nat): seq<T>
    requires i < |s|
  {
    s[..i + 1] + s[i..]
  }

  /** The i-th call taken began at position i. */
  predicate Placed(taken: seq<nat>, starts: seq<nat>) {
    taken != [] ==>
      var n := |taken| - 1;
      1 <= taken[n] <= |starts| && starts[taken[n] - 1] == n && Placed(taken[..n], starts)
  }

  lemma {:induction false} PlacedMoreStarts(taken: seq<nat>, starts: seq<nat>, x: nat)
    requires Placed(taken, starts)
    ensures Placed(taken, starts + [x])
  {
    if taken != [] {
      PlacedMoreStarts(taken[..|taken| - 1], starts, x);
    }
  }

  lemma {:induction false} PlacedAt(taken: seq<nat>, starts: seq<nat>, i: nat)
    requires Placed(taken, starts) && i < |taken|
    ensures 1 <= taken[i] <= |starts| && starts[taken[i] - 1] == i
  {
    if i < |taken| - 1 {
      PlacedAt(taken[..|taken| - 1], starts, i);
    }
  }

  /** All chunks of a call are at the position where it began; the calls in flight never
      go back, and the calls taken increase, one at each position. */
  predicate CallsInOrder(positions: seq<nat>, owners: seq<nat>, starts: seq<nat>, taken: seq<nat>, accepted: nat) {
    && Owned(positions, owners, starts)
    && Rising(owners, Last(taken), |starts|)
    && Increasing(taken, |starts|)
    && |taken| == accepted
    && Placed(taken, starts)
  }

  // ---- the ledger ----

  /** positions and owners give, for each chunk in flight, its position and its call;
      acks the positions acknowledged but not yet heard; starts the position at which
      each call began; taken the calls whose chunks the receiver accepted.  advanced
      counts the chunks acknowledged to the sender, accepted those accepted.  busy: a
      call still has a chunk to get through; woken: its acknowledgement has arrived;
      givenUp counts the calls that ended with a chunk unacknowledged. */
  datatype Ledger = Ledger(
    positions: seq<nat>, owners: seq<nat>, acks: seq<nat>, starts: seq<nat>, taken: seq<nat>,
    advanced: nat, accepted: nat, busy: bool, woken: bool, givenUp: nat)
  {
    function Begin(): Ledger {
      this.(starts := starts + [advanced], busy := true, woken := false)
    }

    function Write(): Ledger {
      this.(positions := positions + [advanced], owners := owners + [|starts|])
    }

    function Advance(more: bool): Ledger {
      this.(advanced := advanced + 1, busy := more, woken := false)
    }

    function Retry(): Ledger {
      this.(woken := false)
    }

    function End(): Ledger {
      this.(busy := false, woken := false, givenUp := if busy then givenUp + 1 else givenUp)
    }

    predicate CanReceive() {
      positions != [] && owners != []
    }

    predicate Fits()
      requires CanReceive()
    {
      positions[0] == accepted
    }

    function Receive(acknowledges: bool): Ledger
      requires CanReceive()
    {
      this.(positions := positions[1..],
            owners := owners[1..],
            acks := if acknowledges then acks + [positions[0]] else acks,
            taken := if Fits() then taken + [owners[0]] else taken,
            accepted := if Fits() then accepted + 1 else accepted)
    }

    function TakeAck(wakes: bool): Ledger
      requires acks != []
    {
      this.(acks := acks[1..], woken := woken || wakes)
    }

    function LoseChunk(i: nat): Ledger
      requires i < |positions| && i < |owners|
    {
      this.(positions := Without(positions, i), owners := Without(owners, i))
    }

    function LoseAck(i: nat): Ledger
      requires i < |acks|
    {
      this.(acks := Without(acks, i))
    }

    function DupChunk(i: nat): Ledger
      requires i < |positions| && i < |owners|
    {
      this.(positions := Twice(positions, i), owners := Twice(owners, i))
    }

    function DupAck(i: nat): Ledger
      requires i < |acks|
    {
      this.(acks := Twice(acks, i))
    }

    // ---- what every run keeps ----

    /** Everything in flight, oldest first, never goes back and is of the current
        position or the one before.  A position acknowledged has been accepted.  Once
        the sender has been woken, everything left is of the current position. */
    predicate InOrder() {
      && |positions| == |owners|
      && |taken| == accepted
      && advanced <= accepted <= advanced + 1
      && Rising(acks + positions, advanced - 1, advanced)
      && Rising(acks, -1, accepted - 1)
      && (woken ==> accepted == advanced + 1 && Rising(acks + positions, advanced, advanced))
    }

    /** When every frame is one chunk, the chunk of a call under way has the current
        position, and each call was acknowledged, is under way or gave up. */
    predicate OneChunkCalls() {
      && CallsInOrder(positions, owners, starts, taken, accepted)
      && (busy ==> starts != [] && starts[|starts| - 1] == advanced)
      && |starts| == advanced + givenUp + if busy then 1 else 0
    }
  }

  const EMPTY := Ledger([], [], [], [], [], 0, 0, false, false, 0)

  // ---- the order of positions ----

  lemma PauseInOrder(g: Ledger)
    requires g.InOrder()
    ensures g.Begin().InOrder() && g.Retry().InOrder() && g.End().InOrder()
  {}

  lemma WriteInOrder(g: Ledger)
    requires g.InOrder()
    ensures g.Write().InOrder()
  {
    assert g.acks + (g.positions + [g.advanced]) == (g.acks + g.positions) + [g.advanced];
    RisingSnoc(g.acks + g.positions, g.advanced - 1, g.advanced, g.advanced);
    if g.woken {
      RisingSnoc(g.acks + g.positions, g.advanced, g.advanced, g.advanced);
    }
  }

  lemma AdvanceInOrder(g: Ledger, more: bool)
    requires g.InOrder() && g.woken
    ensures g.Advance(more).InOrder()
  {
    RisingWiden(g.acks + g.positions, g.advanced, g.advanced, g.advanced, g.advanced + 1);
  }

  /** The oldest chunk bounds the acknowledgements from above. */
  lemma OldestChunk(g: Ledger)
    requires g.InOrder() && g.CanReceive()
    ensures g.advanced - 1 <= g.positions[0] <= g.advanced
    ensures Rising(g.acks, g.advanced - 1, g.positions[0])
  {
    var pipe, k := g.acks + g.positions, |g.acks|;
    assert pipe[k] == g.positions[0] && pipe[..k] == g.acks;
    RisingSplit(pipe, k, g.advanced - 1, g.advanced);
  }

  lemma ReceiveSilently(g: Ledger)
    requires g.InOrder() && g.CanReceive()
    ensures g.Receive(false).InOrder()
  {
    var pipe, k := g.acks + g.positions, |g.acks|;
    OldestChunk(g);
    RisingWiden(g.acks, -1, g.accepted - 1, -1, g.accepted);
    assert g.acks + g.positions[1..] == Without(pipe, k);
    RisingWithout(pipe, k, g.advanced - 1, g.advanced);
    if g.woken {
      RisingWithout(pipe, k, g.advanced, g.advanced);
    }
  }

  lemma ReceiveAcknowledging(g: Ledger)
    requires g.InOrder() && g.CanReceive()
    ensures g.Receive(true).InOrder()
  {
    var p := g.positions[0];
    OldestChunk(g);
    assert (g.acks + [p]) + g.positions[1..] == g.acks + g.positions;
    RisingWiden(g.acks, g.advanced - 1, p, -1, p);
    RisingSnoc(g.acks, -1, p, p);
    RisingWiden(g.acks + [p], -1, p, -1, g.Receive(true).accepted - 1);
  }

  lemma TakeAckInOrder(g: Ledger, wakes: bool)
    requires g.InOrder() && g.acks != []
    requires wakes ==> g.acks[0] == g.advanced
    ensures g.TakeAck(wakes).InOrder()
  {
    var pipe := g.acks + g.positions;
    assert pipe[1..] == g.acks[1..] + g.positions;
    RisingWiden(pipe[1..], pipe[0], g.advanced, g.advanced - 1, g.advanced);
    RisingWiden(g.acks[1..], g.acks[0], g.accepted - 1, -1, g.accepted - 1);
  }

  lemma LoseChunkInOrder(g: Ledger, i: nat)
    requires g.InOrder() && i < |g.positions|
    ensures g.LoseChunk(i).InOrder()
  {
    var pipe, k := g.acks + g.positions, |g.acks| + i;
    assert g.acks + Without(g.positions, i) == Without(pipe, k);
    RisingWithout(pipe, k, g.advanced - 1, g.advanced);
    if g.woken {
      RisingWithout(pipe, k, g.advanced, g.advanced);
    }
  }

  lemma LoseAckInOrder(g: Ledger, i: nat)
    requires g.InOrder() && i < |g.acks|
    ensures g.LoseAck(i).InOrder()
  {
    var pipe := g.acks + g.positions;
    assert Without(g.acks, i) + g.positions == Without(pipe, i);
    RisingWithout(pipe, i, g.advanced - 1, g.advanced);
    RisingWithout(g.acks, i, -1, g.accepted - 1);
    if g.woken {
      RisingWithout(pipe, i, g.advanced, g.advanced);
    }
  }

  lemma DupChunkInOrder(g: Ledger, i: nat)
    requires g.InOrder() && i < |g.positions|
    ensures g.DupChunk(i).InOrder()
  {
    var pipe, k := g.acks + g.positions, |g.acks| + i;
    assert g.acks + Twice(g.positions, i) == Twice(pipe, k);
    RisingTwice(pipe, k, g.advanced - 1, g.advanced);
    if g.woken {
      RisingTwice(pipe, k, g.advanced, g.advanced);
    }
  }

  lemma DupAckInOrder(g: Ledger, i: nat)
    requires g.InOrder() && i < |g.acks|
    ensures g.DupAck(i).InOrder()
  {
    var pipe := g.acks + g.positions;
    assert Twice(g.acks, i) + g.positions == Twice(pipe, i);
    RisingTwice(pipe, i, g.advanced - 1, g.advanced);
    RisingTwice(g.acks, i, -1, g.accepted - 1);
    if g.woken {
      RisingTwice(pipe, i, g.advanced, g.advanced);
    }
  }

  // ---- the order of calls, when a call is one chunk ----

  lemma {:induction false} IncreasingWiden(s: seq<nat>, hi: int, hi': int)
    requires Increasing(s, hi) && hi <= hi'
    ensures Increasing(s, hi')
  {}

  lemma IncreasingSnoc(s: seq<nat>, hi: int, x: nat)
    requires Increasing(s, hi) && 1 <= x <= hi
    requires s != [] ==> s[|s| - 1] < x
    ensures Increasing(s + [x], hi)
  {
    assert (s + [x])[..|s|] == s;
    if s != [] {
      IncreasingWiden(s[..|s| - 1], s[|s| - 1] - 1, s[|s| - 1] - 1);
    }
  }

  lemma PauseCalls(g: Ledger)
    requires g.OneChunkCalls()
    ensures g.Retry().OneChunkCalls() && g.End().OneChunkCalls()
    ensures g.busy ==> g.Advance(false).OneChunkCalls()
    ensures g.acks != [] ==> g.TakeAck(true).OneChunkCalls() && g.TakeAck(false).OneChunkCalls()
    ensures forall i :: 0 <= i < |g.acks| ==> g.LoseAck(i).OneChunkCalls() && g.DupAck(i).OneChunkCalls()
  {
    hide CallsInOrder;
  }

  lemma BeginCalls(g: Ledger)
    requires g.OneChunkCalls() && !g.busy
    ensures g.Begin().OneChunkCalls()
  {
    var n := |g.starts|;
    RisingWiden(g.owners, Last(g.taken), n, Last(g.taken), n + 1);
    IncreasingWiden(g.taken, n, n + 1);
    OwnedMoreStarts(g.positions, g.owners, g.starts, g.advanced);
    PlacedMoreStarts(g.taken, g.starts, g.advanced);
  }

  lemma WriteCalls(g: Ledger)
    requires g.OneChunkCalls() && g.busy
    ensures g.Write().OneChunkCalls()
  {
    RisingSnoc(g.owners, Last(g.taken), |g.starts|, |g.starts|);
    OwnedSnoc(g.positions, g.owners, g.starts);
  }

  lemma ReceiveRepeat(g: Ledger, acknowledges: bool)
    requires g.OneChunkCalls() && g.CanReceive() && !g.Fits()
    ensures g.Receive(acknowledges).OneChunkCalls()
  {
    RisingWiden(g.owners[1..], g.owners[0], |g.starts|, Last(g.taken), |g.starts|);
  }

  /** A chunk at a new position is of a later call than the last one taken. */
  lemma ReceiveNew(g: Ledger, acknowledges: bool)
    requires g.OneChunkCalls() && g.CanReceive() && g.Fits()
    ensures g.Receive(acknowledges).OneChunkCalls()
  {
    IncreasingSnoc(g.taken, |g.starts|, g.owners[0]);
    assert (g.taken + [g.owners[0]])[..|g.taken|] == g.taken;
  }

  lemma LoseChunkCalls(g: Ledger, i: nat)
    requires g.OneChunkCalls() && i < |g.positions|
    ensures g.LoseChunk(i).OneChunkCalls()
  {
    RisingWithout(g.owners, i, Last(g.taken), |g.starts|);
    OwnedWithout(g.positions, g.owners, g.starts, i);
  }

  lemma DupChunkCalls(g: Ledger, i: nat)
    requires g.OneChunkCalls() && i < |g.positions|
    ensures g.DupChunk(i).OneChunkCalls()
  {
    RisingTwice(g.owners, i, Last(g.taken), |g.starts|);
    OwnedTwice(g.positions, g.owners, g.starts, i);
  }

  /** As many calls taken as there are: each of them, once, in order. */
  lemma {:induction false} AllTaken(taken: seq<nat>, n: nat)
    requires Increasing(taken, n)
    ensures |taken| <= n
    ensures |taken| == n ==> forall i :: 0 <= i < n ==> taken[i] == i + 1
  {
    if taken != [] {
      AllTaken(taken[..|taken| - 1], taken[|taken| - 1] - 1);
    }
  }
}
