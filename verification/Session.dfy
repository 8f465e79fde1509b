/** One BLE session: the notification worker, the acknowledged sending of frames, and
    the requests built on it.  Wherever the source awaits, the methods here let any
    number of notifications and worker steps happen, and any outcome. */
module Session {
  import opened Bytes
  import opened Results
  import opened BleLink
  import opened StopAndWait
  import opened Ctr
  import CryptoFrames
  import opened AppCodec
  import opened Handshake
  import opened Ids
  import opened Status
  import opened Requests

  const NOTIFICATION_LIMIT := 128
  const RESPONSE_LIMIT := 4

  /** An acknowledgement future. */
  datatype AckWaiter = Open | Done | Failed(error: Fault)

  /** How an await ends: the future is done, the time is up, or the job is cancelled. */
  datatype Ending = Woken | Elapsed | Cancelling

  datatype Response = Message(frame: bytes) | Failure(error: Fault)

  /** Where the worker awaits: for a notification, or for its write of an
      acknowledgement, after which it hands over a message it may have completed. */
  datatype Worker = Stopped | Waiting | Acking(message: Option<bytes>)

  // ---- the sender's history ----

  datatype Entry = Did(event: SenderEvent) | Heard(sequence: Sequence)

  datatype History = Start | Then(before: History, entry: Entry)

  /** The sender that a history of steps leads to, if each step was allowed. */
  function Replay(log: History): Option<Sender> {
    match log
    case Start => Some(Sender(1, Idle))
    case Then(before, entry) =>
      match Replay(before)
      case None => None
      case Some(s) =>
        match entry
        case Did(e) => if SenderEnabled(s, e) then Some(SenderStep(s, e)) else None
        case Heard(q) => Some(Resolve(s, q))
  }

  /** How many chunks were acknowledged. */
  function AckedIn(log: History): nat {
    match log
    case Start => 0
    case Then(before, entry) => AckedIn(before) + if entry == Did(Acked) then 1 else 0
  }

  /** After any history the sender's number is one more than the count of chunks
      acknowledged, modulo 63, and that is the number of a frame's current chunk. */
  lemma {:induction false} ReplayNumbers(log: History, s: Sender)
    requires Replay(log) == Some(s)
    ensures s.txSequence == SequenceAt(1, AckedIn(log))
    ensures s.phase.Sending? ==> Key(s.phase) == s.txSequence
  {
    if log.Then? {
      var t := Replay(log.before).value;
      ReplayNumbers(log.before, t);
      if log.entry.Did? {
        StepNumbers(t, log.entry.event, AckedIn(log.before));
      }
    }
  }

  lemma StepNumbers(s: Sender, e: SenderEvent, acked: nat)
    requires SenderEnabled(s, e) && s.txSequence == SequenceAt(1, acked)
    requires s.phase.Sending? ==> Key(s.phase) == s.txSequence
    ensures
      var s' := SenderStep(s, e);
      && s'.txSequence == SequenceAt(1, if e.Acked? then acked + 1 else acked)
      && (s'.phase.Sending? ==> Key(s'.phase) == s'.txSequence)
  {
    if e.Begin? {
      SequenceAtNext(s.txSequence, 0);
    } else if e.Acked? {
      SequenceAtNext(s.phase.start, s.phase.index);
      SequenceAtNext(1, acked);
    }
  }

  /** How each attempt at one chunk ended. */
  type Tries = seq<Attempt<()>>

  /** A chunk is tried again only after a time-out, and after a time-out always, up to so
      many times. */
  predicate WellTried(tries: Tries, attempts: nat) {
    && 1 <= |tries| <= attempts
    && (forall i :: 0 <= i < |tries| - 1 ==> tries[i] == Err(Timeout))
    && (tries[|tries| - 1] == Err(Timeout) ==> |tries| == attempts)
  }

  /** What the attempts come to: the last one's outcome, a time-out by its own name. */
  function OutcomeOf(tries: Tries): Attempt<()>
    requires tries != []
  {
    var last := tries[|tries| - 1];
    if last == Err(Timeout) then Err(BleTimeout) else last
  }

  predicate AllTried(chunks: seq<Tries>, attempts: nat) {
    forall i :: 0 <= i < |chunks| ==> WellTried(chunks[i], attempts)
  }

  /** The chunks before the n-th were acknowledged. */
  predicate Acknowledged(chunks: seq<Tries>, n: nat) {
    n <= |chunks| && forall i :: 0 <= i < n ==> chunks[i] != [] && OutcomeOf(chunks[i]).Ok?
  }

  /** One call of _send_frame: how each attempt at each chunk it got to ended, and how many
      chunks were acknowledged. */
  datatype Call = Call(frame: Frame, start: Sequence, attempts: Attempts, tries: seq<Tries>, acked: nat)
  {
    /** Chunks are tried in order; those acknowledged are a prefix, after each of which the
        call goes on, until the last chunk or the first that is not acknowledged. */
    predicate InOrder() {
      && acked <= |tries| <= ChunkCount(frame)
      && AllTried(tries, attempts) && Acknowledged(tries, acked)
      && (tries == [] || acked == ChunkCount(frame) || (acked + 1 == |tries| && OutcomeOf(tries[acked]).Err?))
    }

    function Writes(): seq<bytes> {
      Times(Chunks(frame, start), Counts(tries))
    }
  }

  function Copies(chunk: bytes, n: nat): seq<bytes> {
    if n == 0 then [] else Copies(chunk, n - 1) + [chunk]
  }

  /** The first |counts| chunks, each as many times as counts says. */
  function Times(chunks: seq<bytes>, counts: seq<nat>): seq<bytes> {
    if counts == [] || |chunks| < |counts| then []
    else
      var n := |counts| - 1;
      Times(chunks, counts[..n]) + Copies(chunks[n], counts[n])
  }

  function Counts(tries: seq<Tries>): (r: seq<nat>)
    ensures |r| == |tries|
  {
    seq(|tries|, i requires 0 <= i < |tries| => |tries[i]|)
  }

  lemma NoTimes(chunks: seq<bytes>, attempts: nat)
    ensures Times(chunks, Counts([])) == [] && AllTried([], attempts) && Acknowledged([], 0)
  {}

  lemma TimesMore(chunks: seq<bytes>, tries: seq<Tries>, more: Tries)
    requires |tries| < |chunks|
    ensures Times(chunks, Counts(tries + [more])) == Times(chunks, Counts(tries)) + Copies(chunks[|tries|], |more|)
  {
    hide Copies;
    var counts := Counts(tries) + [|more|];
    assert Counts(tries + [more]) == counts;
    assert counts[..|counts| - 1] == Counts(tries) && counts[|counts| - 1] == |more|;
  }

  lemma TriedMore(tries: seq<Tries>, more: Tries, attempts: nat)
    requires AllTried(tries, attempts) && Acknowledged(tries, |tries|) && WellTried(more, attempts)
    ensures AllTried(tries + [more], attempts) && Acknowledged(tries + [more], |tries|)
    ensures OutcomeOf(more).Ok? ==> Acknowledged(tries + [more], |tries| + 1)
  {}

  /** After time-outs, the last try decides. */
  lemma LastTry(tries: Tries, last: Attempt<()>, attempts: nat)
    requires |tries| < attempts && forall i :: 0 <= i < |tries| ==> tries[i] == Err(Timeout)
    requires last == Err(Timeout) ==> |tries| + 1 == attempts
    ensures WellTried(tries + [last], attempts)
    ensures OutcomeOf(tries + [last]) == if last == Err(Timeout) then Err(BleTimeout) else last
  {}

  /** A call and what it returned or raised. */
  datatype Exchange = Exchange(call: Call, answer: Answer)
  {
    /** Without a try it raised because a stale response was queued; if a chunk was not
        acknowledged, it raised what the tries at that came to. */
    predicate InOrder() {
      && call.InOrder()
      && (call.tries == [] ==> answer == Err(Ble))
      && (call.tries != [] && call.acked < ChunkCount(call.frame) ==>
            answer == Err(OutcomeOf(call.tries[call.acked]).error))
    }
  }

  /** A call whose chunk's last try timed out raised a time-out of the link, and wrote that
      chunk exactly as often as it may, timing out each time. */
  lemma TimedOutTries(x: Exchange)
    requires x.InOrder() && x.call.tries != [] && x.call.acked < ChunkCount(x.call.frame)
    ensures
      var last := x.call.tries[|x.call.tries| - 1];
      last[|last| - 1] == Err(Timeout) ==>
        && x.answer == Err(BleTimeout) && |last| == x.call.attempts
        && forall i :: 0 <= i < |last| ==> last[i] == Err(Timeout)
  {
    assert WellTried(x.call.tries[|x.call.tries| - 1], x.call.attempts);
  }

  function AnswersOf(exchanges: seq<Exchange>): seq<Answer> {
    seq(|exchanges|, i requires 0 <= i < |exchanges| => exchanges[i].answer)
  }

  /** Each exchange makes the request that the program asks for after the ones before. */
  ghost predicate Follows<T(!new)>(p: Program<T>, exchanges: seq<Exchange>) {
    forall i :: 0 <= i < |exchanges| ==>
      && exchanges[i].InOrder()
      && p(AnswersOf(exchanges[..i])) == Turn.Ask(exchanges[i].call.frame, exchanges[i].call.attempts)
  }

  lemma FollowsNone<T(!new)>(p: Program<T>)
    ensures Follows(p, []) && AnswersOf([]) == []
  {}

  lemma FollowsMore<T(!new)>(p: Program<T>, exchanges: seq<Exchange>, x: Exchange)
    requires Follows(p, exchanges) && x.InOrder()
    requires p(AnswersOf(exchanges)) == Turn.Ask(x.call.frame, x.call.attempts)
    ensures Follows(p, exchanges + [x]) && AnswersOf(exchanges + [x]) == AnswersOf(exchanges) + [x.answer]
  {
    var more := exchanges + [x];
    forall i | 0 <= i < |more|
      ensures more[i].InOrder() && p(AnswersOf(more[..i])) == Turn.Ask(more[i].call.frame, more[i].call.attempts)
    {
      assert more[..i] == exchanges[..i];
      if i == |exchanges| {
        assert more[..i] == exchanges;
      }
    }
  }

  /** A session's exchanges before and after one request: the request was made if its
      frame could be built. */
  predicate Made(before: seq<Exchange>, after: seq<Exchange>, frame: Attempt<bytes>, attempts: nat, answer: Answer) {
    if frame.Err? then after == before && answer == frame
    else
      && |after| == |before| + 1 && before <= after
      && var x := after[|before|];
         x.call.frame == frame.value && x.call.attempts == attempts && x.InOrder() && x.answer == answer
  }

  lemma NotMade(x: seq<Exchange>, frame: Attempt<bytes>, attempts: nat)
    ensures frame.Err? ==> Made(x, x, frame, attempts, frame)
  {}

  /** A request that was made is the program's next, if that is what the program asks for. */
  lemma Continues<T(!new)>(p: Program<T>, first: nat, before: seq<Exchange>, after: seq<Exchange>,
      frame: Attempt<bytes>, attempts: nat, answer: Answer)
    requires first <= |before| && Follows(p, before[first..]) && Made(before, after, frame, attempts, answer)
    requires frame.Ok? ==> p(AnswersOf(before[first..])) == Turn.Ask(frame.value, attempts)
    ensures before <= after && Follows(p, after[first..])
    ensures AnswersOf(after[first..]) == AnswersOf(before[first..]) + if frame.Ok? then [answer] else []
    ensures frame.Err? ==> answer == frame
  {
    if frame.Ok? {
      FollowsMore(p, before[first..], after[|before|]);
      assert after[first..] == before[first..] + [after[|before|]];
    } else {
      assert AnswersOf(after[first..]) == AnswersOf(before[first..]) + [];
    }
  }

  /** What a series of calls wrote. */
  function AllWrites(exchanges: seq<Exchange>): seq<bytes> {
    if exchanges == [] then []
    else AllWrites(exchanges[..|exchanges| - 1]) + exchanges[|exchanges| - 1].call.Writes()
  }

  lemma AllWritesMore(exchanges: seq<Exchange>, x: Exchange)
    ensures AllWrites(exchanges + [x]) == AllWrites(exchanges) + x.call.Writes()
  {
    assert (exchanges + [x])[..|exchanges|] == exchanges;
  }

  /** The current chunk, the number in its header (chunk[1] & 0x3F), and the number once
      it is acknowledged. */
  lemma ChunkAtHand(log: History, s: Sender)
    requires Replay(log) == Some(s) && InChunk(s.phase)
    ensures |Chunks(s.phase.frame, s.phase.start)| == ChunkCount(s.phase.frame)
    ensures CurrentChunk(s.phase) == Chunks(s.phase.frame, s.phase.start)[s.phase.index]
    ensures |CurrentChunk(s.phase)| >= 2 && CurrentChunk(s.phase)[1] % 64 == s.txSequence
    ensures s.phase.waiter.Resolved? ==> SenderStep(s, Acked).txSequence == Next(s.txSequence)
  {
    ReplayNumbers(log, s);
    ChunksParse(s.phase.frame, s.phase.start, s.phase.index);
  }

  lemma CountOfChunks(frame: Frame, start: Sequence)
    ensures |Chunks(frame, start)| == ChunkCount(frame) > 0
  {
    ChunksParse(frame, start, 0);
  }

  /** What an awaited response gave: the first one queued since before, if it is a frame
      that frame and if it is an error that; or nothing came in time, or the wait was
      cancelled. */
  predicate Responded(before: seq<Response>, after: seq<Response>, ending: Ending, answer: Answer) {
    match ending
    case Cancelling => answer == Err(Cancelled)
    case Elapsed => answer == Err(BleTimeout)
    case Woken =>
      if |after| <= |before| then answer == Err(BleTimeout)
      else
        match after[|before|]
        case Message(frame) => answer == Ok(frame)
        case Failure(error) => answer == Err(error)
  }

  function FailAll(waiters: map<Sequence, AckWaiter>, error: Fault): map<Sequence, AckWaiter> {
    map k | k in waiters :: if waiters[k].Open? then Failed(error) else waiters[k]
  }

  /** Exactly the current chunk, once written, has a waiter, and if that is done, an
      acknowledgement of that number was heard. */
  predicate Awaited(s: Sender, waiters: map<Sequence, AckWaiter>) {
    if InChunk(s.phase) && !s.phase.waiter.NotWritten? then
      && waiters.Keys == {s.txSequence}
      && (waiters[s.txSequence].Open? ==> s.phase.waiter.Pending?)
      && (waiters[s.txSequence].Done? ==> s.phase.waiter.Resolved?)
    else waiters == map[]
  }

  /** A waiter registered after so many failures is open while there is no other, and if it
      failed it was with the next. */
  predicate Noticed(waiters: map<Sequence, AckWaiter>, failures: seq<Fault>, since: nat) {
    && since <= |failures|
    && forall k :: k in waiters ==>
         && (waiters[k].Open? ==> |failures| == since)
         && (waiters[k].Failed? ==> since < |failures| && waiters[k].error == failures[since])
  }

  lemma OneWaiter(s: Sender, waiters: map<Sequence, AckWaiter>)
    requires Awaited(s, waiters) && InChunk(s.phase) && !s.phase.waiter.NotWritten?
    ensures waiters.Keys == {s.txSequence} && waiters - {s.txSequence} == map[]
  {}

  lemma FailedNoticed(waiters: map<Sequence, AckWaiter>, failures: seq<Fault>, since: nat, error: Fault)
    requires Noticed(waiters, failures, since)
    ensures Noticed(FailAll(waiters, error), failures + [error], since)
  {}

  function ResolveWaiter(waiters: map<Sequence, AckWaiter>, sequence: Sequence): map<Sequence, AckWaiter> {
    if sequence in waiters && waiters[sequence].Open? then waiters[sequence := Done] else waiters
  }

  lemma HeardAwaited(log: History, s: Sender, waiters: map<Sequence, AckWaiter>, sequence: Sequence)
    requires Replay(log) == Some(s) && Awaited(s, waiters)
    ensures Replay(Then(log, Heard(sequence))) == Some(Resolve(s, sequence))
    ensures AckedIn(Then(log, Heard(sequence))) == AckedIn(log)
    ensures Awaited(Resolve(s, sequence), ResolveWaiter(waiters, sequence))
    ensures
      var s' := Resolve(s, sequence);
      s' == s || (InChunk(s.phase) && s.phase.waiter.Pending? && s' == s.(phase := s.phase.(waiter := Resolved)))
  {
    ReplayNumbers(log, s);
  }

  lemma FailedAwaited(s: Sender, waiters: map<Sequence, AckWaiter>, error: Fault)
    requires Awaited(s, waiters)
    ensures Awaited(s, FailAll(waiters, error))
  {
    assert FailAll(waiters, error).Keys == waiters.Keys;
  }

  class TiltBleSession {
    const cipher: Cipher
    const mac: CryptoFrames.Mac
    const pairingKey: bytes
    const assembler: BleMessageAssembler
    var notificationQueue: seq<bytes>
    var responseQueue: seq<Response>
    var ackWaiters: map<Sequence, AckWaiter>
    var worker: Worker
    var txSequence: Sequence
    var counter: Counter
    var messageId: MessageId
    var nonce: Option<Nonce>

    // History: every failure, and how many there were when the last waiter was registered;
    // every response ever queued and how many were taken; the sender's steps; the chunks
    // written and acknowledged; the exchanges; and the ids taken.
    ghost var failures: seq<Fault>
    ghost var since: nat
    ghost var enqueued: seq<Response>
    ghost var dequeued: nat
    ghost var log: History
    ghost var sender: Sender
    ghost var written: seq<bytes>
    ghost var acknowledged: nat
    ghost var exchanges: seq<Exchange>
    ghost var takes: nat

    ghost predicate Consistent()
      reads this
    {
      && |notificationQueue| <= NOTIFICATION_LIMIT
      && |responseQueue| <= RESPONSE_LIMIT
      && dequeued <= |enqueued| && responseQueue == enqueued[dequeued..]
      && Replay(log) == Some(sender)
      && sender.txSequence == txSequence && acknowledged == AckedIn(log)
    }

    ghost predicate Coupled()
      reads this
    {
      Awaited(sender, ackWaiters) && Noticed(ackWaiters, failures, since)
    }

    ghost predicate Valid()
      reads this
    {
      Consistent() && Coupled()
    }

    /** The next pair of ids is the one that the pairs taken so far lead to. */
    ghost predicate Counting()
      reads this
    {
      Pair(counter, messageId) == AfterTakes(takes)
    }

    /** A session between requests: what was written is what its calls wrote. */
    ghost predicate Ready()
      reads this
    {
      Valid() && Counting() && sender.phase.Idle? && written == AllWrites(exchanges)
    }

    twostate predicate SameIds()
      reads this
    {
      && counter == old(counter) && messageId == old(messageId) && nonce == old(nonce)
      && takes == old(takes) && exchanges == old(exchanges)
    }

    /** What no worker step or notification changes; a waiter that is done stays so. */
    twostate predicate Steady()
      reads this
    {
      && SameIds()
      && txSequence == old(txSequence) && acknowledged == old(acknowledged)
      && written == old(written) && dequeued == old(dequeued)
      && old(enqueued) <= enqueued && old(failures) <= failures && since == old(since)
      && (old(responseQueue) != [] ==> responseQueue != [])
      && (|| sender == old(sender)
          || (&& InChunk(old(sender).phase) && old(sender).phase.waiter.Pending?
              && sender == old(sender).(phase := old(sender).phase.(waiter := Resolved))))
    }

    constructor (cipher: Cipher, mac: CryptoFrames.Mac, pairingKey: bytes)
      ensures Ready() && worker.Stopped? && fresh(assembler)
      ensures this.cipher == cipher && this.mac == mac && this.pairingKey == pairingKey
      ensures nonce == None && takes == 0 && exchanges == []
      ensures txSequence == 1 && responseQueue == [] && written == [] && sender == Sender(1, Idle)
      ensures assembler.State() == Assembly(1, [])
    {
      this.cipher, this.mac, this.pairingKey := cipher, mac, pairingKey;
      counter, messageId, nonce, takes, exchanges := 1, 1, None, 0, [];
      assembler := new BleMessageAssembler(1);
      notificationQueue, responseQueue, ackWaiters, worker, txSequence := [], [], map[], Stopped, 1;
      failures, since := [], 0;
      enqueued, dequeued, log, sender, written, acknowledged := [], 0, History.Start, Sender(1, Idle), [], 0;
    }

    /** start: the worker begins to take notifications. */
    method Start()
      requires Ready()
      modifies this`worker
      ensures Ready() && worker == Waiting
    {
      worker := Waiting;
    }

    // ---- notifications and the worker ----

    /** Whatever an awaited write may raise. */
    static method Raise() returns (e: Fault) {
      e := *;
    }

    /** put_nowait: false when the queue is full. */
    method PutResponse(response: Response) returns (ok: bool)
      requires Valid()
      modifies this`responseQueue, this`enqueued
      ensures Valid() && Steady()
      ensures ok <==> |old(responseQueue)| < 4
      ensures responseQueue == if ok then old(responseQueue) + [response] else old(responseQueue)
      ensures enqueued == if ok then old(enqueued) + [response] else old(enqueued)
    {
      ok := |responseQueue| < RESPONSE_LIMIT;
      if ok {
        responseQueue := responseQueue + [response];
        enqueued := enqueued + [response];
      }
    }

    /** _fail's effect: the waiters that were not done have failed, and the error is queued
        if there was room. */
    twostate predicate FailedWith(error: Fault)
      reads this
    {
      && failures == old(failures) + [error] && ackWaiters == FailAll(old(ackWaiters), error)
      && responseQueue == (if |old(responseQueue)| < 4 then old(responseQueue) + [Failure(error)]
                           else old(responseQueue))
    }

    /** Nothing was heard, failed or queued. */
    twostate predicate Quiet()
      reads this
    {
      && ackWaiters == old(ackWaiters) && responseQueue == old(responseQueue) && sender == old(sender)
      && failures == old(failures)
    }

    /** _fail: either way the response queue is left non-empty. */
    method Fail(error: Fault)
      requires Valid()
      modifies this`ackWaiters, this`responseQueue, this`enqueued, this`failures
      ensures Valid() && Steady() && responseQueue != []
      ensures FailedWith(error)
      ensures ackWaiters.Keys == old(ackWaiters).Keys
      ensures forall k :: k in ackWaiters ==>
                ackWaiters[k] == if old(ackWaiters)[k] == Open then Failed(error) else old(ackWaiters)[k]
    {
      FailedAwaited(sender, ackWaiters, error);
      FailedNoticed(ackWaiters, failures, since, error);
      failures := failures + [error];
      ackWaiters := FailAll(ackWaiters, error);
      var _ := PutResponse(Failure(error));
    }

    method NotificationReceived(data: bytes)
      requires Valid()
      modifies this`notificationQueue, this`ackWaiters, this`responseQueue, this`enqueued, this`failures
      ensures Valid() && Steady()
      ensures if |old(notificationQueue)| < 128 then
                notificationQueue == old(notificationQueue) + [data] && Quiet()
              else
                notificationQueue == old(notificationQueue) && FailedWith(Ble) && responseQueue != []
    {
      if |notificationQueue| < NOTIFICATION_LIMIT {
        notificationQueue := notificationQueue + [data];
      } else {
        Fail(Ble);
      }
    }

    /** An acknowledgement resolves the waiter of its number, unless it is done. */
    method HearAck(sequence: Sequence)
      requires Valid()
      modifies this`ackWaiters, this`sender, this`log
      ensures Valid() && Steady()
      ensures sender == Resolve(old(sender), sequence) && ackWaiters == ResolveWaiter(old(ackWaiters), sequence)
    {
      HeardAwaited(log, sender, ackWaiters, sequence);
      sender, log := Resolve(sender, sequence), Then(log, Heard(sequence));
      if sequence in ackWaiters && ackWaiters[sequence].Open? {
        ackWaiters := ackWaiters[sequence := Done];
      }
    }

    /** The worker takes the oldest notification.  An acknowledgement is heard; a chunk
        goes to the assembler, and if it is accepted the worker awaits the writing of its
        acknowledgement; anything else fails the session. */
    method WorkerTakes()
      requires Valid() && worker.Waiting? && notificationQueue != []
      modifies this`notificationQueue, this`ackWaiters, this`responseQueue, this`enqueued, this`worker,
        this`failures, this`sender, this`log, assembler
      ensures Valid() && Steady()
      ensures notificationQueue == old(notificationQueue)[1..]
      ensures
        var data := old(notificationQueue)[0];
        var chunk, ack := ParseBleChunk(data), ParseBleAck(data);
        if chunk.Ok? && chunk.value.forBluetoothLayer then
          && assembler.State() == old(assembler.State()) && worker.Waiting?
          && (if ack.Ok? then
                && responseQueue == old(responseQueue)
                && sender == Resolve(old(sender), ack.value) && ackWaiters == ResolveWaiter(old(ackWaiters), ack.value)
              else FailedWith(ack.error) && sender == old(sender))
        else
          var (state, outcome) := Add(old(assembler.State()), data);
          && assembler.State() == state
          && (if outcome.Ok? then Quiet() && worker == Acking(outcome.value.message)
              else FailedWith(outcome.error) && sender == old(sender) && worker.Waiting?)
    {
      var data := notificationQueue[0];
      notificationQueue := notificationQueue[1..];
      var chunk := ParseBleChunk(data);
      if chunk.Err? {
        Fail(chunk.error);
      } else if chunk.value.forBluetoothLayer {
        var ack := ParseBleAck(data);
        if ack.Err? {
          Fail(ack.error);
        } else {
          HearAck(ack.value);
        }
      } else {
        var receipt := assembler.AddChunk(data);
        if receipt.Err? {
          Fail(receipt.error);
        } else {
          worker := Acking(receipt.value.message);
        }
      }
    }

    /** The write of the acknowledgement ends; a completed message is queued.  Only a
        cancellation ends the worker. */
    method WorkerAckEnds(failure: Option<Fault>)
      requires Valid() && worker.Acking?
      modifies this`ackWaiters, this`responseQueue, this`enqueued, this`failures, this`worker
      ensures Valid() && Steady()
      ensures worker == if failure == Some(Cancelled) then Stopped else Waiting
      ensures
        var message := old(worker).message;
        match failure
        case Some(e) => if e == Cancelled then Quiet() else FailedWith(e)
        case None =>
          if message.None? then Quiet()
          else if |old(responseQueue)| < 4 then
            responseQueue == old(responseQueue) + [Message(message.value)] && ackWaiters == old(ackWaiters)
          else FailedWith(Other)
    {
      var message := worker.message;
      if failure == Some(Cancelled) {
        worker := Stopped;
        return;
      }
      worker := Waiting;
      if failure.Some? {
        Fail(failure.value);
      } else if message.Some? {
        var ok := PutResponse(Message(message.value));
        if !ok {
          Fail(Other);
        }
      }
    }

    /** An await: any number of notifications arrive, and the worker takes any number of
        steps. */
    method Interleave()
      requires Valid()
      modifies this, assembler
      ensures Valid() && Steady()
    {
      var steps: nat := *;
      while steps > 0
        invariant Valid() && Steady()
      {
        steps := steps - 1;
        var arrives: bool := *;
        if arrives {
          var data: bytes := *;
          NotificationReceived(data);
        } else if worker.Waiting? && notificationQueue != [] {
          WorkerTakes();
        } else if worker.Acking? {
          var raises: bool := *;
          if raises {
            var failure := Raise();
            WorkerAckEnds(Some(failure));
          } else {
            WorkerAckEnds(None);
          }
        }
      }
    }

    // ---- sending ----

    /** Record a step of the sender. */
    ghost method Step(e: SenderEvent)
      requires Replay(log) == Some(sender) && SenderEnabled(sender, e) && acknowledged == AckedIn(log)
      modifies this`sender, this`log, this`acknowledged
      ensures Replay(log) == Some(sender) && sender == SenderStep(old(sender), e)
      ensures acknowledged == AckedIn(log) == old(acknowledged) + if e == Acked then 1 else 0
    {
      sender, log := SenderStep(sender, e), Then(log, Did(e));
      acknowledged := AckedIn(log);
    }

    /** Whatever an await does is done to this state only. */
    twostate predicate OnlyAwaited()
      reads this
    {
      && SameIds()
      && acknowledged == old(acknowledged) && dequeued == old(dequeued)
      && old(enqueued) <= enqueued
    }

    /** wait_for(waiter, timeout): a waiter that is done gives its result or its error, and
        one that is never done ends in a time-out. */
    method AwaitAck(sequence: Sequence, ending: Ending) returns (r: Attempt<()>)
      requires Valid() && InChunk(sender.phase) && !sender.phase.waiter.NotWritten? && sequence == txSequence
      modifies this, assembler
      ensures Valid() && Steady() && sequence in ackWaiters
      ensures ending.Cancelling? ==> r == Err(Cancelled)
      ensures ending.Elapsed? ==> r == Err(Timeout)
      ensures ending.Woken? && ackWaiters[sequence].Done? ==> r == Ok(()) && sender.phase.waiter.Resolved?
      ensures ending.Woken? && ackWaiters[sequence].Failed? ==>
                r == Err(ackWaiters[sequence].error) && since < |failures| && r == Err(failures[since])
      ensures ending.Woken? && ackWaiters[sequence].Open? ==>
                r == Err(Timeout) && sender.phase.waiter.Pending? && since == |failures|
    {
      Interleave();
      OneWaiter(sender, ackWaiters);
      match ending {
        case Cancelling => r := Err(Cancelled);
        case Elapsed => r := Err(Timeout);
        case Woken =>
          match ackWaiters[sequence] {
            case Done => r := Ok(());
            case Failed(e) => r := Err(e);
            case Open => r := Err(Timeout);
          }
      }
    }

    /** A new waiter is registered and the write of the chunk begins. */
    method BeginWrite(sequence: Sequence, chunk: bytes)
      requires Valid() && InChunk(sender.phase) && sender.phase.waiter.NotWritten?
      requires sequence == txSequence && chunk == CurrentChunk(sender.phase)
      modifies this`ackWaiters, this`since, this`written, this`log, this`sender, this`acknowledged
      ensures Valid() && acknowledged == old(acknowledged) && written == old(written) + [chunk]
      ensures sender == old(sender).(phase := old(sender).phase.(waiter := Pending)) && since == |failures|
    {
      hide Chunks, ChunkCount, CurrentChunk, Key, Replay, AckedIn;
      ackWaiters, since := ackWaiters[sequence := Open], |failures|;
      written := written + [chunk];
      Step(Write);
    }

    /** One attempt at a chunk: the try statement with its finally clause.  The write may
        raise; whether the chunk then went out is left open.  A wait that is neither cut
        short nor cancelled gives the acknowledgement, or the first failure since. */
    method TryChunk(sequence: Sequence, chunk: bytes, write: Option<Fault>, ending: Ending) returns (r: Attempt<()>)
      requires Valid() && InChunk(sender.phase) && sender.phase.waiter.NotWritten?
      requires sequence == txSequence && chunk == CurrentChunk(sender.phase)
      modifies this, assembler
      ensures Consistent() && OnlyAwaited() && ackWaiters == map[] && since <= |failures| && old(failures) <= failures
      ensures written == old(written) + [chunk] && txSequence == old(txSequence)
      ensures InChunk(sender.phase) && !sender.phase.waiter.NotWritten?
      ensures sender == old(sender).(phase := old(sender).phase.(waiter := sender.phase.waiter))
      ensures
        match write
        case Some(e) => r == Err(e)
        case None =>
          match ending
          case Cancelling => r == Err(Cancelled)
          case Elapsed => r == Err(Timeout)
          case Woken =>
            || (r == Ok(()) && sender.phase.waiter.Resolved?)
            || (failures == old(failures) && r == Err(Timeout) && sender.phase.waiter.Pending?)
            || (|failures| > |old(failures)| && r == Err(failures[|old(failures)|]))
    {
      hide Chunks, ChunkCount, CurrentChunk, Key, Replay, AckedIn, Times, Awaited, Noticed;
      BeginWrite(sequence, chunk);
      Interleave();
      if write.Some? {
        r := Err(write.value);
      } else {
        r := AwaitAck(sequence, ending);
      }
      OneWaiter(sender, ackWaiters);
      ackWaiters := ackWaiters - {sequence};
    }

    /** How the next await will end: whatever the link, the clock and others make of it. */
    static method Choose() returns (write: Option<Fault>, ending: Ending) {
      var raises: bool := *;
      write, ending := None, *;
      if raises {
        var failure := Raise();
        write := Some(failure);
      }
    }

    /** The sender's step after a try that was acknowledged: its number moves on. */
    method MoveOn(sequence: Sequence)
      requires Consistent() && ackWaiters == map[] && since <= |failures| && sequence == txSequence
      requires InChunk(sender.phase) && sender.phase.waiter.Resolved?
      modifies this`txSequence, this`sender, this`log, this`acknowledged
      ensures Valid() && acknowledged == old(acknowledged) + 1
      ensures
        var p := old(sender).phase;
        sender.phase == p.(index := p.index + 1, attempt := 0, waiter := NotWritten)
    {
      hide Chunks, ChunkCount, CurrentChunk, Replay, AckedIn;
      ChunkAtHand(log, sender);
      Step(Acked);
      txSequence := Next(sequence);
    }

    /** And after one that was not. */
    ghost method FallBack(e: SenderEvent)
      requires Consistent() && ackWaiters == map[] && since <= |failures| && (e.Raised? || e.TimedOut?)
      requires InChunk(sender.phase) && !sender.phase.waiter.NotWritten?
      modifies this`sender, this`log, this`acknowledged
      ensures Valid() && acknowledged == old(acknowledged) && sender.txSequence == old(sender).txSequence
      ensures
        var p := old(sender).phase;
        sender.phase == if e.Raised? || p.attempt + 1 >= p.attempts then Idle
                        else p.(attempt := p.attempt + 1, waiter := NotWritten)
    {
      hide Chunks, ChunkCount, CurrentChunk, Key, Replay, AckedIn;
      Step(e);
    }

    /** One attempt, and the sender's step after it. */
    method TryOnce(sequence: Sequence, chunk: bytes) returns (r: Attempt<()>)
      requires Valid() && InChunk(sender.phase) && sender.phase.waiter.NotWritten?
      requires sequence == txSequence && chunk == CurrentChunk(sender.phase)
      modifies this, assembler
      ensures Valid() && dequeued == old(dequeued) && old(enqueued) <= enqueued && SameIds()
      ensures written == old(written) + [chunk] && acknowledged == old(acknowledged) + if r.Ok? then 1 else 0
      ensures r.Err? ==> txSequence == old(txSequence)
      ensures
        var p := old(sender).phase;
        sender.phase ==
        if r.Ok? then p.(index := p.index + 1, attempt := 0, waiter := NotWritten)
        else if r == Err(Timeout) && p.attempt + 1 < p.attempts then p.(attempt := p.attempt + 1)
        else Idle
    {
      hide TiltBleSession.Consistent, TiltBleSession.Coupled, Chunks, SenderStep, SenderEnabled;
      var write, ending := Choose();
      r := TryChunk(sequence, chunk, write, ending);
      if r.Ok? {
        MoveOn(sequence);
      } else if r.error == Timeout {
        FallBack(TimedOut);
      } else {
        FallBack(Raised);
      }
    }

    /** All attempts at a chunk: only a time-out is tried again. */
    method SendChunk(sequence: Sequence, chunk: bytes, attempts: nat) returns (r: Attempt<()>, ghost tries: Tries)
      requires Valid() && InChunk(sender.phase) && 1 <= attempts
      requires sender.phase.waiter.NotWritten? && sender.phase.attempt == 0 && sender.phase.attempts == attempts
      requires sequence == txSequence && chunk == CurrentChunk(sender.phase)
      modifies this, assembler
      ensures Valid() && WellTried(tries, attempts) && r == OutcomeOf(tries)
      ensures dequeued == old(dequeued) && old(enqueued) <= enqueued && SameIds()
      ensures written == old(written) + Copies(chunk, |tries|)
      ensures acknowledged == old(acknowledged) + if r.Ok? then 1 else 0
      ensures r != Err(Timeout)
      ensures
        var p := old(sender).phase;
        sender.phase == if r.Ok? then p.(index := p.index + 1, attempt := 0, waiter := NotWritten) else Idle
    {
      hide TiltBleSession.Valid, Chunks, WellTried, OutcomeOf;
      var attempt := 0;
      tries := [];
      ghost var p := sender.phase;
      while true
        invariant attempt < attempts && |tries| == attempt
        invariant forall i :: 0 <= i < |tries| ==> tries[i] == Err(Timeout)
        invariant Valid() && OnlyAwaited() && txSequence == sequence
        invariant sender.phase == p.(attempt := attempt)
        invariant written == old(written) + Copies(chunk, |tries|)
        decreases attempts - attempt
      {
        r := TryOnce(sequence, chunk);
        if r != Err(Timeout) || attempt + 1 == attempts {
          LastTry(tries, r, attempts);
        }
        tries := tries + [r];
        if r.Ok? || r.error != Timeout {
          return;
        }
        if attempt + 1 == attempts {
          r := Err(BleTimeout);
          return;
        }
        attempt := attempt + 1;
      }
    }

    /** All chunks of a frame, in order. */
    method SendChunks(frame: Frame, chunks: seq<bytes>, attempts: nat)
      returns (r: Attempt<()>, ghost tries: seq<Tries>, ghost acked: nat)
      requires Valid() && sender.phase == Sending(frame, txSequence, 0, 0, attempts, NotWritten)
      requires chunks == Chunks(frame, txSequence) && |chunks| == ChunkCount(frame) > 0 && 1 <= attempts
      modifies this, assembler
      ensures Valid() && dequeued == old(dequeued) && old(enqueued) <= enqueued
      ensures SameIds()
      ensures 0 < |tries| <= |chunks| && AllTried(tries, attempts) && Acknowledged(tries, acked)
      ensures written == old(written) + Times(chunks, Counts(tries)) && acknowledged == old(acknowledged) + acked
      ensures
        if r.Ok? then
          acked == |tries| == |chunks| && sender.phase.Sending? && sender.phase.index == ChunkCount(sender.phase.frame)
        else acked + 1 == |tries| && r == OutcomeOf(tries[acked]) && sender.phase.Idle?
    {
      hide Chunks, ChunkCount, CurrentChunk, Key, Replay, AckedIn, Copies, Times, AllTried, Acknowledged, WellTried;
      NoTimes(chunks, attempts);
      tries, acked := [], 0;
      ghost var p := sender.phase;
      var i := 0;
      while i < |chunks|
        invariant |tries| == acked == i <= |chunks| && AllTried(tries, attempts) && Acknowledged(tries, acked)
        invariant Valid() && dequeued == old(dequeued) && old(enqueued) <= enqueued
        invariant SameIds()
        invariant sender.phase == p.(index := i)
        invariant written == old(written) + Times(chunks, Counts(tries))
        invariant acknowledged == old(acknowledged) + acked
      {
        ChunkAtHand(log, sender);
        ghost var more: Tries;
        r, more := SendChunk(chunks[i][1] % 64, chunks[i], attempts);
        TimesMore(chunks, tries, more);
        TriedMore(tries, more, attempts);
        tries := tries + [more];
        if r.Err? {
          return;
        }
        i, acked := i + 1, acked + 1;
      }
      r := Ok(());
    }

    /** The response queue, awaited until a time-out: the oldest response in it, or the
        error that stands in its place. */
    method AwaitResponse(ending: Ending) returns (r: Attempt<bytes>)
      requires Valid()
      modifies this, assembler
      ensures Valid() && txSequence == old(txSequence) && acknowledged == old(acknowledged) && written == old(written)
      ensures old(enqueued) <= enqueued && SameIds()
      ensures InChunk(old(sender).phase) || sender == old(sender)
      ensures
        match ending
        case Cancelling => r == Err(Cancelled) && dequeued == old(dequeued)
        case Elapsed => r == Err(BleTimeout) && dequeued == old(dequeued)
        case Woken =>
          if old(dequeued) == |enqueued| then r == Err(BleTimeout) && dequeued == old(dequeued)
          else
            && dequeued == old(dequeued) + 1
            && match enqueued[old(dequeued)]
               case Message(frame) => r == Ok(frame)
               case Failure(error) => r == Err(error)
    {
      Interleave();
      match ending {
        case Cancelling => r := Err(Cancelled);
        case Elapsed => r := Err(BleTimeout);
        case Woken =>
          if responseQueue == [] {
            return Err(BleTimeout);
          }
          var response := responseQueue[0];
          responseQueue := responseQueue[1..];
          dequeued := dequeued + 1;
          match response {
            case Message(frame) => r := Ok(frame);
            case Failure(error) => r := Err(error);
          }
      }
    }

    /** The part of _send_frame that writes and awaits. */
    method SendAndAwait(frame: Frame, chunks: seq<bytes>, attempts: nat, ending: Ending)
      returns (r: Attempt<bytes>, ghost tries: seq<Tries>, ghost acked: nat)
      requires Valid() && sender.phase.Idle? && responseQueue == [] && 1 <= attempts <= 2
      requires chunks == Chunks(frame, txSequence) && |chunks| == ChunkCount(frame) > 0
      modifies this, assembler
      ensures Valid() && sender.phase.Idle? && old(enqueued) <= enqueued && SameIds()
      ensures 0 < |tries| <= |chunks| && acked <= |tries| && AllTried(tries, attempts) && Acknowledged(tries, acked)
      ensures written == old(written) + Times(chunks, Counts(tries)) && acknowledged == old(acknowledged) + acked
      ensures if acked == |chunks| then Responded(old(enqueued), enqueued, ending, r)
              else acked + 1 == |tries| && OutcomeOf(tries[acked]).Err? && r == Err(OutcomeOf(tries[acked]).error)
    {
      hide AllTried, Acknowledged, Times, Copies;
      Step(Begin(frame, attempts));
      var sent: Attempt<()>;
      sent, tries, acked := SendChunks(frame, chunks, attempts);
      if sent.Err? {
        return Err(sent.error), tries, acked;
      }
      r := AwaitResponse(ending);
      Step(Finished);
    }

    twostate predicate SameIdentity()
      reads this
    {
      counter == old(counter) && messageId == old(messageId) && nonce == old(nonce) && takes == old(takes)
    }

    /** One exchange was made, if there is a frame, each chunk of it written up to so many
        times; a frame it returned is the first response queued since. */
    twostate predicate Exchanged(frame: Attempt<bytes>, attempts: nat, ending: Ending, new answer: Answer)
      reads this
    {
      && Made(old(exchanges), exchanges, frame, attempts, answer) && old(enqueued) <= enqueued
      && (frame.Ok? ==>
            && var call := exchanges[|old(exchanges)|].call;
            && (answer.Ok? ==> call.acked == ChunkCount(call.frame))
            && (call.acked == ChunkCount(call.frame) ==> Responded(old(enqueued), enqueued, ending, answer)))
    }

    /** Nothing happened to the session, nor on the link. */
    twostate predicate Untouched()
      reads this
    {
      && notificationQueue == old(notificationQueue) && responseQueue == old(responseQueue)
      && ackWaiters == old(ackWaiters) && worker == old(worker) && txSequence == old(txSequence)
      && SameIdentity() && written == old(written) && acknowledged == old(acknowledged) && sender == old(sender)
    }

    /** _send_frame.  With anything left in the response queue it raises before it
        writes; otherwise it writes each chunk until it is acknowledged, and what it
        returns is the first response queued after it was called. */
    method SendFrame(frame: bytes, retryChunks: bool, ending: Ending) returns (r: Attempt<bytes>)
      requires Ready()
      modifies this, assembler
      ensures Ready() && SameIdentity() && ackWaiters == map[]
      ensures txSequence == SequenceAt(1, acknowledged)
      ensures old(responseQueue) != [] ==> r == Err(Ble) && Untouched()
      ensures old(responseQueue) == [] && frame == [] ==> r == Err(Protocol) && Untouched()
      ensures if frame == [] then exchanges == old(exchanges)
              else Exchanged(Ok(frame), if retryChunks then 2 else 1, ending, r)
      ensures old(responseQueue) == [] && frame != [] ==>
                var call := exchanges[|old(exchanges)|].call;
                call.start == old(txSequence) && acknowledged == old(acknowledged) + call.acked && call.tries != []
    {
      hide Chunks, ChunkCount, Replay, AckedIn, AfterTakes, Times, Copies, AllTried, Acknowledged, AllWrites,
        SequenceAt, Key;
      ReplayNumbers(log, sender);
      ghost var start, attempts: Attempts := txSequence, if retryChunks then 2 else 1;
      if responseQueue != [] {
        if frame != [] {
          CountOfChunks(frame, txSequence);
          Record(Exchange(Call(frame, start, attempts, [], 0), Err(Ble)));
        }
        return Err(Ble);
      }
      var chunks :- ChunkForBle(frame, txSequence);
      CountOfChunks(frame, txSequence);
      ghost var tries: seq<Tries>, acked: nat;
      r, tries, acked := SendAndAwait(frame, chunks, if retryChunks then 2 else 1, ending);
      AllWritesMore(exchanges, Exchange(Call(frame, start, attempts, tries, acked), r));
      exchanges := exchanges + [Exchange(Call(frame, start, attempts, tries, acked), r)];
      ReplayNumbers(log, sender);
    }

    /** Record a call that raised before it wrote anything. */
    ghost method Record(x: Exchange)
      requires Ready() && x.call.tries == [] && x.call.acked == 0 && x.answer == Err(Ble)
      modifies this`exchanges
      ensures Ready() && exchanges == old(exchanges) + [x] && x.InOrder()
    {
      NoTimes(Chunks(x.call.frame, x.call.start), x.call.attempts);
      AllWritesMore(exchanges, x);
      assert written + [] == written;
      exchanges := exchanges + [x];
    }

    // ---- requests ----

    method TakeApplicationIds() returns (p: Pair)
      requires Ready()
      modifies this`counter, this`messageId, this`takes
      ensures Ready() && takes == old(takes) + 1 && p == PairAt(old(takes))
    {
      p := Pair(counter, messageId);
      TakesInCycles(takes);
      counter := if counter == MAX_COUNTER then 1 else counter + 1;
      messageId := if messageId == MESSAGE_IDS then 1 else messageId + 1;
      takes := takes + 1;
    }

    /** The channel that a nonce opens. */
    function Over(n: Nonce): Channel {
      Channel(cipher, pairingKey, n)
    }

    /** What one request leaves of the session: it took one pair of ids, and if its frame
        could be built made one exchange of it, with this answer. */
    twostate predicate Requested(frame: Attempt<bytes>, attempts: nat, ending: Ending, new answer: Answer)
      reads this
    {
      Ready() && nonce == old(nonce) && takes == old(takes) + 1 && Exchanged(frame, attempts, ending, answer)
    }

    /** Send a request, if its frame could be built; one that could not is not sent. */
    method Send(encoded: Attempt<Frame>, retryChunks: bool, ending: Ending) returns (answer: Answer)
      requires Ready()
      modifies this, assembler
      ensures Ready() && SameIdentity() && Exchanged(encoded, if retryChunks then 2 else 1, ending, answer)
    {
      hide TiltBleSession.Ready, ChunkCount, Exchange.InOrder, Responded, Made;
      answer := encoded;
      NotMade(exchanges, encoded, if retryChunks then 2 else 1);
      var frame :- encoded;
      answer := SendFrame(frame, retryChunks, ending);
    }

    /** A read: what it returns was decoded, under the ids of this very request, from
        the first response queued after it was made.  Without a nonce nothing is
        written. */
    method ApplicationRequest(command: ShadeCommand, retryChunks: bool, ending: Ending)
      returns (r: Attempt<ApplicationResponse>, ghost answer: Answer)
      requires Ready()
      modifies this, assembler
      ensures old(nonce).None? ==> r == Err(Authentication) && unchanged(this)
      ensures old(nonce).Some? ==>
                var c := Over(old(nonce).value);
                && Requested(c.ReadRequest(command, old(takes)), if retryChunks then 2 else 1, ending, answer)
                && r == c.Accepted(command, old(takes), answer)
    {
      hide TiltBleSession.Ready, DecodeApplicationResponse, EncodeReadRequest, ShadeCommand.IsRead, CounterAt,
        MessageIdAt, ChunkCount, Exchange.InOrder, Responded, Made;
      if nonce.None? {
        return Err(Authentication), Err(Authentication);
      }
      var n := nonce.value;
      var ids := TakeApplicationIds();
      EncodeErrors(cipher, command, 0, pairingKey, n, ids.counter, ids.messageId);
      FramesFit(Over(n), command, 0, 1, old(takes));
      var given := Send(EncodeReadRequest(cipher, command, pairingKey, n, ids.counter, ids.messageId), retryChunks,
                        ending);
      answer := given;
      var reply :- given;
      DecodeErrors(cipher, reply, pairingKey, n, command, ids.messageId, Some(ids.counter));
      r := DecodeApplicationResponse(cipher, reply, pairingKey, n, command, ids.messageId, Some(ids.counter));
    }

    method ReadStatus(ending: Ending) returns (r: Attempt<ShadeStatus>, ghost answer: Answer)
      requires Ready()
      modifies this, assembler
      ensures old(nonce).None? ==> r == Err(Authentication) && unchanged(this)
      ensures old(nonce).Some? ==>
                var c := Over(old(nonce).value);
                && Requested(c.ReadRequest(GetStatus, old(takes)), 2, ending, answer)
                && r == c.StatusFrom(old(takes), answer)
    {
      hide TiltBleSession.Ready, DecodeApplicationResponse, EncodeReadRequest, CounterAt, MessageIdAt, ChunkCount,
        Exchange.InOrder, Responded, Made;
      var response: ApplicationResponse;
      response, answer :- ApplicationRequest(GetStatus, true, ending);
      r := ParseStatus(response);
    }

    /** A movement, written once: no chunk of it is tried again. */
    method SetPosition(positionPercent: int, ending: Ending) returns (r: Attempt<()>, ghost answer: Answer)
      requires Ready()
      modifies this, assembler
      ensures old(nonce).None? ==> r == Err(Authentication) && unchanged(this)
      ensures old(nonce).Some? ==>
                var c := Over(old(nonce).value);
                && Requested(c.PositionRequest(positionPercent, old(takes)), 1, ending, answer)
                && r == c.Obeyed(old(takes), answer)
    {
      hide TiltBleSession.Ready, DecodeApplicationResponse, EncodePositionRequest, CounterAt, MessageIdAt, ChunkCount,
        Exchange.InOrder, Responded, Made;
      if nonce.None? {
        return Err(Authentication), Err(Authentication);
      }
      var n := nonce.value;
      var ids := TakeApplicationIds();
      EncodeErrors(cipher, GetStatus, positionPercent, pairingKey, n, ids.counter, ids.messageId);
      FramesFit(Over(n), GetStatus, positionPercent, 1, old(takes));
      var given := Send(EncodePositionRequest(cipher, positionPercent, pairingKey, n, ids.counter, ids.messageId, 100),
                        false, ending);
      answer := given;
      var reply :- given;
      DecodeErrors(cipher, reply, pairingKey, n, AppCodec.SetPosition, ids.messageId, Some(ids.counter));
      var _ :- DecodeApplicationResponse(cipher, reply, pairingKey, n, AppCodec.SetPosition, ids.messageId,
                                         Some(ids.counter));
      r := Ok(());
    }

    // ---- authentication ----

    /** asyncio.sleep: nothing but what others do meanwhile, unless it is cancelled. */
    method Sleep(cancelled: bool) returns (r: Attempt<()>)
      requires Ready()
      modifies this, assembler
      ensures Ready() && SameIds() && old(enqueued) <= enqueued
      ensures r == if cancelled then Err(Cancelled) else Ok(())
    {
      Interleave();
      r := if cancelled then Err(Cancelled) else Ok(());
    }

    /** One request of the handshake, after its pause, which may be cancelled: the next
        that program asks for, after its exchanges from the first-th on. */
    method Ask<T(!new)>(frame: Frame, cancelled: bool, ghost program: Program<T>, ghost first: nat)
      returns (r: Attempt<bytes>)
      requires Ready() && first <= |exchanges| && Follows(program, exchanges[first..])
      requires program(AnswersOf(exchanges[first..])) == Turn.Ask(frame, 2)
      modifies this, assembler
      ensures Ready() && SameIdentity() && old(exchanges) <= exchanges && Follows(program, exchanges[first..])
      ensures AnswersOf(exchanges[first..]) == AnswersOf(old(exchanges)[first..]) + if cancelled then [] else [r]
      ensures cancelled ==> r == Err(Cancelled)
    {
      var pause := Sleep(cancelled);
      if pause.Err? {
        assert AnswersOf(exchanges[first..]) == AnswersOf(exchanges[first..]) + [];
        return Err(pause.error);
      }
      var _, ending := Choose();
      r := SendFrame(frame, true, ending);
      FollowsMore(program, old(exchanges)[first..], exchanges[|old(exchanges)|]);
      assert exchanges[first..] == old(exchanges)[first..] + [exchanges[|old(exchanges)|]];
    }

    /** The exchanges of a handshake, and how it ended: as its program says, unless one of
        its four pauses was cancelled, of which three are before its requests and the last is
        after the nonce was set. */
    twostate predicate HandshakeMade(cancelAt: Option<nat>, new r: Attempt<()>)
      reads this
    {
      && old(exchanges) <= exchanges
      && var p, x := Handshaking(mac, pairingKey), exchanges[|old(exchanges)|..];
      && Follows(p, x) && (cancelAt.Some? ==> |x| <= cancelAt.value)
      && match p(AnswersOf(x))
         case Ask(_, _) => r == Err(Cancelled) && nonce == old(nonce) && cancelAt == Some(|x|)
         case Return(Ok(n)) => nonce == Some(n) && r == (if cancelAt == Some(3) then Err(Cancelled) else Ok(()))
         case Return(Err(e)) => r == Err(e) && nonce == old(nonce)
    }

    method KeepNonce(n: Nonce)
      requires Ready()
      modifies this`nonce
      ensures Ready() && nonce == Some(n)
    {
      nonce := Some(n);
    }

    /** The first two exchanges of a handshake: a version is offered, selected and
        confirmed. */
    method Negotiate(cancelAt: Option<nat>) returns (r: Attempt<byte>)
      requires Ready()
      modifies this, assembler
      ensures Ready() && SameIdentity() && old(exchanges) <= exchanges
      ensures
        var p, x := Handshaking(mac, pairingKey), exchanges[|old(exchanges)|..];
        && Follows(p, x) && |x| <= 2 && (cancelAt.Some? ==> |x| <= cancelAt.value)
        && match p(AnswersOf(x))
           case Ask(frame, attempts) =>
             if r.Ok? then |x| == 2 && frame == NONCE_REQUEST && attempts == 2
             else r == Err(Cancelled) && cancelAt == Some(|x|)
           case Return(Ok(_)) => false
           case Return(Err(e)) => r == Err(e)
    {
      hide TiltBleSession.Ready, ChooseVersion, CheckSelection, CheckNonce, CryptoFrames.CryptoFrame, Brief, Follows,
        ChunkCount;
      ghost var n, p := |exchanges|, Handshaking(mac, pairingKey);
      assert exchanges[n..] == [];
      FollowsNone(p);
      var versions :- Ask(VERSIONS_REQUEST, cancelAt == Some(0), p, n);
      assert AnswersOf(exchanges[n..]) == [Ok(versions)];
      HandshakeErrors(mac, pairingKey, versions, 0);
      var selected :- ChooseVersion(versions);
      var selection :- Ask(SelectionRequest(selected), cancelAt == Some(1), p, n);
      assert AnswersOf(exchanges[n..]) == [Ok(versions), Ok(selection)];
      HandshakeErrors(mac, pairingKey, selection, selected);
      var _ :- CheckSelection(selection, selected);
      r := Ok(selected);
    }

    /** authenticate: three exchanges, then the nonce is set if the answers agree on one. */
    method Authenticate(cancelAt: Option<nat>) returns (r: Attempt<()>)
      requires Ready()
      modifies this, assembler
      ensures Ready() && takes == old(takes) && HandshakeMade(cancelAt, r)
    {
      hide TiltBleSession.Ready, ChooseVersion, CheckSelection, CheckNonce, CryptoFrames.CryptoFrame, Brief, Follows,
        ChunkCount, HandshakeNext;
      ghost var n, p := |exchanges|, Handshaking(mac, pairingKey);
      var selected :- Negotiate(cancelAt);
      ghost var two := AnswersOf(exchanges[n..]);
      var given := Ask(NONCE_REQUEST, cancelAt == Some(2), p, n);
      assert two + [] == two && |exchanges[n..]| == |AnswersOf(exchanges[n..])|;
      NonceDecides(mac, pairingKey, two, given);
      var answer :- given;
      HandshakeErrors(mac, pairingKey, answer, selected);
      var agreed :- CheckNonce(mac, pairingKey, answer);
      KeepNonce(agreed);
      r := Sleep(cancelAt == Some(3));
    }
  }

  // ---- histories and the link ----

  /** What the sender of a link did and heard, appended to what came before. */
  function SenderHistory(order: AckOrder, l: Link, events: seq<LinkEvent>, before: History): History
    requires StopAndWait.Possible(order, l, events)
    decreases |events|
  {
    if events == [] then before
    else
      var log :=
        match events[0]
        case Send(e) => Then(before, Did(e))
        case DeliverAck =>
          var ack := ParseBleAck(l.acks[0]);
          if ack.Ok? then Then(before, Heard(ack.value)) else before
        case _ => before;
      SenderHistory(order, LinkStep(order, l, events[0]), events[1..], log)
  }

  /** In every run of the link the sender is where its own history leads when that is
      replayed as a session's is: runs of the link are among a session's histories. */
  lemma {:induction false} LinkReplays(order: AckOrder, l: Link, events: seq<LinkEvent>, before: History)
    requires StopAndWait.Possible(order, l, events) && Replay(before) == Some(l.sender)
    ensures Replay(SenderHistory(order, l, events, before)) == Some(StopAndWait.After(order, l, events).sender)
    decreases |events|
  {
    if events != [] {
      var l' := LinkStep(order, l, events[0]);
      match events[0] {
        case Send(e) => LinkReplays(order, l', events[1..], Then(before, Did(e)));
        case DeliverAck =>
          var ack := ParseBleAck(l.acks[0]);
          LinkReplays(order, l', events[1..], if ack.Ok? then Then(before, Heard(ack.value)) else before);
        case _ => LinkReplays(order, l', events[1..], before);
      }
    }
  }

  // ---- after a failure between requests ----

  /** Once a session has failed between two requests, every later call of _send_frame
      raises before it writes anything, whatever arrives in between. */
  method StaysFailed(session: TiltBleSession, error: Fault, calls: seq<(bytes, bool)>)
    returns (outcomes: seq<Attempt<bytes>>)
    requires session.Ready()
    modifies session, session.assembler
    ensures session.Ready() && session.written == old(session.written) && session.responseQueue != []
    ensures outcomes == seq(|calls|, _ => Err(Ble))
  {
    outcomes := [];
    session.Fail(error);
    for i := 0 to |calls|
      invariant session.Ready() && session.written == old(session.written) && session.responseQueue != []
      invariant outcomes == seq(i, _ => Err(Ble))
    {
      session.Interleave();
      var _, ending := TiltBleSession.Choose();
      var outcome := session.SendFrame(calls[i].0, calls[i].1, ending);
      outcomes := outcomes + [outcome];
    }
  }
}
