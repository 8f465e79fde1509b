/** The counter and message id of a session's application requests: two coprime cycles. */
module Ids {
  import opened Bytes
  import opened Results
  import opened Ctr
  import opened CrcDetection
  import opened AppCodec

  const MESSAGE_IDS := 15

  /** The period of the pair. */
  const PAIR_PERIOD := MAX_COUNTER * MESSAGE_IDS

  type Counter = c: int | 1 <= c <= MAX_COUNTER witness 1
  type MessageId = m: int | 1 <= m <= MESSAGE_IDS witness 1

  datatype Pair = Pair(counter: Counter, messageId: MessageId)

  /** _take_application_ids takes the current pair and moves both numbers on. */
  function NextPair(p: Pair): Pair {
    Pair(if p.counter == MAX_COUNTER then 1 else p.counter + 1,
         if p.messageId == MESSAGE_IDS then 1 else p.messageId + 1)
  }

  function AfterTakes(k: nat): Pair {
    if k == 0 then Pair(1, 1) else NextPair(AfterTakes(k - 1))
  }

  function CounterAt(k: nat): Counter {
    k % MAX_COUNTER + 1
  }

  function MessageIdAt(k: nat): MessageId {
    k % MESSAGE_IDS + 1
  }

  /** The pair that call k takes, counting from 0. */
  function PairAt(k: nat): Pair {
    Pair(CounterAt(k), MessageIdAt(k))
  }

  lemma CounterStep(k: nat)
    ensures CounterAt(k + 1) == if CounterAt(k) == MAX_COUNTER then 1 else CounterAt(k) + 1
  {
    var q, r := k / MAX_COUNTER, k % MAX_COUNTER;
    assert k == MAX_COUNTER * q + r;
    if r == MAX_COUNTER - 1 {
      assert k + 1 == MAX_COUNTER * (q + 1);
    } else {
      assert k + 1 == MAX_COUNTER * q + (r + 1);
    }
  }

  lemma MessageIdStep(k: nat)
    ensures MessageIdAt(k + 1) == if MessageIdAt(k) == MESSAGE_IDS then 1 else MessageIdAt(k) + 1
  {}

  lemma {:induction false} TakesInCycles(k: nat)
    ensures AfterTakes(k) == PairAt(k)
  {
    hide CounterAt, MessageIdAt;
    if k > 0 {
      TakesInCycles(k - 1);
      CounterStep(k - 1);
      MessageIdStep(k - 1);
    } else {
      FirstPair();
    }
  }

  lemma FirstPair()
    ensures PairAt(0) == Pair(1, 1)
  {}

  predicate Multiple(d: nat, n: nat)
    requires n > 0
  {
    d % n == 0
  }

  lemma LinesUp(d: nat, a: nat, b: nat)
    requires d == MAX_COUNTER * a && d == MESSAGE_IDS * b
    ensures d == PAIR_PERIOD * (13 * b - 28398 * a)
  {}

  lemma PeriodMultiples(c: int)
    ensures PAIR_PERIOD * c == MAX_COUNTER * (MESSAGE_IDS * c) == MESSAGE_IDS * (MAX_COUNTER * c)
    ensures PAIR_PERIOD * c % PAIR_PERIOD == 0
    ensures PAIR_PERIOD * c % MAX_COUNTER == 0
    ensures PAIR_PERIOD * c % MESSAGE_IDS == 0
  {}

  /** Both cycles line up only at multiples of 491505: 13 * 32767 is one more than
      28398 * 15. */
  lemma CoprimeCycles(d: nat)
    ensures Multiple(d, MAX_COUNTER) && Multiple(d, MESSAGE_IDS) <==> Multiple(d, PAIR_PERIOD)
  {
    if Multiple(d, PAIR_PERIOD) {
      PeriodMultiples(d / PAIR_PERIOD);
    } else if Multiple(d, MAX_COUNTER) && Multiple(d, MESSAGE_IDS) {
      var a, b := d / MAX_COUNTER, d / MESSAGE_IDS;
      LinesUp(d, a, b);
      PeriodMultiples(13 * b - 28398 * a);
    }
  }

  lemma SameCounter(j: nat, k: nat)
    requires j <= k
    ensures CounterAt(j) == CounterAt(k) <==> Multiple(k - j, MAX_COUNTER)
  {
    var p, q := j / MAX_COUNTER, k / MAX_COUNTER;
    assert k - j == MAX_COUNTER * (q - p) + (k % MAX_COUNTER - j % MAX_COUNTER);
  }

  lemma SameMessageId(j: nat, k: nat)
    requires j <= k
    ensures MessageIdAt(j) == MessageIdAt(k) <==> Multiple(k - j, MESSAGE_IDS)
  {
    var p, q := j / MESSAGE_IDS, k / MESSAGE_IDS;
    assert k - j == MESSAGE_IDS * (q - p) + (k % MESSAGE_IDS - j % MESSAGE_IDS);
  }

  /** Two calls take the same pair just when they are a multiple of 491505 apart, and the
      same counter just when they are a multiple of 32767 apart. */
  lemma PairsRepeat(j: nat, k: nat)
    requires j <= k
    ensures PairAt(j) == PairAt(k) <==> Multiple(k - j, PAIR_PERIOD)
    ensures CounterAt(j) == CounterAt(k) <==> Multiple(k - j, MAX_COUNTER)
  {
    hide CounterAt, MessageIdAt, Multiple;
    SameCounter(j, k);
    SameMessageId(j, k);
    CoprimeCycles(k - j);
  }

  /** A response to call j is accepted by call k just when it answers its command and
      the calls are a multiple of 491505 apart: late ones inside that window are not. */
  lemma ResponseOfOtherCall(cipher: Cipher, key: bytes, nonce: Nonce,
      command: ShadeCommand, payload: bytes, j: nat, k: nat, expectedCommand: ShadeCommand)
    requires |key| == 32 && expectedCommand.IsRuntime() && j <= k
    ensures
      var frame := EncodeAppResponse(cipher, command, payload, key, nonce, PairAt(j).counter, PairAt(j).messageId);
      DecodeApplicationResponse(cipher, frame, key, nonce, expectedCommand,
        PairAt(k).messageId, Some(PairAt(k).counter)).Ok?
      <==> Answers(command, payload, expectedCommand) && Multiple(k - j, PAIR_PERIOD)
  {
    hide CounterAt, MessageIdAt, Multiple;
    var p, q := PairAt(j), PairAt(k);
    PairsRepeat(j, k);
    if p == q {
      ResponseRoundTrip(cipher, key, nonce, command, payload, p.counter, p.messageId, expectedCommand);
    } else {
      LateResponseRejected(cipher, key, nonce, command, payload, p.counter, p.messageId,
        expectedCommand, q.messageId, q.counter);
    }
  }

  // ---- keystream blocks of a session ----

  datatype Direction = Request | Response

  /** The two bytes that the frame of call k puts in its initial block. */
  function HeaderAt(k: nat, d: Direction): (h: bytes)
    ensures |h| == 2
  {
    if d.Request? then Be16(PairAt(k).counter) else ReceiveHeader(Be16(PairAt(k).counter))
  }

  function BlockAt(nonce: Nonce, k: nat, d: Direction, i: nat): Block {
    CounterBlock(Iv(nonce, HeaderAt(k, d)), i)
  }

  lemma HeaderValue(k: nat, d: Direction)
    ensures FromBe16(HeaderAt(k, d)) == PairAt(k).counter + if d.Request? then 0 else 0x8000
  {}

  /** These are the blocks that mask the request of call k. */
  lemma RequestUnderBlocks(cipher: Cipher, command: ShadeCommand, payload: bytes, key: bytes, nonce: Nonce, k: nat,
      i: nat, j: nat)
    requires |key| == 32 && command.IsRuntime() && i < 0x1_0000 && j < 16 && 16 * i + j < |payload| + 4
    ensures
      var ids, at := PairAt(k), 2 + 16 * i + j;
      var frame := EncodeApplicationRequest(cipher, command, payload, key, nonce, ids.counter, ids.messageId);
      var plain := Be16(ids.counter) + [ids.messageId, command.Code()] + payload;
      && frame.Ok? && |frame.value| == |payload| + 6
      && frame.value[at] == Xor((plain + Trailer(plain))[at], cipher(key[..16], BlockAt(nonce, k, Request, i))[j])
  {
    hide CounterAt, MessageIdAt, Trailer, Xor, CounterBlock;
    var ids := PairAt(k);
    HeaderValue(k, Request);
    CounterBlockShape(nonce, HeaderAt(k, Request), i);
    Encodable(cipher, command, payload, key, nonce, ids.counter, ids.messageId);
    hide EncodeApplicationRequest;
    RequestBytes(cipher, command, payload, key, nonce, ids.counter, ids.messageId, i, j);
  }

  /** And the shade's response to it. */
  lemma ResponseUnderBlocks(cipher: Cipher, command: ShadeCommand, payload: bytes, key: bytes, nonce: Nonce, k: nat,
      i: nat, j: nat)
    requires |key| == 32 && i < 0x1_0000 && j < 16 && 16 * i + j < |payload| + 4
    ensures
      var ids, at := PairAt(k), 2 + 16 * i + j;
      var frame := EncodeAppResponse(cipher, command, payload, key, nonce, ids.counter, ids.messageId);
      var plain := Be16(ids.counter) + [0x40 + ids.messageId, command.Code()] + payload;
      && |frame| == |payload| + 6
      && frame[at] == Xor((plain + Trailer(plain))[at], cipher(key[..16], BlockAt(nonce, k, Response, i))[j])
  {
    hide CounterAt, MessageIdAt, Trailer, Xor, CounterBlock, EncodeAppResponse;
    var ids := PairAt(k);
    HeaderValue(k, Response);
    CounterBlockShape(nonce, HeaderAt(k, Response), i);
    ResponseBytes(cipher, command, payload, key, nonce, ids.counter, ids.messageId, i, j);
  }

  lemma Encodable(cipher: Cipher, command: ShadeCommand, payload: bytes, key: bytes, nonce: Nonce,
      counter: Counter, messageId: MessageId)
    requires |key| == 32 && command.IsRuntime()
    ensures EncodeApplicationRequest(cipher, command, payload, key, nonce, counter, messageId).Ok?
  {}

  /** Over a whole session, two frames of at most 65536 blocks share a counter block
      only if they go the same way and their calls are a multiple of 32767 apart; so
      nothing is masked twice during the first 32767 calls. */
  lemma KeystreamReuse(nonce: Nonce, j: nat, d: Direction, i: nat, k: nat, e: Direction, m: nat)
    requires j <= k && i < 0x1_0000 && m < 0x1_0000
    ensures BlockAt(nonce, j, d, i) == BlockAt(nonce, k, e, m) <==> d == e && i == m && Multiple(k - j, MAX_COUNTER)
  {
    hide CounterAt, MessageIdAt, Multiple;
    CounterBlocksDisjoint(nonce, HeaderAt(j, d), i, HeaderAt(k, e), m);
    HeaderValue(j, d);
    HeaderValue(k, e);
    Be16Inverse(HeaderAt(j, d));
    Be16Inverse(HeaderAt(k, e));
    PairsRepeat(j, k);
  }
}
