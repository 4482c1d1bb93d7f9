/** The loader's word transfer through the SD controller's 16-deep FIFO, against a card that moves at
    its own pace between any two register accesses. */
module SdFifo {
  import opened Crc32

  const DEPTH: nat := 16
  const SDDATA_FIFO_PIO_BURST: nat := 8
  const BLOCK_WORDS: nat := 128
  const MAX_WAITS: nat := 20000000

  /** `(edm >> 4) & 0x1F`. */
  function FillField(edm: nat): nat {
    edm / 16 % 32
  }

  /** A value of the EDM register: the fill level between the state field and everything above it. */
  function EdmValue(fill: nat, state: nat, above: nat): nat {
    above * 512 + fill * 16 + state
  }

  lemma FillOfEdm(fill: nat, state: nat, above: nat)
    requires fill <= DEPTH && state < 16
    ensures FillField(EdmValue(fill, state, above)) == fill
  {
    assert EdmValue(fill, state, above) == 16 * (above * 32 + fill) + state;
    LowDigit(above * 32 + fill, 16, state);
    LowDigit(above, 32, fill);
  }

  lemma LowDigit(q: nat, d: nat, r: nat)
    requires r < d && (d == 16 || d == 32)
    ensures (d * q + r) / d == q && (d * q + r) % d == r
  {
  }

  // ---------------------------------------------------------------- reading

  /** A card that sends the words of `stream`. An eager card sends at least one word between two
      accesses while it has one and there is room. */
  class SendingCard {
    const stream: seq<Word>
    const eager: bool
    var sent: nat
    var taken: nat

    predicate Valid()
      reads this
    {
      taken <= sent <= |stream| && sent - taken <= DEPTH
    }

    constructor (stream: seq<Word>, eager: bool)
      ensures Valid() && this.stream == stream && this.eager == eager && sent == taken == 0
    {
      this.stream, this.eager := stream, eager;
      sent, taken := 0, 0;
    }

    predicate MustSend()
      reads this
    {
      eager && sent < |stream| && sent - taken < DEPTH
    }

    /** Time passes: any number of words arrive. */
    method Tick()
      requires Valid()
      modifies `sent
      ensures Valid() && sent >= old(sent) && (old(MustSend()) ==> sent > old(sent))
    {
      if MustSend() {
        var k :| sent < k <= |stream| && k - taken <= DEPTH;
        sent := k;
      } else {
        var k :| sent <= k <= |stream| && k - taken <= DEPTH;
        sent := k;
      }
    }

    method ReadEdm() returns (edm: nat)
      requires Valid()
      modifies `sent
      ensures Valid() && sent >= old(sent) && (old(MustSend()) ==> sent > old(sent))
      ensures FillField(edm) == sent - taken
    {
      Tick();
      var state: nat, above: nat := *, *;
      state := state % 16;
      edm := EdmValue(sent - taken, state, above);
      FillOfEdm(sent - taken, state, above);
    }

    /** Takes the oldest word: there must be one. */
    method ReadData() returns (w: Word)
      requires Valid() && taken < sent
      modifies this
      ensures Valid() && sent >= old(sent) && taken == old(taken) + 1 && w == stream[old(taken)]
    {
      Tick();
      w := stream[taken];
      taken := taken + 1;
    }
  }

  /** The drain loop of the block read. It takes words only when they are there; it stores the first
      128 words of the stream, in order, or gives up after exactly MAX_WAITS + 1 polls that found too
      few; and against an eager card it never gives up. */
  method DrainFifo(card: SendingCard, buf: array<Word>) returns (rc: int, ghost waits: nat)
    requires card.Valid() && card.taken == 0 && buf.Length == BLOCK_WORDS
    modifies card, buf
    ensures card.Valid()
    ensures rc == 0 ==> card.taken == BLOCK_WORDS && buf[..] == card.stream[..BLOCK_WORDS] && waits <= MAX_WAITS
    ensures rc != 0 ==> rc == -9 && waits == MAX_WAITS + 1
                        && card.taken <= BLOCK_WORDS && buf[..card.taken] == card.stream[..card.taken]
    ensures card.eager && |card.stream| >= BLOCK_WORDS ==> rc == 0 && waits < BLOCK_WORDS
  {
    var copyWords := BLOCK_WORDS;
    var roomWaitIters := 0;
    var next := 0;
    while copyWords > 0
      invariant card.Valid() && next == card.taken == BLOCK_WORDS - copyWords <= BLOCK_WORDS
      invariant buf[..next] == card.stream[..next]
      invariant roomWaitIters <= MAX_WAITS
      invariant card.eager && |card.stream| >= BLOCK_WORDS ==> roomWaitIters <= card.sent && roomWaitIters < BLOCK_WORDS
      decreases copyWords, MAX_WAITS - roomWaitIters
    {
      var edm := card.ReadEdm();
      var fill := FillField(edm);
      var burstWords := if SDDATA_FIFO_PIO_BURST < copyWords then SDDATA_FIFO_PIO_BURST else copyWords;
      if fill < burstWords {
        roomWaitIters := roomWaitIters + 1;
        if roomWaitIters > MAX_WAITS {
          return -9, roomWaitIters;
        }
        continue;
      }
      var words := fill;
      if words > copyWords {
        words := copyWords;
      }
      copyWords := copyWords - words;
      TakeWords(card, buf, next, words);
      next := next + words;
    }
    return 0, roomWaitIters;
  }

  /** The inner loop of the drain. */
  method TakeWords(card: SendingCard, buf: array<Word>, start: nat, count: nat)
    requires card.Valid() && card.taken == start && count <= card.sent - card.taken && start + count <= buf.Length
    requires buf[..start] == card.stream[..start]
    modifies card, buf
    ensures card.Valid() && card.taken == start + count && card.sent >= old(card.sent)
    ensures buf[..start + count] == card.stream[..start + count]
  {
    var words, next := count, start;
    while words > 0
      invariant card.Valid() && next == card.taken == start + count - words && 0 <= words <= count
      invariant words <= card.sent - card.taken && card.sent >= old(card.sent)
      invariant buf[..next] == card.stream[..next]
    {
      buf[next] := card.ReadData();
      next := next + 1;
      words := words - 1;
    }
  }

  // ---------------------------------------------------------------- writing

  /** A card that takes words out of the FIFO. An eager card takes at least one between two accesses
      while there is one. */
  class ReceivingCard {
    const eager: bool
    /** All words the host has put in, in order. */
    var given: seq<Word>
    var drained: nat

    predicate Valid()
      reads this
    {
      drained <= |given| && |given| - drained <= DEPTH
    }

    constructor (eager: bool)
      ensures Valid() && this.eager == eager && given == [] && drained == 0
    {
      this.eager := eager;
      given, drained := [], 0;
    }

    predicate MustDrain()
      reads this
    {
      eager && drained < |given|
    }

    method Tick()
      requires Valid()
      modifies `drained
      ensures Valid() && drained >= old(drained) && (old(MustDrain()) ==> drained > old(drained))
    {
      if MustDrain() {
        var k :| drained < k <= |given|;
        drained := k;
      } else {
        var k :| drained <= k <= |given|;
        drained := k;
      }
    }

    method ReadEdm() returns (edm: nat)
      requires Valid()
      modifies `drained
      ensures Valid() && drained >= old(drained) && (old(MustDrain()) ==> drained > old(drained))
      ensures FillField(edm) == |given| - drained
    {
      Tick();
      var state: nat, above: nat := *, *;
      state := state % 16;
      edm := EdmValue(|given| - drained, state, above);
      FillOfEdm(|given| - drained, state, above);
    }

    /** Puts one word in: there must be room. */
    method WriteData(w: Word)
      requires Valid() && |given| - drained < DEPTH
      modifies this
      ensures Valid() && drained >= old(drained) && given == old(given) + [w]
    {
      Tick();
      given := given + [w];
    }
  }

  /** The fill loop of the block write. It puts words in only where there is room; it gives the card
      exactly the 128 words, in order, or gives up after exactly MAX_WAITS + 1 polls that found too
      little room; and against an eager card it never gives up. */
  method FillFifo(card: ReceivingCard, buf: array<Word>) returns (rc: int, ghost waits: nat)
    requires card.Valid() && card.given == [] && card.drained == 0 && buf.Length == BLOCK_WORDS
    modifies card
    ensures card.Valid()
    ensures rc == 0 ==> card.given == buf[..] && waits <= MAX_WAITS
    ensures rc != 0 ==> rc == -9 && waits == MAX_WAITS + 1 && |card.given| <= BLOCK_WORDS && card.given == buf[..|card.given|]
    ensures card.eager ==> rc == 0 && waits <= BLOCK_WORDS
  {
    var fillWords := BLOCK_WORDS;
    var roomWaitIters := 0;
    var next := 0;
    while fillWords > 0
      invariant card.Valid() && next == |card.given| == BLOCK_WORDS - fillWords <= BLOCK_WORDS
      invariant card.given == buf[..next]
      invariant roomWaitIters <= MAX_WAITS
      invariant card.eager ==> roomWaitIters <= card.drained
      decreases fillWords, MAX_WAITS - roomWaitIters
    {
      var edm := card.ReadEdm();
      var fill := FillField(edm);
      var room := 16 - fill;
      var burstWords := if SDDATA_FIFO_PIO_BURST < fillWords then SDDATA_FIFO_PIO_BURST else fillWords;
      if room < burstWords {
        roomWaitIters := roomWaitIters + 1;
        if roomWaitIters > MAX_WAITS {
          return -9, roomWaitIters;
        }
        continue;
      }
      var words := room;
      if words > fillWords {
        words := fillWords;
      }
      fillWords := fillWords - words;
      GiveWords(card, buf, next, words);
      next := next + words;
    }
    assert buf[..next] == buf[..];
    return 0, roomWaitIters;
  }

  /** The inner loop of the fill. */
  method GiveWords(card: ReceivingCard, buf: array<Word>, start: nat, count: nat)
    requires card.Valid() && start + count <= buf.Length && count <= DEPTH - (|card.given| - card.drained)
    requires card.given == buf[..start]
    modifies card
    ensures card.Valid() && card.given == buf[..start + count] && card.drained >= old(card.drained)
  {
    var words, next := count, start;
    while words > 0
      invariant card.Valid() && next == |card.given| == start + count - words && 0 <= words <= count
      invariant words <= DEPTH - (|card.given| - card.drained) && card.drained >= old(card.drained)
      invariant card.given == buf[..next]
    {
      card.WriteData(buf[next]);
      next := next + 1;
      words := words - 1;
    }
  }
}
