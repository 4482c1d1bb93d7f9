/** The upload driver's shell session: short writes, the scan for ACK lines, and one-window flow control. */
module PacedSend {
  import opened Options
  import opened Crc32

  // ---------------------------------------------------------------- ACK lines

  const ACK_LENGTH: nat := 13
  const ACK_HEAD: seq<Byte> := [0x41, 0x43, 0x4B, 0x20]

  predicate HexDigit(b: Byte) {
    0x30 <= b <= 0x39 || 0x41 <= b <= 0x46 || 0x61 <= b <= 0x66
  }

  function DigitValue(b: Byte): nat {
    if 0x30 <= b <= 0x39 then b as int - 0x30
    else if 0x41 <= b <= 0x46 then b as int - 0x41 + 10
    else if 0x61 <= b <= 0x66 then b as int - 0x61 + 10
    else 0
  }

  /** `int(text, 16)`. */
  function HexValue(text: seq<Byte>): nat {
    if text == [] then 0 else 16 * HexValue(text[..|text| - 1]) + DigitValue(text[|text| - 1])
  }

  /** `ACK ([0-9A-Fa-f]{8}) ` matches at position `i`. */
  predicate AckAt(buf: seq<Byte>, i: nat) {
    && i + ACK_LENGTH <= |buf|
    && buf[i] == 0x41 && buf[i + 1] == 0x43 && buf[i + 2] == 0x4B && buf[i + 3] == 0x20
    && (forall k :: i + 4 <= k < i + 12 ==> HexDigit(buf[k]))
    && buf[i + 12] == 0x20
  }

  function AckValue(buf: seq<Byte>, i: nat): nat
    requires AckAt(buf, i)
  {
    HexValue(buf[i + 4..i + 12])
  }

  /** `ACK_LINE_RE.search(buf, from)`: the leftmost match. */
  function Search(buf: seq<Byte>, from: nat): (m: Option<nat>)
    ensures m.Some? ==> from <= m.value && AckAt(buf, m.value)
    ensures forall j :: from <= j < (if m.Some? then m.value else |buf|) ==> !AckAt(buf, j)
    decreases |buf| - from
  {
    if from >= |buf| then None
    else if AckAt(buf, from) then Some(from)
    else Search(buf, from + 1)
  }

  /** No ACK line begins inside another one, so a scan that jumps over each line it finds misses none. */
  lemma NoLineInside(buf: seq<Byte>, i: nat, j: nat)
    requires AckAt(buf, i) && i < j < i + ACK_LENGTH
    ensures !AckAt(buf, j)
  {
    if i + 4 <= j + 2 < i + 12 {
      assert HexDigit(buf[j + 2]);
    }
  }

  /** The sixteen digits as they are printed, in either case. */
  function DigitOf(v: nat, upper: bool): Byte
    requires v < 16
  {
    if upper then [0x30, 0x31, 0x32, 0x33, 0x34, 0x35, 0x36, 0x37, 0x38, 0x39, 0x41, 0x42, 0x43, 0x44, 0x45, 0x46][v]
    else [0x30, 0x31, 0x32, 0x33, 0x34, 0x35, 0x36, 0x37, 0x38, 0x39, 0x61, 0x62, 0x63, 0x64, 0x65, 0x66][v]
  }

  /** The last digits of `n` in base 16, as many as there are entries in `upper`. */
  function Printed(n: nat, upper: seq<bool>): (text: seq<Byte>)
    ensures |text| == |upper|
  {
    if upper == [] then []
    else Printed(n / 16, upper[..|upper| - 1]) + [DigitOf(n % 16, upper[|upper| - 1])]
  }

  function Power16(k: nat): nat {
    if k == 0 then 1 else 16 * Power16(k - 1)
  }

  lemma DigitRead(v: nat, upper: bool)
    requires v < 16
    ensures HexDigit(DigitOf(v, upper)) && DigitValue(DigitOf(v, upper)) == v
  {
    if upper {
      assert DigitOf(v, true) == if v < 10 then 0x30 + v as Byte else 0x37 + v as Byte;
    }
  }

  lemma {:induction false} PrintedRead(n: nat, upper: seq<bool>)
    requires n < Power16(|upper|)
    ensures HexValue(Printed(n, upper)) == n
    ensures forall k :: 0 <= k < |upper| ==> HexDigit(Printed(n, upper)[k])
  {
    hide DigitOf, DigitValue, HexDigit;
    if upper != [] {
      var front := upper[..|upper| - 1];
      PrintedRead(n / 16, front);
      DigitRead(n % 16, upper[|upper| - 1]);
      assert Printed(n, upper)[..|front|] == Printed(n / 16, front);
    }
  }

  lemma EightDigits()
    ensures Power16(8) == 0x1_0000_0000
  {
  }

  /** Wherever the line for `n` is in the buffer, printed with eight digits of either case, it is found
      and read as `n`. */
  lemma PrintedLineRead(buf: seq<Byte>, i: nat, n: nat, upper: seq<bool>)
    requires n < 0x1_0000_0000 && |upper| == 8
    requires i + ACK_LENGTH <= |buf| && buf[i..i + ACK_LENGTH] == ACK_HEAD + Printed(n, upper) + [0x20]
    ensures AckAt(buf, i) && AckValue(buf, i) == n
  {
    hide HexDigit, Printed, Power16, HexValue;
    EightDigits();
    PrintedRead(n, upper);
    var line := ACK_HEAD + Printed(n, upper) + [0x20];
    forall k | 0 <= k < ACK_LENGTH ensures buf[i + k] == line[k] {
      assert buf[i..i + ACK_LENGTH][k] == line[k];
    }
    forall k | i + 4 <= k < i + 12 ensures HexDigit(buf[k]) {
      assert buf[i + (k - i)] == line[k - i] == Printed(n, upper)[k - i - 4];
    }
    assert buf[i] == line[0] && buf[i + 1] == line[1] && buf[i + 2] == line[2] && buf[i + 3] == line[3];
    assert buf[i + 12] == line[12];
    assert buf[i + 4..i + 12] == buf[i..i + ACK_LENGTH][4..12] == Printed(n, upper);
  }

  lemma LineFits(buf: seq<Byte>, i: nat)
    requires AckAt(buf, i)
    ensures i + ACK_LENGTH <= |buf|
  {
  }

  lemma LinesApart(buf: seq<Byte>, i: nat, j: nat)
    requires AckAt(buf, i) && AckAt(buf, j)
    ensures i == j || i + ACK_LENGTH <= j || j + ACK_LENGTH <= i
  {
    hide AckAt;
    if i < j < i + ACK_LENGTH {
      NoLineInside(buf, i, j);
    } else if j < i < j + ACK_LENGTH {
      NoLineInside(buf, j, i);
    }
  }

  // ---------------------------------------------------------------- the session

  datatype Sent = Returned | Raised | BadWindow

  class ShellSession {
    /** Everything received so far, and how far it has been scanned. */
    var buf: seq<Byte>
    var consumed: nat
    /** Everything the serial line has accepted. */
    var accepted: seq<Byte>
    /** For one paced send: where it began, the largest ACK value scanned since, and the largest number
        of bytes that were ever accepted beyond it. */
    ghost var begin: nat
    ghost var acked: nat
    ghost var peak: int

    ghost predicate Valid()
      reads this
    {
      consumed <= |buf| && begin <= |accepted|
    }

    constructor ()
      ensures Valid() && buf == [] && consumed == 0 && accepted == []
    {
      buf, consumed, accepted := [], 0, [];
      begin, acked, peak := 0, 0, 0;
    }

    /** The reader thread: any bytes arrive. */
    method Receive()
      requires Valid()
      modifies `buf
      ensures Valid() && old(buf) <= buf
    {
      var more: seq<Byte> := *;
      buf := buf + more;
    }

    /** `os.write`: it may take any part of what it is offered, or fail. */
    method OsWrite(data: seq<Byte>) returns (n: int)
      requires Valid()
      modifies `accepted, `peak
      ensures Valid() && n <= |data|
      ensures accepted == old(accepted) + (if n > 0 then data[..n] else [])
      ensures peak == (if n > 0 && |accepted| - begin - acked > old(peak) then |accepted| - begin - acked else old(peak))
    {
      n :| n <= |data|;
      if n > 0 {
        accepted := accepted + data[..n];
        if |accepted| - begin - acked > peak {
          peak := |accepted| - begin - acked;
        }
      }
    }

    /** `send_raw`: all of `data` is accepted, or the write that failed raises after a prefix of it. */
    method SendRaw(data: seq<Byte>, ghost window: nat) returns (r: Sent)
      requires Valid() && |accepted| - begin + |data| <= acked + window && peak <= window
      modifies `accepted, `peak
      ensures Valid() && peak <= window && !r.BadWindow?
      ensures r.Returned? ==> accepted == old(accepted) + data
      ensures r.Raised? ==> exists k :: 0 <= k < |data| && accepted == old(accepted) + data[..k]
    {
      var total := 0;
      while total < |data|
        invariant 0 <= total <= |data| && Valid() && peak <= window
        invariant accepted == old(accepted) + data[..total]
      {
        ghost var before := accepted;
        var n := OsWrite(data[total..]);
        if n <= 0 {
          assert accepted == old(accepted) + data[..total];
          return Raised;
        }
        assert data[..total] + data[total..][..n] == data[..total + n];
        total := total + n;
      }
      return Returned;
    }

    /** The ACK lines between two positions all cover less than `minLen`. */
    ghost predicate AllBelow(from: nat, to: nat, minLen: nat)
      reads this
    {
      forall j :: from <= j < to && AckAt(buf, j) ==> AckValue(buf, j) < minLen
    }

    /** The scan stands where it started, or just behind an ACK line. */
    ghost predicate BehindLine(from: nat)
      reads this
    {
      consumed == from || (consumed >= from + ACK_LENGTH && AckAt(buf, consumed - ACK_LENGTH))
    }

    /** `wait_for_ack_at_least`: true when it has just scanned the first ACK line that covers `minLen`;
        every line before it covered less, and none was skipped. */
    method WaitForAckAtLeast(minLen: nat) returns (covered: bool)
      requires Valid()
      modifies `buf, `consumed, `acked
      ensures Valid() && old(buf) <= buf && consumed >= old(consumed) && acked >= old(acked)
      ensures covered ==>
                && consumed >= old(consumed) + ACK_LENGTH && AckAt(buf, consumed - ACK_LENGTH)
                && AckValue(buf, consumed - ACK_LENGTH) >= minLen && acked >= minLen
                && AllBelow(old(consumed), consumed - ACK_LENGTH, minLen)
      ensures !covered ==> AllBelow(old(consumed), consumed, minLen) && (acked == old(acked) || acked < minLen)
    {
      var polls: nat := *;
      while polls > 0
        invariant Valid() && old(buf) <= buf && consumed >= old(consumed) && acked >= old(acked)
        invariant BehindLine(old(consumed))
        invariant AllBelow(old(consumed), consumed, minLen) && (acked == old(acked) || acked < minLen)
      {
        ghost var before := buf;
        Receive();
        LongerBuffer(before, buf, old(consumed), consumed);
        covered := ScanLines(minLen, old(consumed));
        if covered {
          return;
        }
        polls := polls - 1;
      }
      return false;
    }

    /** The inner loop: every complete line that is there, up to the first that covers `minLen`. */
    method ScanLines(minLen: nat, ghost from: nat) returns (covered: bool)
      requires Valid() && from <= consumed && BehindLine(from) && AllBelow(from, consumed, minLen)
      modifies `consumed, `acked
      ensures Valid() && consumed >= old(consumed) && acked >= old(acked) && BehindLine(from)
      ensures covered ==>
                && consumed >= from + ACK_LENGTH && AckAt(buf, consumed - ACK_LENGTH)
                && AckValue(buf, consumed - ACK_LENGTH) >= minLen && acked >= minLen
                && AllBelow(from, consumed - ACK_LENGTH, minLen)
      ensures !covered ==> AllBelow(from, |buf|, minLen) && (acked == old(acked) || acked < minLen)
    {
      hide AckAt, AckValue, Search;
      while true
        invariant Valid() && consumed >= old(consumed) && acked >= old(acked) && BehindLine(from)
        invariant AllBelow(from, consumed, minLen) && (acked == old(acked) || acked < minLen)
        decreases |buf| - consumed
      {
        var m := Search(buf, consumed);
        if m.None? {
          return false;
        }
        LineFits(buf, m.value);
        var totalLen := AckValue(buf, m.value);
        forall j | m.value < j < m.value + ACK_LENGTH ensures !AckAt(buf, j) {
          NoLineInside(buf, m.value, j);
        }
        consumed := m.value + ACK_LENGTH;
        acked := if totalLen > acked then totalLen else acked;
        if totalLen >= minLen {
          return true;
        }
      }
    }

    /** `send_raw_ack_paced`. Whatever the writes take and whatever arrives: the bytes accepted but not
        covered by a scanned ACK never exceed the window; what was accepted is a prefix of `data`, and all
        of it on a normal return; and the scan never moves back. */
    method SendRawAckPaced(data: seq<Byte>, windowSize: nat) returns (r: Sent)
      requires Valid() && windowSize >= 1
      modifies this
      ensures Valid() && consumed >= old(consumed) && old(buf) <= buf && peak <= windowSize
      ensures r.BadWindow? <==> windowSize > 512
      ensures r.BadWindow? ==> accepted == old(accepted) && consumed == old(consumed)
      ensures r.Returned? ==> accepted == old(accepted) + data
      ensures r.Raised? ==> exists k :: 0 <= k <= |data| && accepted == old(accepted) + data[..k]
    {
      hide AckAt, AckValue, AllBelow;
      begin, acked, peak := |accepted|, 0, 0;
      if windowSize > 512 {
        return BadWindow;
      }
      var total := 0;
      while total < |data|
        invariant 0 <= total <= |data| && Valid() && begin == |old(accepted)| && peak <= windowSize
        invariant accepted == old(accepted) + data[..total] && old(buf) <= buf && consumed >= old(consumed)
        invariant total < |data| ==> total <= acked
      {
        var end := if total + windowSize < |data| then total + windowSize else |data|;
        WindowAccepted(old(accepted), data, total, end, end - total);
        ghost var before := accepted;
        r := SendRaw(data[total..end], windowSize);
        if r.Raised? {
          ghost var k :| 0 <= k < end - total && accepted == before + data[total..end][..k];
          WindowAccepted(old(accepted), data, total, end, k);
          return;
        }
        total := end;
        if total < |data| {
          var covered := WaitForAckAtLeast(total);
          if !covered {
            return Raised;
          }
        }
      }
      assert data[..|data|] == data;
      return Returned;
    }
  }

  /** A prefix, and a part of the window behind it, are a longer prefix. */
  lemma WindowAccepted(a: seq<Byte>, data: seq<Byte>, total: nat, end: nat, k: nat)
    requires total <= end <= |data| && k <= end - total
    ensures a + data[..total] + data[total..end][..k] == a + data[..total + k]
    ensures k == end - total ==> data[total..end][..k] == data[total..end]
  {
    assert data[..total] + data[total..end][..k] == data[..total + k];
  }

  /** Bytes that arrive later add no line to the part already scanned. */
  lemma LongerBuffer(before: seq<Byte>, after: seq<Byte>, from: nat, to: nat)
    requires before <= after && from <= to <= |before|
    requires to == from || (to >= from + ACK_LENGTH && AckAt(before, to - ACK_LENGTH))
    ensures to > from ==> AckAt(after, to - ACK_LENGTH)
    ensures forall j :: from <= j < to && AckAt(after, j) ==> AckAt(before, j) && AckValue(before, j) == AckValue(after, j)
  {
    if to > from {
      assert AckAt(after, to - ACK_LENGTH);
      var last: nat := to - ACK_LENGTH;
      forall j: nat | from <= j < to && AckAt(after, j) ensures AckAt(before, j) && AckValue(before, j) == AckValue(after, j) {
        LinesApart(after, j, last);
        assert before[j + 4..j + 12] == after[j + 4..j + 12];
      }
    }
  }
}
