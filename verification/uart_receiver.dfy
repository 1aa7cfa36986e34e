/** The serial line receiver of the polling dimmer: the `USART0_RX_vect` interrupt,
    taken as one atomic step over the 32-byte `uart_buffer`, the write index
    `uart_index` and the line-ready flag `uart_rx_flag`. */
module UartReceiver {
  import opened BoundedInts

  /** `sizeof(uart_buffer)`. */
  const Capacity: nat := 32

  /** The highest index the receiver ever holds: one cell is kept for the NUL. */
  const LastIndex: nat := Capacity - 1

  datatype Receiver = Receiver(buffer: seq<char>, index: uint8, ready: bool)

  /** The receiver invariant: a 32-cell buffer and an index that addresses one of its
      first 31 cells, so that every store the interrupt makes is in bounds. The last cell
      is zero at reset and only a terminator's NUL can ever reach it, so it stays NUL. */
  predicate Valid(s: Receiver) {
    |s.buffer| == Capacity && s.index <= LastIndex && s.buffer[LastIndex] == Nul
  }

  /** Zero-initialised globals at reset. */
  function Initial(): (s: Receiver)
    ensures Valid(s) && s.index == 0 && !s.ready
    ensures forall k :: 0 <= k < |s.buffer| ==> s.buffer[k] == Nul
  {
    Receiver(seq(Capacity, _ => Nul), 0, false)
  }

  predicate IsTerminator(c: char) {
    c == '\n' || c == '\r'
  }

  /** One received byte. A terminator NUL-terminates the line at the current index,
      raises the flag and rewinds the index; any other byte is appended while there is
      room before the last cell and is otherwise dropped without a trace. */
  function Receive(s: Receiver, c: char): (s': Receiver)
    requires Valid(s)
    ensures Valid(s')
    ensures |s'.buffer| == |s.buffer|
    ensures forall k :: 0 <= k < |s.buffer| && k != s.index ==> s'.buffer[k] == s.buffer[k]
    ensures IsTerminator(c) ==>
      s'.buffer[s.index] == Nul && s'.ready && s'.index == 0
    ensures !IsTerminator(c) && s.index < LastIndex ==>
      s'.buffer[s.index] == c && s'.index == s.index + 1 && s'.ready == s.ready
    ensures !IsTerminator(c) && s.index == LastIndex ==> s' == s
  {
    if IsTerminator(c) then
      Receiver(s.buffer[s.index := Nul], 0, true)
    else if s.index < LastIndex then
      Receiver(s.buffer[s.index := c], s.index + 1, s.ready)
    else
      s
  }

  /** A burst of bytes handled one interrupt at a time, in arrival order. */
  function Feed(s: Receiver, bytes: seq<char>): (s': Receiver)
    requires Valid(s)
    ensures Valid(s')
    decreases |bytes|
  {
    if |bytes| == 0 then s else Feed(Receive(s, bytes[0]), bytes[1..])
  }

  predicate NoTerminator(bytes: seq<char>) {
    forall k :: 0 <= k < |bytes| ==> !IsTerminator(bytes[k])
  }

  /** Bytes without a terminator fill the buffer from the current index until the last
      cell is reached; the rest are dropped, the flag keeps its value and nothing
      before the starting index is touched. */
  lemma {:induction false} FeedWithoutTerminator(s: Receiver, bytes: seq<char>)
    requires Valid(s) && NoTerminator(bytes)
    ensures Feed(s, bytes).index == Min(s.index + |bytes|, LastIndex)
    ensures Feed(s, bytes).ready == s.ready
    ensures forall k :: 0 <= k < Feed(s, bytes).index - s.index ==>
      Feed(s, bytes).buffer[s.index + k] == bytes[k]
    ensures forall k :: 0 <= k < Capacity && !(s.index <= k < Feed(s, bytes).index) ==>
      Feed(s, bytes).buffer[k] == s.buffer[k]
    decreases |bytes|
  {
    if |bytes| > 0 {
      var t := Receive(s, bytes[0]);
      assert NoTerminator(bytes[1..]) by {
        forall k | 0 <= k < |bytes[1..]| ensures !IsTerminator(bytes[1..][k]) {
          assert bytes[1..][k] == bytes[k + 1];
        }
      }
      FeedWithoutTerminator(t, bytes[1..]);
      if s.index < LastIndex {
        forall k | 0 <= k < Feed(s, bytes).index - s.index
          ensures Feed(s, bytes).buffer[s.index + k] == bytes[k]
        {
          if k > 0 {
            assert bytes[1..][k - 1] == bytes[k];
          }
        }
      }
    }
  }

  /** Forty bytes without a terminator leave exactly the first 31 stored, in order,
      and raise no flag. */
  lemma OverlongLineIsTruncated(bytes: seq<char>)
    requires |bytes| == 40 && NoTerminator(bytes)
    ensures Feed(Initial(), bytes).index == LastIndex
    ensures !Feed(Initial(), bytes).ready
    ensures Feed(Initial(), bytes).buffer[..LastIndex] == bytes[..LastIndex]
    ensures Feed(Initial(), bytes).buffer[LastIndex] == Nul
  {
    FeedWithoutTerminator(Initial(), bytes);
  }

  /** The text `sscanf` sees: the buffer up to, not including, its first NUL. */
  function CString(buffer: seq<char>): (line: seq<char>)
    ensures |line| <= |buffer| && line == buffer[..|line|]
    ensures forall k :: 0 <= k < |line| ==> line[k] != Nul
    ensures |line| < |buffer| ==> buffer[|line|] == Nul
  {
    if |buffer| == 0 || buffer[0] == Nul then [] else [buffer[0]] + CString(buffer[1..])
  }

  /** The text handed to `sscanf` always ends inside the buffer: at most 31 characters
      before the NUL. */
  lemma LineFitsBuffer(s: Receiver)
    requires Valid(s)
    ensures |CString(s.buffer)| <= LastIndex
  {
  }

  /** A line of non-NUL, non-terminator bytes typed from an empty buffer and closed by
      a terminator is delivered with the flag raised, as its first 31 bytes, and the
      receiver is rewound for the next line. */
  lemma LineDelivered(s: Receiver, bytes: seq<char>, terminator: char)
    requires Valid(s) && s.index == 0
    requires NoTerminator(bytes) && IsTerminator(terminator)
    requires forall k :: 0 <= k < |bytes| ==> bytes[k] != Nul
    ensures Feed(s, bytes + [terminator]).ready
    ensures Feed(s, bytes + [terminator]).index == 0
    ensures CString(Feed(s, bytes + [terminator]).buffer) == bytes[..Min(|bytes|, LastIndex)]
  {
    var t := Feed(s, bytes);
    FeedWithoutTerminator(s, bytes);
    FeedAppend(s, bytes, [terminator]);
    var u := Receive(t, terminator);
    var n := Min(|bytes|, LastIndex);
    assert u.buffer[..n] == bytes[..n];
    CStringOfTerminated(u.buffer, n);
  }

  /** A line closed by `\r\n` with no loop pass between the two bytes: the `\r` rewinds
      the index, so the `\n` writes its NUL over the first cell and `sscanf` sees an
      empty line, whatever came before. */
  lemma CrLfLeavesEmptyLine(s: Receiver, bytes: seq<char>)
    requires Valid(s)
    ensures Feed(s, bytes + ['\r', '\n']).ready
    ensures Feed(s, bytes + ['\r', '\n']).index == 0
    ensures CString(Feed(s, bytes + ['\r', '\n']).buffer) == []
  {
    FeedAppend(s, bytes, ['\r', '\n']);
    var t := Feed(s, bytes);
    var u := Receive(t, '\r');
    assert ['\r', '\n'][1..] == ['\n'];
    assert Feed(t, ['\r', '\n']) == Feed(u, ['\n']);
    assert Feed(u, ['\n']) == Feed(Receive(u, '\n'), []);
  }

  lemma {:induction false} FeedAppend(s: Receiver, a: seq<char>, b: seq<char>)
    requires Valid(s)
    ensures Feed(s, a + b) == Feed(Feed(s, a), b)
    decreases |a|
  {
    if |a| > 0 {
      assert (a + b)[0] == a[0];
      assert (a + b)[1..] == a[1..] + b;
      FeedAppend(Receive(s, a[0]), a[1..], b);
    } else {
      assert a + b == b;
    }
  }

  lemma CStringOfTerminated(buffer: seq<char>, n: nat)
    requires n < |buffer| && buffer[n] == Nul
    requires forall k :: 0 <= k < n ==> buffer[k] != Nul
    ensures CString(buffer) == buffer[..n]
  {
  }
}
