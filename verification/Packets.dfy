/** Cutting payloads into MySQL packets and putting them together again. */
module Packets {
  import opened Lists
  import opened Options
  import opened Bytes

  /** The largest payload of one packet, 2^24 - 1. */
  const MAX := 0xff_ffff

  /** Three bytes of length and the sequence number. */
  function Header(length: nat, sequence: byte): (h: seq<byte>)
    requires length <= MAX
    ensures |h| == 4
  {
    LittleEndian(length, 3) + [sequence]
  }

  function Succ(sequence: byte): byte {
    (sequence + 1) % 256
  }

  function Packet(chunk: seq<byte>, sequence: byte): seq<byte>
    requires |chunk| <= MAX
  {
    Header(|chunk|, sequence) + chunk
  }

  /** The packets that carry a payload: full ones, then one that is not full. */
  function Frames(data: seq<byte>, sequence: byte): seq<byte>
    decreases |data|
  {
    if |data| < MAX then Packet(data, sequence)
    else Packet(data[..MAX], sequence) + Frames(data[MAX..], Succ(sequence))
  }

  /** The sequence number after those packets. */
  function Advance(sequence: byte, length: nat): byte
    decreases length
  {
    if length < MAX then Succ(sequence) else Advance(Succ(sequence), length - MAX)
  }

  // ----- what a reader makes of a stream -----

  /** A header, if there is one with the expected sequence number: the length it announces. */
  function Announced(input: seq<byte>, sequence: byte): (n: Option<nat>)
    ensures n.Some? ==> |input| >= 4
  {
    if |input| >= 4 && input[3] == sequence then Some(Number(input[..3])) else None
  }

  /** The input behind a header; what a failed read consumes is lost. */
  function Behind(input: seq<byte>, n: nat): seq<byte> {
    if |input| < n then [] else input[n..]
  }

  /** The result of a read: the data if it succeeded, the input left and the sequence number expected next. */
  datatype Taken = Taken(data: Option<seq<byte>>, rest: seq<byte>, sequence: byte)

  /** One packet. A short header, a wrong sequence number and a short body are errors. */
  function One(input: seq<byte>, sequence: byte): (t: Taken)
    ensures t.data.Some? ==> |t.rest| < |input|
  {
    var length := Announced(input, sequence);
    if length.None? then Taken(None, Behind(input, 4), sequence)
    else if |input| < 4 + length.value then Taken(None, [], Succ(sequence))
    else Taken(Some(input[4..][..length.value]), input[4..][length.value..], Succ(sequence))
  }

  function Prefixed(data: seq<byte>, t: Taken): Taken {
    if t.data.None? then t else t.(data := Some(data + t.data.value))
  }

  /** Packets joined up to the first that is not full. */
  function Joined(input: seq<byte>, sequence: byte): Taken
    decreases |input|
  {
    var first := One(input, sequence);
    if first.data.None? || |first.data.value| < MAX then first
    else Prefixed(first.data.value, Joined(first.rest, first.sequence))
  }

  // ----- the connection -----

  datatype Policy = Unused | Reading

  /** A connection as the bytes still to be read and the bytes written. */
  class Conn {
    var sequence: byte
    var input: seq<byte>
    var output: seq<byte>
    var policy: Policy

    /** Writes a header and a body, and counts the packet. */
    method Emit(chunk: seq<byte>)
      requires |chunk| <= MAX
      modifies `sequence, `output
      ensures output == old(output) + Packet(chunk, old(sequence)) && sequence == Succ(old(sequence))
    {
      output := output + Header(|chunk|, sequence);
      output := output + chunk;
      sequence := Succ(sequence);
    }

    method WritePacket(data: seq<byte>)
      modifies `sequence, `output
      ensures output == old(output) + Frames(data, old(sequence))
      ensures sequence == Advance(old(sequence), |data|)
    {
      var index, length := 0, |data|;
      assert data[0..] == data;
      while true
        invariant 0 <= index && length == |data| - index >= 0
        invariant Sending(old(output), old(sequence), data, index, output, sequence)
        decreases length
      {
        var packetLength := if length > MAX then MAX else length;
        if packetLength == MAX {
          FullStep(old(output), old(sequence), data, index, output, sequence);
        } else {
          assert data[index..index + packetLength] == data[index..];
          LastStep(old(output), old(sequence), data, index, output, sequence);
        }
        Emit(data[index..index + packetLength]);
        length := length - packetLength;
        if length == 0 {
          if packetLength == MAX {
            LastStep(old(output), old(sequence), data, |data|, output, sequence);
            assert data[|data|..] == [];
            Emit([]);
          }
          return;
        }
        index := index + packetLength;
      }
    }

    method ReadHeader() returns (length: Option<nat>)
      modifies `sequence, `input
      ensures length == Announced(old(input), old(sequence)) && input == Behind(old(input), 4)
      ensures sequence == if length.Some? then Succ(old(sequence)) else old(sequence)
    {
      if |input| < 4 {
        input := [];
        return None;
      }
      var header := input[..4];
      input := input[4..];
      if header[3] != sequence { return None; }
      sequence := Succ(sequence);
      assert header[..3] == old(input)[..3];
      return Some(Number(header[..3]));
    }

    /** Reads exactly `n` bytes, or everything that is left and fails. */
    method ReadFull(n: nat) returns (data: Option<seq<byte>>)
      modifies `input
      ensures input == Behind(old(input), n)
      ensures data == if |old(input)| < n then None else Some(old(input)[..n])
    {
      if |input| < n {
        input := [];
        return None;
      }
      data := Some(input[..n]);
      input := input[n..];
    }

    method ReadOnePacket() returns (data: Option<seq<byte>>)
      modifies `sequence, `input
      ensures Taken(data, input, sequence) == One(old(input), old(sequence))
    {
      var length := ReadHeader();
      if length.None? { return None; }
      assert input[0..] == input;
      if length.value == 0 { return Some([]); }
      data := ReadFull(length.value);
    }

    /** Reads packets behind a full one until one is not full. */
    method ReadOthers(first: seq<byte>) returns (data: Option<seq<byte>>)
      modifies `sequence, `input
      ensures Taken(data, input, sequence) == Prefixed(first, Joined(old(input), old(sequence)))
    {
      var joined := first;
      while true
        invariant Prefixed(joined, Joined(input, sequence)) == Prefixed(first, Joined(old(input), old(sequence)))
        decreases |input|
      {
        ghost var one := One(input, sequence);
        ghost var more := Joined(one.rest, one.sequence);
        var next := ReadOnePacket();
        if next.None? { return None; }
        assert |next.value| == 0 ==> joined + next.value == joined;
        if |next.value| == 0 { return Some(joined); }
        PrefixedTwice(joined, next.value, more);
        joined := joined + next.value;
        if |next.value| < MAX { return Some(joined); }
      }
    }

    method ReadPacket() returns (data: Option<seq<byte>>)
      modifies `sequence, `input
      ensures Taken(data, input, sequence) == Joined(old(input), old(sequence))
    {
      data := ReadOnePacket();
      if data.None? || |data.value| < MAX { return data; }
      data := ReadOthers(data.value);
    }

    /** Reads into the shared buffer, which must not be in use; it is in use afterwards once a header was read. */
    method ReadEphemeralPacket() returns (data: Option<seq<byte>>)
      requires policy == Unused
      modifies `sequence, `input, `policy
      ensures Taken(data, input, sequence) == Joined(old(input), old(sequence))
      ensures policy == if Announced(old(input), old(sequence)).Some? then Reading else Unused
    {
      var length := ReadHeader();
      if length.None? { return None; }
      policy := Reading;
      assert input[0..] == input;
      if length.value == 0 { return Some([]); }
      data := ReadFull(length.value);
      if length.value < MAX || data.None? { return data; }
      data := ReadOthers(data.value);
    }

    method RecycleReadPacket()
      requires policy == Reading
      modifies `policy
      ensures policy == Unused
    {
      policy := Unused;
    }
  }

  lemma {:induction false} PrefixedTwice(a: seq<byte>, b: seq<byte>, t: Taken)
    ensures Prefixed(a, Prefixed(b, t)) == Prefixed(a + b, t)
  {
    if t.data.Some? {
      assert a + (b + t.data.value) == a + b + t.data.value;
    }
  }

  /** What is left to send completes the packets. */
  ghost predicate Sending(start: seq<byte>, first: byte, data: seq<byte>, index: nat, output: seq<byte>, sequence: byte)
    requires index <= |data|
  {
    && output + Frames(data[index..], sequence) == start + Frames(data, first)
    && Advance(sequence, |data| - index) == Advance(first, |data|)
  }

  lemma {:induction false} FramesStep(data: seq<byte>, index: nat, length: nat, sequence: byte)
    requires index + length <= |data| && length == if |data| - index > MAX then MAX else |data| - index
    ensures length < MAX ==> Frames(data[index..], sequence) == Packet(data[index..index + length], sequence)
    ensures length == MAX ==> (
      Frames(data[index..], sequence) == Packet(data[index..index + length], sequence) + Frames(data[index + length..], Succ(sequence)))
  {
    var rest := data[index..];
    assert rest[..length] == data[index..index + length];
    assert rest[length..] == data[index + length..];
  }

  /** A full packet leaves the rest of the payload to send. */
  lemma {:induction false} FullStep(start: seq<byte>, first: byte, data: seq<byte>, index: nat, output: seq<byte>,
                                    sequence: byte)
    requires index + MAX <= |data| && Sending(start, first, data, index, output, sequence)
    ensures Sending(start, first, data, index + MAX, output + Packet(data[index..index + MAX], sequence), Succ(sequence))
  {
    FramesStep(data, index, MAX, sequence);
    Associative(output, Packet(data[index..index + MAX], sequence), Frames(data[index + MAX..], Succ(sequence)));
  }

  /** A packet that is not full is the last. */
  lemma {:induction false} LastStep(start: seq<byte>, first: byte, data: seq<byte>, index: nat, output: seq<byte>,
                                    sequence: byte)
    requires index <= |data| < index + MAX && Sending(start, first, data, index, output, sequence)
    ensures output + Packet(data[index..], sequence) == start + Frames(data, first) && Succ(sequence) == Advance(first, |data|)
  {
  }

  // ----- round trips -----

  lemma {:induction false} HeaderRead(length: nat, sequence: byte, tail: seq<byte>)
    requires length <= MAX
    ensures Announced(Header(length, sequence) + tail, sequence) == Some(length)
  {
    assert (Header(length, sequence) + tail)[..3] == LittleEndian(length, 3);
    Powers();
    NumberOfBytes(length, 3);
  }

  lemma {:induction false} PacketRead(chunk: seq<byte>, sequence: byte, tail: seq<byte>)
    requires |chunk| <= MAX
    ensures One(Packet(chunk, sequence) + tail, sequence) == Taken(Some(chunk), tail, Succ(sequence))
  {
    var input := Packet(chunk, sequence) + tail;
    assert input == Header(|chunk|, sequence) + (chunk + tail);
    HeaderRead(|chunk|, sequence, chunk + tail);
  }

  /** Every payload is read back from its packets, whatever follows them, and both sides count alike. */
  lemma {:induction false} FramesRead(data: seq<byte>, sequence: byte, tail: seq<byte>)
    ensures Joined(Frames(data, sequence) + tail, sequence) == Taken(Some(data), tail, Advance(sequence, |data|))
    decreases |data|
  {
    if |data| < MAX {
      PacketRead(data, sequence, tail);
    } else {
      var others := Frames(data[MAX..], Succ(sequence));
      assert Frames(data, sequence) + tail == Packet(data[..MAX], sequence) + (others + tail);
      PacketRead(data[..MAX], sequence, others + tail);
      FramesRead(data[MAX..], Succ(sequence), tail);
      assert data[..MAX] + data[MAX..] == data;
    }
  }

  lemma {:induction false} OneIsPacket(input: seq<byte>, sequence: byte)
    requires One(input, sequence).data.Some?
    ensures var t := One(input, sequence);
            |t.data.value| <= MAX && input == Packet(t.data.value, sequence) + t.rest && t.sequence == Succ(sequence)
  {
    var t := One(input, sequence);
    BytesOfNumber(input[..3]);
    Powers();
    assert input[..4] == Header(|t.data.value|, sequence);
    assert input == input[..4] + input[4..];
  }

  /** Whatever a reader accepts is exactly what a writer of that payload sends. */
  lemma {:induction false} JoinedIsFrames(input: seq<byte>, sequence: byte)
    requires Joined(input, sequence).data.Some?
    ensures var t := Joined(input, sequence);
            input == Frames(t.data.value, sequence) + t.rest && t.sequence == Advance(sequence, |t.data.value|)
    decreases |input|
  {
    var first := One(input, sequence);
    OneIsPacket(input, sequence);
    if |first.data.value| == MAX {
      JoinedIsFrames(first.rest, first.sequence);
      var others := Joined(first.rest, first.sequence);
      var whole := first.data.value + others.data.value;
      assert whole[..MAX] == first.data.value && whole[MAX..] == others.data.value;
    }
  }

  lemma {:induction false} OneFewer(length: nat)
    requires length >= MAX
    ensures (length - MAX) / MAX == length / MAX - 1
  {
  }

  lemma {:induction false} CountOn(sequence: byte, n: nat)
    ensures (Succ(sequence) + n) % 256 == (sequence + n + 1) % 256
  {
  }

  /** A payload takes one packet more than the number of times it fills one. */
  lemma {:induction false} AdvanceCounts(sequence: byte, length: nat)
    ensures Advance(sequence, length) == (sequence + length / MAX + 1) % 256
    decreases length
  {
    if length >= MAX {
      AdvanceCounts(Succ(sequence), length - MAX);
      OneFewer(length);
      CountOn(sequence, length / MAX);
    }
  }

  // ----- any number of payloads -----

  /** The payloads one behind the other, in frames, each with the sequence number that the one before leaves. */
  function Stream(frame: (seq<byte>, byte) -> seq<byte>, advance: (byte, nat) -> byte, payloads: seq<seq<byte>>,
                  sequence: byte): seq<byte>
    decreases |payloads|
  {
    if payloads == [] then []
    else frame(payloads[0], sequence) + Stream(frame, advance, payloads[1..], advance(sequence, |payloads[0]|))
  }

  function Counted(advance: (byte, nat) -> byte, payloads: seq<seq<byte>>, sequence: byte): byte
    decreases |payloads|
  {
    if payloads == [] then sequence else Counted(advance, payloads[1..], advance(sequence, |payloads[0]|))
  }

  /** The payloads of `n` successful reads in a row. */
  function Reads(join: (seq<byte>, byte) -> Taken, n: nat, input: seq<byte>, sequence: byte): Option<(seq<seq<byte>>, seq<byte>, byte)> {
    if n == 0 then Some(([], input, sequence))
    else
      var t := join(input, sequence);
      if t.data.None? then None
      else
        var others := Reads(join, n - 1, t.rest, t.sequence);
        if others.None? then None else Some(([t.data.value] + others.value.0, others.value.1, others.value.2))
  }

  /** A reader that reads one frame back reads any number of them back. */
  lemma {:induction false} FramesReadBack(frame: (seq<byte>, byte) -> seq<byte>, advance: (byte, nat) -> byte,
      join: (seq<byte>, byte) -> Taken, payloads: seq<seq<byte>>, sequence: byte, tail: seq<byte>)
    requires forall d, q, t :: join(frame(d, q) + t, q) == Taken(Some(d), t, advance(q, |d|))
    ensures Reads(join, |payloads|, Stream(frame, advance, payloads, sequence) + tail, sequence) ==
            Some((payloads, tail, Counted(advance, payloads, sequence)))
    decreases |payloads|
  {
    if payloads == [] {
      assert [] + tail == tail;
    } else {
      var first, more := payloads[0], payloads[1..];
      var next := advance(sequence, |first|);
      var others := Stream(frame, advance, more, next) + tail;
      assert Stream(frame, advance, payloads, sequence) + tail == frame(first, sequence) + others;
      FramesReadBack(frame, advance, join, more, next, tail);
      assert [first] + more == payloads;
    }
  }

  /** Any sequence of payloads written to a connection is read back in order. */
  lemma {:induction false} StreamRead(payloads: seq<seq<byte>>, sequence: byte, tail: seq<byte>)
    ensures Reads(Joined, |payloads|, Stream(Frames, Advance, payloads, sequence) + tail, sequence) ==
            Some((payloads, tail, Counted(Advance, payloads, sequence)))
  {
    forall d, q, t ensures Joined(Frames(d, q) + t, q) == Taken(Some(d), t, Advance(q, |d|)) {
      FramesRead(d, q, t);
    }
    FramesReadBack(Frames, Advance, Joined, payloads, sequence, tail);
  }

  /** Three bytes of length, the lowest first, and the sequence number. */
  lemma {:induction false} HeaderBytes(length: nat, sequence: byte)
    requires length <= MAX
    ensures Header(length, sequence) == [length % 256, length / 256 % 256, length / 65536 % 256, sequence]
  {
    Layout(length);
  }

  lemma {:induction false} FullHeader(sequence: byte)
    ensures Header(MAX, sequence) == [255, 255, 255, sequence]
  {
    HeaderBytes(MAX, sequence);
  }

  /** On the wire: a header and the payload; a payload that fills a packet is continued in another, with the next number. */
  lemma {:induction false} FrameBytes(data: seq<byte>, sequence: byte)
    ensures |data| < 16777215 ==>
              Frames(data, sequence) == [|data| % 256, |data| / 256 % 256, |data| / 65536 % 256, sequence] + data
    ensures |data| >= 16777215 ==>
              Frames(data, sequence) ==
              [255, 255, 255, sequence] + data[..16777215] + Frames(data[16777215..], if sequence == 255 then 0 else sequence + 1)
  {
    if |data| < MAX {
      HeaderBytes(|data|, sequence);
    } else {
      FullHeader(sequence);
      NextNumber(sequence);
      assert Frames(data, sequence) == Packet(data[..MAX], sequence) + Frames(data[MAX..], Succ(sequence));
    }
  }

  lemma {:induction false} NextNumber(sequence: byte)
    ensures Succ(sequence) == if sequence == 255 then 0 else sequence + 1
  {
  }

  lemma {:induction false} Announces(input: seq<byte>)
    requires |input| >= 4
    ensures Number(input[..3]) == input[0] as int + 256 * (input[1] as int) + 65536 * (input[2] as int)
  {
    var a, b, c := input[..3], input[1..3], input[2..3];
    assert a[1..] == b && b[1..] == c && c[1..] == [];
    assert Number(c) == c[0] + 256 * Number([]);
    assert Number(b) == b[0] + 256 * Number(c);
  }

  /**
   * The errors of a packet, and what they leave. A short header and a short body use up the input; a wrong sequence
   * number uses up the header. The sequence number counts a header that was accepted.
   */
  lemma {:induction false} OneErrors(input: seq<byte>, sequence: byte)
    ensures |input| < 4 ==> One(input, sequence) == Taken(None, [], sequence)
    ensures |input| >= 4 && input[3] != sequence ==> One(input, sequence) == Taken(None, input[4..], sequence)
    ensures |input| >= 4 && input[3] == sequence ==>
              var n, t := input[0] as int + 256 * (input[1] as int) + 65536 * (input[2] as int), One(input, sequence);
              && t.sequence == (if sequence == 255 then 0 else sequence + 1)
              && if |input| - 4 < n then t.data == None && t.rest == []
                 else t.data == Some(input[4..4 + n]) && t.rest == input[4 + n..]
  {
    NextNumber(sequence);
    if |input| >= 4 && input[3] == sequence {
      Announces(input);
      var n := Number(input[..3]);
      if |input| - 4 >= n { assert input[4..][..n] == input[4..4 + n] && input[4..][n..] == input[4 + n..]; }
    }
  }
}
