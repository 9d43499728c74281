/** Length-framed messages over a byte stream, with the byte reversals of both layers. */
module Framing {
  import opened CStrings

  const UINT_MAX: nat := 0xFFFF_FFFF
  const USHORT_RANGE: nat := 0x1_0000

  // ----- reversal

  function Reversed(s: string): (r: string)
    ensures |r| == |s|
    ensures forall k :: 0 <= k < |s| ==> r[k] == s[|s| - 1 - k]
  {
    seq(|s|, i requires 0 <= i < |s| => s[|s| - 1 - i])
  }

  /** What `buffer_change_endian` makes of a text on a host; `little` is `htonl(1) != 1`. */
  function Turned(s: string, little: bool): string {
    if little then Reversed(s) else s
  }

  lemma TurnedTwice(s: string, little: bool)
    ensures Turned(Turned(s, little), little) == s
  {
  }

  /** The first half changes places with the second, in place. */
  method BufferChangeEndian(buffer: array<char>, length: nat, little: bool)
    requires length <= buffer.Length
    modifies buffer
    ensures buffer[..length] == Turned(old(buffer[..length]), little)
    ensures buffer[length..] == old(buffer[length..])
    ensures forall k :: 0 <= k < length ==> buffer[k] == if little then old(buffer[length - 1 - k]) else old(buffer[k])
  {
    if little {
      hide Mirrored, Reversed;
      ghost var was := buffer[..];
      MirroredNothing(was, length);
      var i := 0;
      while i < length / 2
        invariant i <= length / 2 && buffer[..] == Mirrored(was, length, i)
      {
        MirroredNext(was, length, i);
        var temp := buffer[i];
        buffer[i] := buffer[length - 1 - i];
        buffer[length - 1 - i] := temp;
        i := i + 1;
      }
      MirroredAll(was, length);
    }
  }

  /** The first `i` elements of the first `n` have changed places with the last `i` of them. */
  function Mirrored(s: string, n: nat, i: nat): (r: string)
    requires n <= |s| && i <= n / 2
    ensures |r| == |s|
  {
    seq(|s|, k requires 0 <= k < |s| => if k < i || n - i <= k < n then s[n - 1 - k] else s[k])
  }

  lemma MirroredNothing(s: string, n: nat)
    requires n <= |s|
    ensures Mirrored(s, n, 0) == s
  {
  }

  lemma MirroredNext(s: string, n: nat, i: nat)
    requires n <= |s| && i < n / 2
    ensures var m := Mirrored(s, n, i); Mirrored(s, n, i + 1) == m[i := m[n - 1 - i]][n - 1 - i := m[i]]
  {
  }

  lemma MirroredAll(s: string, n: nat)
    requires n <= |s|
    ensures Mirrored(s, n, n / 2)[..n] == Reversed(s[..n]) && Mirrored(s, n, n / 2)[n..] == s[n..]
  {
    assert n % 2 == 1 ==> n - 1 - n / 2 == n / 2;
  }

  // ----- receiving

  function Zeros(n: nat): (s: string)
    ensures |s| == n
  {
    seq(n, _ => '\0')
  }

  /** The receiving end of a connection.  While bytes are in flight, a call delivers some of them; then it
      reports an error (-1) `errors` times, and from then on the end of the connection (0). */
  class Socket {
    var incoming: string
    var errors: nat

    constructor (incoming: string, errors: nat)
      ensures this.incoming == incoming && this.errors == errors
    {
      this.incoming, this.errors := incoming, errors;
    }

    method Recv(max: nat) returns (result: int, chunk: string)
      requires max > 0
      modifies this
      ensures chunk + incoming == old(incoming) && |chunk| <= max
      ensures old(incoming) != "" ==> chunk != "" && result == |chunk| && errors == old(errors)
      ensures old(incoming) == "" ==> chunk == "" && result == if old(errors) > 0 then -1 else 0
      ensures old(incoming) == "" ==> errors == if old(errors) > 0 then old(errors) - 1 else 0
    {
      chunk := "";
      if incoming != "" {
        var n: nat :| 1 <= n <= max && n <= |incoming|;
        chunk := incoming[..n];
        incoming := incoming[n..];
        result := n;
      } else if errors > 0 {
        errors := errors - 1;
        result := -1;
      } else {
        result := 0;
      }
    }
  }

  /** The next `n` bytes.  The byte count is unsigned, so each error takes one from it instead of being a
      failure, and one below zero is more than any length: the missing bytes read as zero when there are more
      errors than bytes. */
  function Next(incoming: string, errors: nat, n: nat): (r: Option<string>)
    ensures r.Some? ==> |r.value| == n
  {
    if n <= |incoming| then Some(incoming[..n])
    else if errors > |incoming| then Some(incoming + Zeros(n - |incoming|))
    else None
  }

  function ErrorsLeft(incoming: string, errors: nat, n: nat): nat {
    if n <= |incoming| then errors else if errors > |incoming| then errors - |incoming| - 1 else 0
  }

  function Left(incoming: string, n: nat): string {
    if n <= |incoming| then incoming[n..] else ""
  }

  /** `bzero` */
  method Clear(message: array<char>, length: nat)
    requires length <= message.Length
    modifies message
    ensures message[..length] == Zeros(length) && message[length..] == old(message[length..])
  {
    for i := 0 to length
      invariant message[..i] == Zeros(i) && message[length..] == old(message[length..])
    {
      message[i] := '\0';
    }
  }

  method RecvFixedLength(sock: Socket, message: array<char>, length: nat, little: bool) returns (ok: bool)
    requires length <= message.Length && length <= UINT_MAX
    modifies sock, message
    ensures ok == Next(old(sock.incoming), old(sock.errors), length).Some?
    ensures ok ==> message[..length] == Turned(Next(old(sock.incoming), old(sock.errors), length).value, little)
    ensures message[length..] == old(message[length..])
    ensures sock.incoming == Left(old(sock.incoming), length)
    ensures sock.errors == ErrorsLeft(old(sock.incoming), old(sock.errors), length)
  {
    hide Turned, Next, ErrorsLeft, Holds;
    ghost var bytes, errors, behind := sock.incoming, sock.errors, message[length..];
    Clear(message, length);
    HoldsNothing(message[..], bytes, length, behind);
    var total: nat := 0;
    ghost var got: nat := 0;
    while total < length
      invariant got <= |bytes| && got <= length && sock.errors <= errors <= sock.errors + got + 1
      invariant sock.incoming == bytes[got..] && Holds(message[..], bytes, got, length, behind)
      invariant sock.errors < errors ==> got == |bytes| < length
      invariant total == if errors <= sock.errors + got then got + sock.errors - errors else UINT_MAX
      decreases |bytes| - got, sock.errors
    {
      var result, chunk := sock.Recv(length - total);
      if result == 0 {
        NotEnough(bytes, errors, length);
        HeldParts(message[..], bytes, got, length, behind);
        assert message[..][length..] == message[length..];
        return false;
      }
      if chunk != "" {
        ghost var before := message[..];
        StoreChunk(message, total, chunk);
        ChunkStored(before, message[..], bytes, got, chunk, length, behind);
      }
      got := got + |chunk|;
      // unsigned arithmetic: adding -1 subtracts one, and wraps below zero
      total := if total + result < 0 then total + result + UINT_MAX + 1 else total + result;
    }
    HeldParts(message[..], bytes, got, length, behind);
    assert message[..][..length] == message[..length] && message[..][length..] == message[length..];
    Completed(bytes, errors, message[..length], got);
    BufferChangeEndian(message, length, little);
    return true;
  }

  /** The first bytes have arrived in the zeroed part of the buffer, and the rest of it is untouched. */
  predicate Holds(content: string, bytes: string, got: nat, length: nat, behind: string) {
    got <= length <= |content| && got <= |bytes| && content[..got] == bytes[..got]
    && content[got..length] == Zeros(length - got) && content[length..] == behind
  }

  lemma HoldsNothing(content: string, bytes: string, length: nat, behind: string)
    requires length <= |content| && content[..length] == Zeros(length) && content[length..] == behind
    ensures Holds(content, bytes, 0, length, behind)
  {
  }

  lemma HeldParts(content: string, bytes: string, got: nat, length: nat, behind: string)
    requires Holds(content, bytes, got, length, behind)
    ensures got <= length <= |content| && got <= |bytes| && content[length..] == behind
    ensures content[..length][..got] == bytes[..got] && content[..length][got..] == Zeros(length - got)
  {
    assert content[..length][..got] == content[..got] && content[..length][got..] == content[got..length];
  }

  lemma NotEnough(bytes: string, errors: nat, n: nat)
    requires |bytes| < n && errors <= |bytes|
    ensures Next(bytes, errors, n).None? && Left(bytes, n) == "" && ErrorsLeft(bytes, errors, n) == 0
  {
  }

  lemma Completed(bytes: string, errors: nat, content: string, got: nat)
    requires got <= |content| && got <= |bytes| && content[..got] == bytes[..got]
    requires content[got..] == Zeros(|content| - got)
    requires got == |content| || (errors > got && got == |bytes|)
    ensures Next(bytes, errors, |content|) == Some(content) && Left(bytes, |content|) == bytes[got..]
    ensures ErrorsLeft(bytes, errors, |content|) == if got == |content| then errors else errors - got - 1
  {
    assert content == content[..got] + content[got..];
    if got < |content| { assert bytes[..got] == bytes; } else { assert content[..got] == content; }
  }

  /** What `recv` does to the buffer: the bytes go to `message + at`. */
  method StoreChunk(message: array<char>, at: nat, chunk: string)
    requires at + |chunk| <= message.Length
    modifies message
    ensures message[..] == old(message[..at]) + chunk + old(message[at + |chunk|..])
  {
    for i := 0 to |chunk|
      invariant message[..at] == old(message[..at]) && message[at..at + i] == chunk[..i]
      invariant message[at + i..] == old(message[at + i..])
    {
      message[at + i] := chunk[i];
    }
    assert message[..] == message[..at] + message[at..at + |chunk|] + message[at + |chunk|..];
  }

  lemma ChunkStored(before: string, after: string, bytes: string, got: nat, chunk: string, length: nat,
                    behind: string)
    requires Holds(before, bytes, got, length, behind) && got + |chunk| <= length && got + |chunk| <= |bytes|
    requires after == before[..got] + chunk + before[got + |chunk|..] && chunk <= bytes[got..]
    ensures Holds(after, bytes, got + |chunk|, length, behind)
  {
    var n := got + |chunk|;
    assert bytes[..n] == bytes[..got] + bytes[got..][..|chunk|];
    assert forall k :: got <= k < length ==> before[k] == before[got..length][k - got] == '\0';
    assert forall k :: n <= k < |before| ==> after[k] == before[k];
  }

  // ----- frames

  function Byte(n: nat): char
    requires n < 256
  {
    n as char
  }

  /** A `char` stands for a byte. */
  function ByteValue(c: char): (n: nat)
    ensures n < 256
  {
    c as nat % 256
  }

  /** The two bytes of an `unsigned short` in the memory of a host. */
  function HostBytes(n: nat, little: bool): (s: string)
    requires n < USHORT_RANGE
    ensures |s| == 2
  {
    if little then [Byte(n % 256), Byte(n / 256)] else [Byte(n / 256), Byte(n % 256)]
  }

  function HostShort(s: string, little: bool): nat
    requires |s| == 2
  {
    if little then ByteValue(s[1]) * 256 + ByteValue(s[0]) else ByteValue(s[0]) * 256 + ByteValue(s[1])
  }

  /** `htons` */
  function NetworkOrder(n: nat, little: bool): (m: nat)
    requires n < USHORT_RANGE
    ensures m < USHORT_RANGE
  {
    if little then n % 256 * 256 + n / 256 else n
  }

  /** A message on the wire: its length in network order, then its bytes. */
  function Frame(m: string): string
    requires |m| < USHORT_RANGE
  {
    [Byte(|m| / 256), Byte(|m| % 256)] + m
  }

  /** The length in front of the remaining bytes. */
  function FrameLength(header: string): (n: nat)
    requires |header| == 2
    ensures n < USHORT_RANGE
  {
    ByteValue(header[0]) * 256 + ByteValue(header[1])
  }

  lemma LengthBytes(n: nat, little: bool)
    requires n < USHORT_RANGE
    ensures HostBytes(NetworkOrder(n, little), little) == [Byte(n / 256), Byte(n % 256)]
  {
  }

  /** `send_varmsg`: the length is cut to sixteen bits. */
  method SendVarmsg(message: string, little: bool) returns (sent: string)
    ensures sent == Frame(message[..|message| % USHORT_RANGE])
    ensures |message| < USHORT_RANGE ==> sent == Frame(message)
    ensures var length := |message| % 0x1_0000;
            |sent| == 2 + length && sent[0] as int * 256 + sent[1] as int == length && sent[2..] == message[..length]
  {
    var length := |message| % USHORT_RANGE;
    var myLen := NetworkOrder(length, little);
    sent := HostBytes(myLen, little);
    LengthBytes(length, little);
    sent := sent + message[..length];
    assert |message| < USHORT_RANGE ==> message[..length] == message;
  }

  /** The message at the front of a stream; "" stands for failure, as the length 0 does in the source. */
  function FirstMessage(incoming: string, errors: nat): string {
    match Next(incoming, errors, 2)
    case None => ""
    case Some(header) =>
      match Next(Left(incoming, 2), ErrorsLeft(incoming, errors, 2), FrameLength(header))
      case None => ""
      case Some(m) => m
  }

  function BehindMessage(incoming: string, errors: nat): string {
    match Next(incoming, errors, 2)
    case None => ""
    case Some(header) => Left(Left(incoming, 2), FrameLength(header))
  }

  function ErrorsBehind(incoming: string, errors: nat): nat {
    match Next(incoming, errors, 2)
    case None => ErrorsLeft(incoming, errors, 2)
    case Some(header) => ErrorsLeft(Left(incoming, 2), ErrorsLeft(incoming, errors, 2), FrameLength(header))
  }

  /** The length announced in front of a message. */
  function Announced(incoming: string, errors: nat): nat {
    match Next(incoming, errors, 2) case None => 0 case Some(header) => FrameLength(header)
  }

  lemma HeaderOnHost(header: string, little: bool)
    requires |header| == 2
    ensures HostShort(Turned(header, little), little) == FrameLength(header)
  {
  }

  lemma NothingLeft(incoming: string, errors: nat, n: nat)
    ensures Next(incoming, errors, n).None? ==> Left(incoming, n) == ""
  {
  }

  /** `recv_varmsg`: on every host the reversals inside cancel, and the bytes arrive as they were sent. */
  method RecvVarmsg(sock: Socket, message: array<char>, little: bool) returns (length: nat)
    requires Announced(sock.incoming, sock.errors) <= message.Length
    modifies sock, message
    ensures length == |FirstMessage(old(sock.incoming), old(sock.errors))|
    ensures length > 0 ==>
              length <= message.Length && message[..length] == FirstMessage(old(sock.incoming), old(sock.errors))
    ensures sock.incoming == BehindMessage(old(sock.incoming), old(sock.errors))
    ensures sock.errors == ErrorsBehind(old(sock.incoming), old(sock.errors))
  {
    hide Turned, Next, Left, ErrorsLeft, HostShort, FrameLength;
    ghost var bytes, errors := sock.incoming, sock.errors;
    var lengthBytes := new char[2](_ => '\0');
    var ok := RecvFixedLength(sock, lengthBytes, 2, little);
    NothingLeft(bytes, errors, 2);
    if !ok {
      return 0;
    }
    assert lengthBytes[..2] == lengthBytes[..];
    length := HostShort(lengthBytes[..], little);
    ghost var header := Next(bytes, errors, 2).value;
    HeaderOnHost(header, little);
    ok := RecvFixedLength(sock, message, length, little);
    if !ok {
      return 0;
    }
    ghost var m := Next(Left(bytes, 2), ErrorsLeft(bytes, errors, 2), length).value;
    TurnedTwice(m, little);
    BufferChangeEndian(message, length, little);
  }

  // ----- whole streams

  function Frames(messages: seq<string>): string
    requires forall m <- messages :: |m| < USHORT_RANGE
  {
    if messages == [] then "" else Frame(messages[0]) + Frames(messages[1..])
  }

  /** What a receiver takes from a stream before its first failure. */
  function Messages(incoming: string, errors: nat): seq<string>
    decreases |incoming|
  {
    var m := FirstMessage(incoming, errors);
    if m == "" || incoming == "" then []
    else [m] + Messages(BehindMessage(incoming, errors), ErrorsBehind(incoming, errors))
  }

  lemma FrameFront(m: string, rest: string, errors: nat)
    requires |m| < USHORT_RANGE
    ensures FirstMessage(Frame(m) + rest, errors) == m && BehindMessage(Frame(m) + rest, errors) == rest
    ensures ErrorsBehind(Frame(m) + rest, errors) == errors
  {
    var s := Frame(m) + rest;
    var header := [Byte(|m| / 256), Byte(|m| % 256)];
    assert s[..2] == header && s[2..] == m + rest;
    assert FrameLength(header) == |m|;
    assert (m + rest)[..|m|] == m && (m + rest)[|m|..] == rest;
  }

  /** Nonempty messages arrive as they were sent, in order, and nothing else does, whatever ends the stream
      behind them without being a message. */
  lemma {:induction false} FramesRoundTrip(messages: seq<string>, tail: string, errors: nat)
    requires (forall m <- messages :: 0 < |m| < USHORT_RANGE) && FirstMessage(tail, errors) == ""
    ensures Messages(Frames(messages) + tail, errors) == messages
    decreases |messages|
  {
    hide Frame, FirstMessage, BehindMessage, ErrorsBehind;
    if messages == [] {
      assert "" + tail == tail;
    } else {
      assert messages[0] in messages;
      Assoc(Frame(messages[0]), Frames(messages[1..]), tail);
      FrameFront(messages[0], Frames(messages[1..]) + tail, errors);
      FramesRoundTrip(messages[1..], tail, errors);
      FrameSome(messages[0]);
      assert messages == [messages[0]] + messages[1..];
    }
  }

  lemma {:induction false} FramesAppend(ms: seq<string>, m: string)
    requires (forall x <- ms :: |x| < USHORT_RANGE) && |m| < USHORT_RANGE
    ensures forall x <- ms + [m] :: |x| < USHORT_RANGE
    ensures Frames(ms + [m]) == Frames(ms) + Frame(m)
    decreases |ms|
  {
    hide Frame;
    if ms == [] {
      assert (ms + [m])[1..] == [];
      NoTail(Frame(m));
    } else {
      assert (ms + [m])[1..] == ms[1..] + [m];
      FramesAppend(ms[1..], m);
      Assoc(Frame(ms[0]), Frames(ms[1..]), Frame(m));
    }
  }

  // ----- the server's side

  lemma FrameSome(m: string)
    requires |m| < USHORT_RANGE
    ensures Frame(m) != ""
  {
  }

  lemma NoMessage(errors: nat)
    ensures FirstMessage("", errors) == ""
  {
    if errors > 0 { assert FrameLength("" + Zeros(2)) == 0; }
  }

  /** The receiving loop of a listener, until the connection ends or an empty message arrives.  The reads
      may cut the stream anywhere. */
  method ReceiveAll(sock: Socket, little: bool) returns (messages: seq<string>)
    modifies sock
    ensures messages == Messages(old(sock.incoming), old(sock.errors))
  {
    hide FirstMessage, BehindMessage, ErrorsBehind, Announced;
    var buffer := new char[USHORT_RANGE](_ => '\0');
    messages := [];
    var going := true;
    while going
      invariant going ==>
        messages + Messages(sock.incoming, sock.errors) == Messages(old(sock.incoming), old(sock.errors))
      invariant !going ==> messages == Messages(old(sock.incoming), old(sock.errors))
      invariant fresh(buffer)
      decreases going, |sock.incoming|
    {
      ghost var bytes, errors := sock.incoming, sock.errors;
      AnnouncedFits(bytes, errors);
      var length := RecvVarmsg(sock, buffer, little);
      NoMessage(errors);
      NoTail(messages);
      if length == 0 {
        going := false;
      } else {
        Assoc(messages, [buffer[..length]], Messages(sock.incoming, sock.errors));
        messages := messages + [buffer[..length]];
        ShorterBehind(bytes, errors);
      }
    }
  }

  lemma AnnouncedFits(incoming: string, errors: nat)
    ensures Announced(incoming, errors) < USHORT_RANGE
  {
  }

  lemma ShorterBehind(incoming: string, errors: nat)
    requires incoming != ""
    ensures |BehindMessage(incoming, errors)| < |incoming|
  {
  }

  /** What a receiver makes of a message of which only `got` bytes of the frame arrived, when the connection
      then reports `errors` errors before its end.  Without a byte of the frame the stream ends.  With one,
      half of the length is taken for the whole, and that many zeros are delivered, from three errors on.  With
      more, the missing part of the message is delivered as zeros from one error more than there are bytes. */
  lemma ResetInsideMessage(m: string, got: nat, errors: nat)
    requires |m| < USHORT_RANGE && got < |Frame(m)|
    ensures FirstMessage(Frame(m)[..got], errors) ==
      if got == 0 then ""
      else if got == 1 then (if errors >= 3 then Zeros(|m| / 256 * 256) else "")
      else (if errors > got - 2 then m[..got - 2] + Zeros(|m| - (got - 2)) else "")
  {
    hide Next, FrameLength, Byte, Zeros;
    var s := Frame(m)[..got];
    if got == 0 {
      NoMessage(errors);
    } else if got == 1 {
      assert s == [s[0]];
      OneByte(m, s[0], errors);
    } else {
      FrameFront(m, "", errors);
      HeaderOf(m);
      assert s[..2] == Frame(m)[..2] && s[2..] == m[..got - 2];
      NextIs(s, errors, 2);
      NextIs(m[..got - 2], errors, |m|);
    }
  }

  lemma HeaderOf(m: string)
    requires |m| < USHORT_RANGE
    ensures Frame(m)[..2] == [Byte(|m| / 256), Byte(|m| % 256)] && FrameLength(Frame(m)[..2]) == |m|
  {
    assert Frame(m)[..2] == [Byte(|m| / 256), Byte(|m| % 256)];
  }

  lemma NextIs(incoming: string, errors: nat, n: nat)
    ensures n <= |incoming| ==> Next(incoming, errors, n) == Some(incoming[..n])
    ensures n > |incoming| && errors > |incoming| ==>
              Next(incoming, errors, n) == Some(incoming + Zeros(n - |incoming|))
    ensures n > |incoming| && errors <= |incoming| ==> Next(incoming, errors, n) == None
  {
  }

  lemma OneByte(m: string, c: char, errors: nat)
    requires |m| < USHORT_RANGE && c == Byte(|m| / 256)
    ensures FirstMessage([c], errors) == if errors >= 3 then Zeros(|m| / 256 * 256) else ""
  {
    hide Next;
    var n := |m| / 256 * 256;
    NextIs([c], errors, 2);
    if errors >= 2 {
      assert FrameLength([c] + Zeros(1)) == n;
      assert Left([c], 2) == "" && ErrorsLeft([c], errors, 2) == errors - 2;
      NextIs("", errors - 2, n);
      assert "" + Zeros(n) == Zeros(n);
      if n == 0 { assert Zeros(n) == ""; }
    }
  }

  // ----- the reversals of the applications

  /** Sender and receiver each turn the message once more, outside the framing. */
  function Delivered(m: string, sender: bool, receiver: bool): string {
    Turned(Turned(m, sender), receiver)
  }

  /** They cancel exactly when the hosts agree in endianness, or when the message reads the same both ways. */
  lemma ReversalsCancel(m: string, sender: bool, receiver: bool)
    ensures Delivered(m, sender, receiver) == m <==> sender == receiver || Reversed(m) == m
  {
    TurnedTwice(m, true);
  }
}
