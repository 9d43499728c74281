/** The agent's command loop: every command is answered once, under its own id, until one crashes it. */
module Agents {
  import opened CStrings
  import opened CBuffers
  import opened Framing
  import InfoSources
  import Requests

  type Tid = Requests.Tid

  /** What the branches of the command switch do with a command: leave a text in the response buffer, or
      crash the agent. */
  type Switch = string -> InfoSources.Reply

  /** The command that makes the agent leave its loop, behind the acknowledgement. */
  const RESTART: char := 't'

  /** The id behind the type of a command; the buffer of a short command goes on with zeros. */
  function IdOf(command: string): Tid {
    (command + Zeros(Requests.TID_SIZE + 1))[1..Requests.TID_SIZE + 1]
  }

  /** Byte by byte. */
  lemma IdBytes(command: string, k: nat)
    requires k < 8
    ensures IdOf(command)[k] == if k + 1 < |command| then command[k + 1] else '\0'
  {
  }

  /** The acknowledgement for a command, if the agent lives to send it. */
  function AckFor(command: string, respond: Switch): string {
    match respond(command)
    case Crash => ""
    case Reply(text) => Requests.Pack(Requests.ACK, IdOf(command), text)
  }

  /** What is sent for a received message, with the reversals of the agent around both. */
  function AckOn(message: string, little: bool, respond: Switch): string {
    Turned(AckFor(Turned(message, little), respond), little)
  }

  function AcksOn(messages: seq<string>, little: bool, respond: Switch): (rs: seq<string>)
    ensures |rs| == |messages| && forall k :: 0 <= k < |rs| ==> rs[k] == AckOn(messages[k], little, respond)
  {
    seq(|messages|, i requires 0 <= i < |messages| => AckOn(messages[i], little, respond))
  }

  predicate IsRestart(message: string, little: bool) {
    At(Turned(message, little), 0) == RESTART
  }

  predicate Crashes(message: string, little: bool, respond: Switch) {
    respond(Turned(message, little)).Crash?
  }

  /** The messages that are acknowledged: those in front of the first crash, and up to the first command to
      restart, that one included. */
  function Handled(messages: seq<string>, little: bool, respond: Switch): (hs: seq<string>)
    ensures hs <= messages
    ensures forall k :: 0 <= k < |hs| ==> !Crashes(hs[k], little, respond)
    ensures forall k :: 0 <= k < |hs| - 1 ==> !IsRestart(hs[k], little)
    ensures |hs| < |messages| ==>
              Crashes(messages[|hs|], little, respond) || (hs != [] && IsRestart(hs[|hs| - 1], little))
  {
    if messages == [] || Crashes(messages[0], little, respond) then []
    else if IsRestart(messages[0], little) then [messages[0]]
    else [messages[0]] + Handled(messages[1..], little, respond)
  }

  /** Every response fits its buffer. */
  ghost predicate Short(respond: Switch) {
    forall command :: respond(command).Reply? ==> |respond(command).text| <= MSG_MAX_SIZE
  }

  lemma AckFits(message: string, little: bool, respond: Switch)
    requires Short(respond)
    ensures |AckOn(message, little, respond)| < USHORT_RANGE
    ensures !Crashes(message, little, respond) ==> AckOn(message, little, respond) != ""
  {
  }

  lemma AcksFit(messages: seq<string>, little: bool, respond: Switch)
    requires Short(respond)
    ensures forall m <- AcksOn(messages, little, respond) :: |m| < USHORT_RANGE
    ensures (forall k :: 0 <= k < |messages| ==> !Crashes(messages[k], little, respond)) ==>
              forall m <- AcksOn(messages, little, respond) :: m != ""
  {
    hide AckOn, Crashes;
    forall k | 0 <= k < |messages|
      ensures |AcksOn(messages, little, respond)[k]| < USHORT_RANGE
      ensures !Crashes(messages[k], little, respond) ==> AcksOn(messages, little, respond)[k] != ""
    {
      AckFits(messages[k], little, respond);
    }
  }

  /** `treat`; without a result when the command crashes the agent. */
  method Treat(command: string, little: bool, respond: Switch) returns (sent: Option<string>)
    requires Short(respond)
    ensures |Turned(AckFor(command, respond), little)| < USHORT_RANGE
    ensures sent == if respond(command).Crash? then None else Some(Frame(Turned(AckFor(command, respond), little)))
  {
    var requestId := IdOf(command);
    match respond(command)
    case Crash => return None;
    case Reply(response) =>
      var ack := Turned(Requests.Pack(Requests.ACK, requestId, response), little);
      var bytes := SendVarmsg(ack, little);
      return Some(bytes);
  }

  /** The loop: receive a command, treat it, until the connection ends, a restart is asked for, or a command
      crashes the agent.  Heartbeats in between are not part of this model. */
  method Serve(sock: Socket, little: bool, respond: Switch) returns (sent: string)
    requires Short(respond)
    modifies sock
    ensures var handled := Handled(Messages(old(sock.incoming), old(sock.errors)), little, respond);
            var acks := AcksOn(handled, little, respond);
            (forall m <- acks :: |m| < USHORT_RANGE) && sent == Frames(acks)
  {
    hide FirstMessage, BehindMessage, ErrorsBehind, Announced, Frame, Short, AckOn, IsRestart, Crashes;
    var buffer := new char[USHORT_RANGE](_ => '\0');
    ghost var all := Messages(sock.incoming, sock.errors);
    ghost var handled: seq<string> := [];
    sent := "";
    AcksFit([], little, respond);
    var going := true;
    while going
      invariant fresh(buffer)
      invariant forall m <- AcksOn(handled, little, respond) :: |m| < USHORT_RANGE
      invariant sent == Frames(AcksOn(handled, little, respond))
      invariant going ==>
        handled + Handled(Messages(sock.incoming, sock.errors), little, respond) == Handled(all, little, respond)
      invariant !going ==> handled == Handled(all, little, respond)
      decreases going, |sock.incoming|
    {
      ghost var bytes, errors := sock.incoming, sock.errors;
      AnnouncedFits(bytes, errors);
      var length := RecvVarmsg(sock, buffer, little);
      NoMessage(errors);
      NoTail(handled);
      if length == 0 {
        going := false;
      } else {
        var message := buffer[..length];
        ShorterBehind(bytes, errors);
        MessagesStep(bytes, errors);
        HandledStep(handled, message, Messages(sock.incoming, sock.errors), little, respond);
        var command := Turned(message, little);
        AckIs(message, little, respond);
        var ack := Treat(command, little, respond);
        if ack.None? {
          going := false;
        } else {
          AcksNext(handled, message, little, respond);
          AcksFit(handled + [message], little, respond);
          FramesAppend(AcksOn(handled, little, respond), AckOn(message, little, respond));
          sent := sent + ack.value;
          handled := handled + [message];
          going := At(command, 0) != RESTART;
        }
      }
    }
  }

  lemma MessagesStep(incoming: string, errors: nat)
    requires FirstMessage(incoming, errors) != "" && incoming != ""
    ensures Messages(incoming, errors)
         == [FirstMessage(incoming, errors)] + Messages(BehindMessage(incoming, errors), ErrorsBehind(incoming, errors))
  {
  }

  lemma HandledStep(done: seq<string>, message: string, more: seq<string>, little: bool, respond: Switch)
    ensures done + Handled([message] + more, little, respond)
         == if Crashes(message, little, respond) then done
            else if IsRestart(message, little) then done + [message]
            else done + [message] + Handled(more, little, respond)
  {
    hide IsRestart, Crashes;
    assert ([message] + more)[1..] == more;
    NoTail(done);
    Assoc(done, [message], Handled(more, little, respond));
  }

  lemma AckIs(message: string, little: bool, respond: Switch)
    ensures AckOn(message, little, respond) == Turned(AckFor(Turned(message, little), respond), little)
    ensures IsRestart(message, little) <==> At(Turned(message, little), 0) == RESTART
    ensures Crashes(message, little, respond) <==> respond(Turned(message, little)).Crash?
  {
  }

  lemma AcksNext(messages: seq<string>, message: string, little: bool, respond: Switch)
    ensures AcksOn(messages + [message], little, respond)
         == AcksOn(messages, little, respond) + [AckOn(message, little, respond)]
  {
    hide AckOn;
  }

  // ----- what the server sees

  /** A request as the server packs and sends it. */
  datatype Request = Request(kind: char, tid: Tid, params: string)

  function Packed(r: Request): string {
    Requests.Pack(r.kind, r.tid, r.params)
  }

  function Sent(rs: seq<Request>, little: bool): (ms: seq<string>)
    ensures |ms| == |rs| && forall k :: 0 <= k < |rs| ==> ms[k] == Turned(Packed(rs[k]), little)
  {
    seq(|rs|, i requires 0 <= i < |rs| => Turned(Packed(rs[i]), little))
  }

  lemma PackedIs(r: Request)
    ensures IdOf(Packed(r)) == r.tid && At(Packed(r), 0) == r.kind
  {
    assert (Packed(r) + Zeros(Requests.TID_SIZE + 1))[1..Requests.TID_SIZE + 1] == r.tid;
  }

  /** How many of the requests are acknowledged: all in front of the first that crashes the agent, up to the
      first that restarts it. */
  function Answerable(rs: seq<Request>, respond: Switch): (n: nat)
    ensures n <= |rs|
    ensures forall k :: 0 <= k < n ==> respond(Packed(rs[k])).Reply? && (k < n - 1 ==> rs[k].kind != 't')
    ensures n < |rs| ==> respond(Packed(rs[n])).Crash? || (n > 0 && rs[n - 1].kind == 't')
  {
    if rs == [] || respond(Packed(rs[0])).Crash? then 0
    else if rs[0].kind == RESTART then 1
    else 1 + Answerable(rs[1..], respond)
  }

  lemma {:induction false} HandledCount(rs: seq<Request>, little: bool, respond: Switch)
    ensures |Handled(Sent(rs, little), little, respond)| == Answerable(rs, respond)
    decreases |rs|
  {
    hide Turned, Packed;
    if rs != [] {
      TurnedTwice(Packed(rs[0]), little);
      PackedIs(rs[0]);
      assert Sent(rs, little)[1..] == Sent(rs[1..], little);
      HandledCount(rs[1..], little, respond);
    }
  }

  /** The answers to requests, as the server reads them: one for each command in front of the first crash or
      up to the first restart, in the order of the commands, each with the id and the response of its own
      command. */
  lemma AnsweredInOrder(rs: seq<Request>, little: bool, respond: Switch)
    requires Short(respond)
    requires forall m <- Sent(rs, little) :: 0 < |m| < USHORT_RANGE
    ensures var handled := Handled(Messages(Frames(Sent(rs, little)), 0), little, respond);
            var acks := AcksOn(handled, little, respond);
            |handled| == Answerable(rs, respond)
            && (forall m <- acks :: |m| < USHORT_RANGE)
            && Messages(Frames(acks), 0) == acks
            && forall k :: 0 <= k < |handled| ==>
                 respond(Packed(rs[k])).Reply? &&
                 Turned(acks[k], little) == "a" + rs[k].tid + respond(Packed(rs[k])).text
  {
    hide Frame, Messages, AckOn, IsRestart, Crashes, Short, Packed;
    RoundTrip(Sent(rs, little));
    HandledCount(rs, little, respond);
    var handled := Handled(Sent(rs, little), little, respond);
    var acks := AcksOn(handled, little, respond);
    AcksFit(handled, little, respond);
    RoundTrip(acks);
    forall k | 0 <= k < |handled|
      ensures respond(Packed(rs[k])).Reply?
      ensures Turned(acks[k], little) == "a" + rs[k].tid + respond(Packed(rs[k])).text
    {
      assert handled[k] == Sent(rs, little)[k];
      AckRead(rs[k], little, respond);
    }
  }

  lemma AckRead(r: Request, little: bool, respond: Switch)
    requires !Crashes(Turned(Packed(r), little), little, respond)
    ensures respond(Packed(r)).Reply?
    ensures Turned(AckOn(Turned(Packed(r), little), little, respond), little)
         == "a" + r.tid + respond(Packed(r)).text
  {
    hide Turned, Packed;
    TurnedTwice(Packed(r), little);
    TurnedTwice(AckFor(Packed(r), respond), little);
    PackedIs(r);
  }

  lemma RoundTrip(messages: seq<string>)
    requires forall m <- messages :: 0 < |m| < USHORT_RANGE
    ensures Messages(Frames(messages), 0) == messages
  {
    hide Frame, Messages, FirstMessage;
    NoMessage(0);
    NoTail(Frames(messages));
    FramesRoundTrip(messages, "", 0);
  }
}
