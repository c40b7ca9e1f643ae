/** Messages on a stream, each behind its length in two octets (section 4.2.2 of RFC 1035). */
module Framing {
  import opened Bytes

  type Message = seq<byte>

  function Frame(m: Message): seq<byte> {
    Be16(Cut16(|m|)) + m
  }

  function Frames(ms: seq<Message>): seq<byte> {
    if ms == [] then [] else Frame(ms[0]) + Frames(ms[1..])
  }

  /** How reading a stream ends: no whole length is left, a length is zero, or a message is cut off. */
  datatype Ending = Closed | ZeroLength | Truncated

  datatype Received = Received(messages: seq<Message>, ending: Ending)

  function Unframe(s: seq<byte>): Received
    decreases |s|
  {
    if |s| < 2 then Received([], Closed)
    else
      var n := U16At(s, 0);
      if n == 0 then Received([], ZeroLength)
      else if |s| < 2 + n then Received([], Truncated)
      else
        var rest := Unframe(s[2 + n..]);
        Received([s[2..2 + n]] + rest.messages, rest.ending)
  }

  predicate Fits(m: Message) {
    1 <= |m| < 0x1_0000
  }

  predicate AllFit(ms: seq<Message>) {
    ms == [] || (Fits(ms[0]) && AllFit(ms[1..]))
  }

  lemma FrameParts(m: Message, tail: seq<byte>)
    ensures var s := Frame(m) + tail; |s| == 2 + |m| + |tail| && U16At(s, 0) == Cut16(|m|)
    ensures (Frame(m) + tail)[2..2 + |m|] == m && (Frame(m) + tail)[2 + |m|..] == tail
  {
    var s := Frame(m) + tail;
    assert s[0] == Be16(Cut16(|m|))[0] && s[1] == Be16(Cut16(|m|))[1];
  }

  /** A frame that fits is taken off the front of any stream. */
  lemma UnframeFront(m: Message, tail: seq<byte>)
    requires Fits(m)
    ensures Unframe(Frame(m) + tail) == Received([m] + Unframe(tail).messages, Unframe(tail).ending)
  {
    FrameParts(m, tail);
  }

  /** Whatever comes after, the framed messages are received first, and whole. */
  lemma {:induction false} UnframeFrames(ms: seq<Message>, tail: seq<byte>)
    requires AllFit(ms)
    ensures Unframe(Frames(ms) + tail) == Received(ms + Unframe(tail).messages, Unframe(tail).ending)
    decreases |ms|
  {
    hide Frame, Unframe;
    if ms == [] {
      assert Frames(ms) + tail == tail && ms + Unframe(tail).messages == Unframe(tail).messages;
    } else {
      UnframeFrames(ms[1..], tail);
      UnframeFront(ms[0], Frames(ms[1..]) + tail);
      assert Frames(ms) + tail == Frame(ms[0]) + (Frames(ms[1..]) + tail);
      assert [ms[0]] + (ms[1..] + Unframe(tail).messages) == ms + Unframe(tail).messages;
    }
  }

  /** How reading ends behind whole frames: with less than a length left, with a length of
      zero, or with less of a message than its length says. */
  lemma EndsExactly(ms: seq<Message>, tail: seq<byte>)
    requires AllFit(ms)
    requires |tail| >= 2 ==>
               var n := tail[0] as int * 256 + tail[1] as int; n == 0 || |tail| - 2 < n
    ensures Unframe(Frames(ms) + tail)
         == Received(ms, if |tail| < 2 then Closed
                         else if tail[0] == 0 && tail[1] == 0 then ZeroLength
                         else Truncated)
  {
    hide Frames, AllFit;
    UnframeFrames(ms, tail);
    assert ms + [] == ms;
  }

  /** A message that does not fit is not the first that is received. */
  lemma MisfitIsLost(m: Message, tail: seq<byte>)
    requires !Fits(m)
    ensures var r := Unframe(Frame(m) + tail); r.messages == [] || r.messages[0] != m
  {
    FrameParts(m, tail);
  }

  /** A list of messages is received as it was sent exactly when all of them have between 1
      and 65535 octets. */
  lemma {:induction false} ReceivedExactly(ms: seq<Message>)
    ensures Unframe(Frames(ms)) == Received(ms, Closed) <==> AllFit(ms)
    decreases |ms|
  {
    hide Frame, Unframe;
    if ms == [] {
      assert Unframe([]) == Received([], Closed) by { NothingReceived(); }
    } else if Fits(ms[0]) {
      ReceivedExactly(ms[1..]);
      UnframeFront(ms[0], Frames(ms[1..]));
      assert ms == [ms[0]] + ms[1..];
      assert ([ms[0]] + Unframe(Frames(ms[1..])).messages)[1..] == Unframe(Frames(ms[1..])).messages;
    } else {
      MisfitIsLost(ms[0], Frames(ms[1..]));
    }
  }

  /** The messages before the first that does not fit. */
  function FitFront(ms: seq<Message>): (front: seq<Message>)
    ensures front <= ms && AllFit(front)
  {
    if ms != [] && Fits(ms[0]) then [ms[0]] + FitFront(ms[1..]) else []
  }

  /** Whatever becomes of the others, these are received first. */
  lemma {:induction false} FitFrontIsReceived(ms: seq<Message>)
    ensures FitFront(ms) <= Unframe(Frames(ms)).messages
  {
    hide Frame, Unframe, Fits;
    if ms != [] && Fits(ms[0]) {
      FitFrontIsReceived(ms[1..]);
      UnframeFront(ms[0], Frames(ms[1..]));
    }
  }

  lemma NothingReceived()
    ensures Unframe([]) == Received([], Closed)
  {
  }
}
