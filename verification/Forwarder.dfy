/** Forwarding a query along the list of upstream resolvers: the first success wins. */
module Forwarder {
  import opened Bytes
  import opened Wire
  import opened Framing

  /** What the network made of one attempt: a datagram, an error, or the octets that a TCP
      peer sent before it closed. */
  datatype Attempt = Datagram(octets: Message) | NetworkError(code: nat) | TcpStream(octets: seq<byte>)

  datatype Reply = Replied(octets: Message) | Failed(error: DnsError)

  /** The octets that are sent on a TCP connection. */
  function TcpRequest(query: Message): seq<byte> {
    Frame(query)
  }

  /** The buffer that a datagram is received in; what does not fit is lost. */
  const RECEIVE_BUFFER: nat := 65535

  function Buffered(datagram: Message): Message {
    if |datagram| <= RECEIVE_BUFFER then datagram else datagram[..RECEIVE_BUFFER]
  }

  /** One length and one message are read; a zero length is an error. */
  function ReadTcp(stream: seq<byte>): Reply {
    if |stream| < 2 then Failed(ParseError(Network(0)))
    else
      var n := U16At(stream, 0);
      if n == 0 then Failed(ParseError(BadLength))
      else if |stream| < 2 + n then Failed(ParseError(Network(0)))
      else Replied(stream[2..2 + n])
  }

  function Result(a: Attempt): Reply {
    match a
    case Datagram(octets) => Replied(Buffered(octets))
    case NetworkError(code) => Failed(ParseError(Network(code)))
    case TcpStream(octets) => ReadTcp(octets)
  }

  function FirstSuccess(attempts: seq<Attempt>, lastError: DnsError): Reply {
    if attempts == [] then Failed(lastError)
    else
      match Result(attempts[0])
      case Replied(octets) => Replied(octets)
      case Failed(e) => FirstSuccess(attempts[1..], e)
  }

  function Forward(attempts: seq<Attempt>): Reply {
    if attempts == [] then Failed(ParseError(NoneConfigured))
    else FirstSuccess(attempts, ParseError(NoneAttempted))
  }

  /** The loop over the upstreams, `attempts` being what asking each of them would give. */
  method ForwardRaw(attempts: seq<Attempt>) returns (r: Reply)
    ensures r == Forward(attempts)
  {
    if attempts == [] {
      return Failed(ParseError(NoneConfigured));
    }
    var lastError := ParseError(NoneAttempted);
    for i := 0 to |attempts|
      invariant FirstSuccess(attempts[i..], lastError) == FirstSuccess(attempts, ParseError(NoneAttempted))
    {
      assert attempts[i..][0] == attempts[i] && attempts[i..][1..] == attempts[i + 1..];
      match Result(attempts[i]) {
        case Replied(octets) => return Replied(octets);
        case Failed(e) => lastError := e;
      }
    }
    return Failed(lastError);
  }

  lemma {:induction false} FirstSuccessExactly(attempts: seq<Attempt>, lastError: DnsError)
    ensures FirstSuccess(attempts, lastError).Failed? <==> forall i | 0 <= i < |attempts| :: Result(attempts[i]).Failed?
    ensures FirstSuccess(attempts, lastError).Failed? ==>
              FirstSuccess(attempts, lastError)
              == if attempts == [] then Failed(lastError) else Result(attempts[|attempts| - 1])
    ensures FirstSuccess(attempts, lastError).Replied? ==>
              exists i | 0 <= i < |attempts| ::
                && FirstSuccess(attempts, lastError) == Result(attempts[i])
                && forall j | 0 <= j < i :: Result(attempts[j]).Failed?
  {
    hide Result;
    if attempts != [] {
      var rest := attempts[1..];
      assert forall i | 0 <= i < |rest| :: rest[i] == attempts[i + 1];
      if Result(attempts[0]).Failed? {
        var e := Result(attempts[0]).error;
        FirstSuccessExactly(rest, e);
        if FirstSuccess(rest, e).Replied? {
          var i :| 0 <= i < |rest| && FirstSuccess(rest, e) == Result(rest[i])
                   && forall j | 0 <= j < i :: Result(rest[j]).Failed?;
          assert FirstSuccess(attempts, lastError) == Result(attempts[i + 1]);
          assert forall j | 1 <= j < i + 1 :: attempts[j] == rest[j - 1];
        } else {
          assert forall i | 1 <= i < |attempts| :: attempts[i] == rest[i - 1];
        }
      }
    }
  }

  /** Forwarding fails exactly when every upstream fails, then with the error of the last
      one; otherwise it returns the reply of the first one that gives any. */
  lemma ForwardExactly(attempts: seq<Attempt>)
    ensures Forward(attempts).Failed? <==> forall i | 0 <= i < |attempts| :: Result(attempts[i]).Failed?
    ensures Forward(attempts).Failed? && attempts != [] ==> Forward(attempts) == Result(attempts[|attempts| - 1])
    ensures Forward(attempts).Replied? ==>
              exists i | 0 <= i < |attempts| ::
                Forward(attempts) == Result(attempts[i]) && forall j | 0 <= j < i :: Result(attempts[j]).Failed?
  {
    hide Result;
    FirstSuccessExactly(attempts, ParseError(NoneAttempted));
  }

  /** What one upstream gives: a datagram as it is, or its first 65535 octets; the message
      behind the length that a TCP peer sends, if that is not zero and all of it comes. */
  lemma ResultExactly(a: Attempt)
    ensures a.Datagram? && |a.octets| <= 65535 ==> Result(a) == Replied(a.octets)
    ensures a.Datagram? && |a.octets| > 65535 ==> Result(a) == Replied(a.octets[..65535])
    ensures a.NetworkError? ==> Result(a) == Failed(ParseError(Network(a.code)))
    ensures a.TcpStream? && |a.octets| < 2 ==> Result(a).Failed?
    ensures a.TcpStream? && |a.octets| >= 2 ==>
              var n := a.octets[0] as int * 256 + a.octets[1] as int;
              if n == 0 then Result(a) == Failed(ParseError(BadLength))
              else if 2 + n <= |a.octets| then Result(a) == Replied(a.octets[2..2 + n])
              else Result(a).Failed?
  {
  }

  /** Without upstreams, that is the error. */
  lemma NoUpstream()
    ensures Forward([]) == Failed(ParseError(NoneConfigured))
  {
  }

  /** The first upstream that does not fail sends an empty datagram. */
  ghost predicate EmptyFirst(attempts: seq<Attempt>) {
    exists i | 0 <= i < |attempts| ::
      attempts[i] == Datagram([]) && forall j | 0 <= j < i :: Result(attempts[j]).Failed?
  }

  lemma ResultSize(a: Attempt)
    requires Result(a).Replied?
    ensures |Result(a).octets| < 0x1_0000 && (Result(a).octets == [] <==> a == Datagram([]))
  {
  }

  /** The reply that is passed on has between 1 and 65535 octets, unless it is an empty datagram. */
  lemma ForwardFitsExactly(attempts: seq<Attempt>)
    requires Forward(attempts).Replied?
    ensures Fits(Forward(attempts).octets) <==> !EmptyFirst(attempts)
  {
    hide Result, Forward;
    ForwardExactly(attempts);
    var i :| 0 <= i < |attempts| && Forward(attempts) == Result(attempts[i])
             && forall j | 0 <= j < i :: Result(attempts[j]).Failed?;
    ResultSize(attempts[i]);
    forall k | 0 <= k < |attempts| && attempts[k] == Datagram([]) && forall j | 0 <= j < k :: Result(attempts[j]).Failed?
      ensures k == i
    {
      assert !Result(attempts[k]).Failed? by { EmptyIsReply(); }
    }
  }

  lemma EmptyIsReply()
    ensures Result(Datagram([])) == Replied([])
  {
  }

  /** An upstream reads the query that was sent to it over TCP, and nothing else, exactly
      when the query has between 1 and 65535 octets. */
  lemma TcpRequestIsRead(query: Message)
    ensures Unframe(TcpRequest(query)) == Received([query], Closed) <==> Fits(query)
  {
    hide Frame, Unframe, Fits;
    ReceivedExactly([query]);
    assert [query][1..] == [] && Frames([query]) == Frame(query) + Frames([]);
    assert Frame(query) + [] == Frame(query);
  }

  /** A TCP upstream that answers in frames is read back, whatever else it sends, exactly
      when its reply has between 1 and 65535 octets. */
  lemma TcpReplyIsRead(m: Message, tail: seq<byte>)
    ensures ReadTcp(Frame(m) + tail) == Replied(m) <==> Fits(m)
  {
    FrameParts(m, tail);
  }
}
