/** The two request handlers over one filter, cache and list of upstreams: the datagram
    handler and the connection handler. */
module Service {
  import opened Bytes
  import opened Packets
  import opened Framing
  import opened Forwarder
  import Headers
  import C = Cache
  import Engine

  /** `nxdomain` */
  const NXDOMAIN_MODE: Text := [110, 120, 100, 111, 109, 97, 105, 110]
  /** `zero_ip` */
  const ZERO_IP_MODE: Text := [122, 101, 114, 111, 95, 105, 112]

  /** The block modes that the configuration takes, in any spelling. */
  predicate AcceptedMode(mode: Text) {
    Lower(mode) == NXDOMAIN_MODE || Lower(mode) == ZERO_IP_MODE
  }

  /** The handlers compare the mode as it was spelt. */
  predicate UsesNxdomain(mode: Text) {
    mode == NXDOMAIN_MODE
  }

  datatype Policy = Policy(filter: Engine.Filter, useNxdomain: bool)

  /** What one request meets: the clock readings of its lookup and of its insert, and what
      asking each upstream would give. */
  datatype World = World(checked: nat, aged: nat, stored: nat, attempts: seq<Attempt>)

  /** How far a query gets before the upstreams. */
  datatype Front = Dropped | Aborted | BlockedQuery(packet: Packet) | Admitted(packet: Packet)

  function Admit(policy: Policy, query: Message): Front {
    match Decode(query)
    case Panicked => Aborted
    case Err(_) => Dropped
    case Ok(p) =>
      if p.questions == [] then Dropped
      else if Engine.Evaluate(policy.filter, p.questions[0].name).Blocked? then BlockedQuery(p)
      else Admitted(p)
  }

  function LookupFor(c: C.Cache, p: Packet, w: World): (C.Cache, Option<Packet>)
    requires p.questions != []
  {
    C.Get(c, p.questions[0].name, p.questions[0].qtype, w.checked, w.aged)
  }

  function InsertFor(c: C.Cache, p: Packet, reply: Packet, w: World): C.Cache
    requires p.questions != [] && c.minTtl <= c.maxTtl
  {
    C.Insert(c, p.questions[0].name, p.questions[0].qtype, reply, w.stored)
  }

  function ServFail(p: Packet): Packet {
    p.(header := p.header.(isResponse := true, rcode := Headers.ServFail))
  }

  /** The datagram handler: the new cache, and the reply if there is one. */
  function Udp(policy: Policy, c: C.Cache, query: Message, w: World): (r: (C.Cache, Option<Message>))
    requires c.minTtl <= c.maxTtl
    ensures r.0.minTtl == c.minTtl && r.0.maxTtl == c.maxTtl
  {
    match Admit(policy, query)
    case Dropped => (c, None)
    case Aborted => (c, None)
    case BlockedQuery(p) => (c, Some(Encode(Blocked(p, policy.useNxdomain))))
    case Admitted(p) =>
      var (c', hit) := LookupFor(c, p, w);
      if hit.Some? then (c', Some(Encode(hit.value)))
      else
        match Forward(w.attempts)
        case Failed(_) => (c', None)
        case Replied(reply) =>
          match Decode(reply)
          case Panicked => (c', None)
          case Err(_) => (c', Some(reply))
          case Ok(r) => (InsertFor(c', p, r, w), Some(reply))
  }

  /** The connection handler for one message: the new cache, the reply that is framed, and
      whether the connection goes on. */
  datatype Served = Served(cache: C.Cache, reply: Option<Message>, alive: bool)

  function Tcp(policy: Policy, c: C.Cache, query: Message, w: World): (r: Served)
    requires c.minTtl <= c.maxTtl
    ensures r.cache.minTtl == c.minTtl && r.cache.maxTtl == c.maxTtl
  {
    match Admit(policy, query)
    case Dropped => Served(c, None, true)
    case Aborted => Served(c, None, false)
    case BlockedQuery(p) => Served(c, Some(Encode(Blocked(p, policy.useNxdomain))), true)
    case Admitted(p) =>
      var (c', hit) := LookupFor(c, p, w);
      if hit.Some? then Served(c', Some(Encode(hit.value)), true)
      else
        match Forward(w.attempts)
        case Failed(_) => Served(c', Some(Encode(ServFail(p))), true)
        case Replied(reply) =>
          match Decode(reply)
          case Panicked => Served(c', Some(reply), false)
          case Err(_) => Served(c', Some(reply), true)
          case Ok(r) => Served(InsertFor(c', p, r, w), Some(reply), true)
  }

  function FrameOf(reply: Option<Message>): seq<byte> {
    match reply
    case None => []
    case Some(m) => Frame(m)
  }

  /** A connection over its messages: what is written, and the final cache. */
  function Connection(policy: Policy, c: C.Cache, queries: seq<Message>, ws: seq<World>): (C.Cache, seq<byte>)
    requires c.minTtl <= c.maxTtl && |ws| == |queries|
    decreases |queries|
  {
    if queries == [] then (c, [])
    else
      var s := Tcp(policy, c, queries[0], ws[0]);
      if !s.alive then (s.cache, FrameOf(s.reply))
      else
        var (c', out) := Connection(policy, s.cache, queries[1..], ws[1..]);
        (c', FrameOf(s.reply) + out)
  }

  /** A two-way byte stream: what the peer has sent, and what was written to it. */
  class Stream {
    const input: seq<byte>
    var read: nat
    var output: seq<byte>

    ghost predicate Valid()
      reads this
    {
      read <= |input|
    }

    constructor (input: seq<byte>)
      ensures Valid() && this.input == input && read == 0 && output == []
    {
      this.input := input;
      read := 0;
      output := [];
    }

    method ReadExact(n: nat) returns (r: Option<seq<byte>>)
      requires Valid()
      modifies this`read
      ensures Valid()
      ensures r.Some? <==> old(read) + n <= |input|
      ensures r.Some? ==> read == old(read) + n && r.value == input[old(read)..read]
    {
      if read + n > |input| {
        return None;
      }
      r := Some(input[read..read + n]);
      read := read + n;
    }

    method WriteFramed(m: Message)
      requires Valid()
      modifies this`output
      ensures output == old(output) + Frame(m)
    {
      output := output + Be16(Cut16(|m|));
      output := output + m;
    }
  }

  class DnsService {
    const cache: C.DnsCache
    const filter: Engine.FilterEngine
    const blockMode: Text

    constructor (cache: C.DnsCache, filter: Engine.FilterEngine, blockMode: Text)
      ensures this.cache == cache && this.filter == filter && this.blockMode == blockMode
    {
      this.cache := cache;
      this.filter := filter;
      this.blockMode := blockMode;
    }

    function PolicyNow(): Policy
      reads filter.allowlist, filter.blocklist
    {
      Policy(filter.View(), UsesNxdomain(blockMode))
    }

    ghost predicate Valid()
      reads cache, cache.cache
    {
      C.Valid(cache.View())
    }

    method ResolveDnsQuery(query: Message, w: World) returns (reply: Option<Message>)
      requires Valid()
      modifies cache, cache.cache
      ensures Valid() && (cache.View(), reply) == Udp(PolicyNow(), old(cache.View()), query, w)
    {
      hide Encode, Decode, C.Get, C.Insert, Forward, Engine.Evaluate, Blocked;
      var parsed := Packets.Parse(query);
      if !parsed.Ok? {
        return None;
      }
      var packet := parsed.value;
      if packet.questions == [] {
        return None;
      }
      var question := packet.questions[0];
      var verdict := filter.Decide(question.name);
      if verdict.Blocked? {
        var response := BuildBlockedResponse(packet, UsesNxdomain(blockMode));
        var bytes := ToBytes(response);
        return Some(bytes);
      }
      var hit := cache.Lookup(question.name, question.qtype, w.checked, w.aged);
      if hit.Some? {
        var bytes := ToBytes(hit.value);
        return Some(bytes);
      }
      var forwarded := ForwardRaw(w.attempts);
      if forwarded.Failed? {
        return None;
      }
      var response := Packets.Parse(forwarded.octets);
      if response.Panicked? {
        return None;
      }
      if response.Ok? {
        cache.Store(question.name, question.qtype, response.value, w.stored);
      }
      return Some(forwarded.octets);
    }

    /** One message of a connection; the result says whether the connection goes on. */
    method ServeMessage(query: Message, w: World, stream: Stream) returns (alive: bool)
      requires Valid() && stream.Valid()
      modifies cache, cache.cache, stream`output
      ensures Valid() && stream.Valid()
      ensures var s := Tcp(PolicyNow(), old(cache.View()), query, w);
        cache.View() == s.cache && alive == s.alive && stream.output == old(stream.output) + FrameOf(s.reply)
    {
      hide Encode, Decode, C.Get, C.Insert, Forward, Engine.Evaluate, Blocked, Frame;
      var parsed := Packets.Parse(query);
      if !parsed.Ok? {
        return parsed.Err?;
      }
      var packet := parsed.value;
      if packet.questions == [] {
        return true;
      }
      var question := packet.questions[0];
      var verdict := filter.Decide(question.name);
      if verdict.Blocked? {
        var response := BuildBlockedResponse(packet, UsesNxdomain(blockMode));
        var bytes := ToBytes(response);
        stream.WriteFramed(bytes);
        return true;
      }
      var hit := cache.Lookup(question.name, question.qtype, w.checked, w.aged);
      if hit.Some? {
        var bytes := ToBytes(hit.value);
        stream.WriteFramed(bytes);
        return true;
      }
      var forwarded := ForwardRaw(w.attempts);
      if forwarded.Failed? {
        var fail := packet;
        fail := fail.(header := fail.header.(isResponse := true));
        fail := fail.(header := fail.header.(rcode := Headers.ServFail));
        var bytes := ToBytes(fail);
        stream.WriteFramed(bytes);
        return true;
      }
      stream.WriteFramed(forwarded.octets);
      var response := Packets.Parse(forwarded.octets);
      if response.Panicked? {
        return false;
      }
      if response.Ok? {
        cache.Store(question.name, question.qtype, response.value, w.stored);
      }
      return true;
    }

    /** A whole connection: frames are read and served until the stream ends, a length is
        zero, a message is cut off, or the task is aborted. */
    method ServeTcpDns(stream: Stream, ws: seq<World>)
      requires Valid() && stream.Valid() && stream.read == 0 && stream.output == []
      requires |ws| == |Unframe(stream.input).messages|
      modifies cache, cache.cache, stream
      ensures Valid()
      ensures (cache.View(), stream.output)
           == Connection(PolicyNow(), old(cache.View()), Unframe(stream.input).messages, ws)
    {
      hide Tcp, FrameOf, Unframe, Frame;
      ghost var policy := PolicyNow();
      ghost var goal := Connection(policy, cache.View(), Unframe(stream.input).messages, ws);
      var k := 0;
      assert stream.input[0..] == stream.input;
      var query := ReadQuery(stream);
      while query.Some?
        invariant Valid() && stream.Valid() && PolicyNow() == policy && k <= |ws|
        invariant var left := Waiting(query, stream);
          && |left| == |ws| - k
          && Connection(policy, cache.View(), left, ws[k..]).0 == goal.0
          && stream.output + Connection(policy, cache.View(), left, ws[k..]).1 == goal.1
        decreases |ws| - k
      {
        ghost var left := Waiting(query, stream);
        assert left[0] == query.value && ws[k..][0] == ws[k] && ws[k..][1..] == ws[k + 1..];
        var alive := ServeMessage(query.value, ws[k], stream);
        k := k + 1;
        if !alive {
          assert (cache.View(), stream.output) == goal;
          return;
        }
        query := ReadQuery(stream);
        assert Waiting(query, stream) == left[1..];
      }
      assert ws[k..] == [] && stream.output + [] == stream.output;
    }
  }

  /** The messages still to be served when `query` has been read. */
  ghost function Waiting(query: Option<Message>, stream: Stream): seq<Message>
    requires stream.Valid()
    reads stream
  {
    match query
    case None => []
    case Some(m) => [m] + Unframe(stream.input[stream.read..]).messages
  }

  /** Reads one length and one message, if both are there. */
  method ReadQuery(stream: Stream) returns (query: Option<Message>)
    requires stream.Valid()
    modifies stream`read
    ensures stream.Valid()
    ensures Waiting(query, stream) == Unframe(stream.input[old(stream.read)..]).messages
  {
    hide U16At;
    ghost var rest := stream.input[stream.read..];
    var lengthOctets := stream.ReadExact(2);
    if lengthOctets.None? {
      return None;
    }
    var len := U16At(lengthOctets.value, 0);
    assert len == U16At(rest, 0) by { SameLength(lengthOctets.value, rest); }
    if len == 0 {
      return None;
    }
    query := stream.ReadExact(len);
    if query.Some? {
      assert query.value == rest[2..2 + len] && stream.input[stream.read..] == rest[2 + len..];
    }
  }

  lemma SameLength(octets: seq<byte>, s: seq<byte>)
    requires |octets| == 2 && |s| >= 2 && octets == s[..2]
    ensures U16At(octets, 0) == U16At(s, 0)
  {
  }
}
