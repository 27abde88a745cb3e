/** Forwarding to peers: the in-place stamp, and what the other node reads of it. */
module Mesh {
  import opened Bytes
  import opened Frames
  import Topics
  import opened Fifo
  import opened Publishing
  import opened Routing

  // ---- Forward ------------------------------------------------------------------------------------------------

  /** A peer as a snapshot sees it: whether it has a stream, and whether a write to it goes through. */
  datatype Peer = Peer(node: nat, connected: bool, writable: bool)

  datatype Packet = Packet(src: nat, dst: nat, bytes: seq<byte>)

  /** The bytes with the forwarded bit set. */
  function Stamped(buf: seq<byte>): (s: seq<byte>)
    ensures |s| == |buf|
    ensures |buf| > 1 ==> IsForwarded(s[1]) && OpcodeOf(s[1]) == OpcodeOf(buf[1])
  {
    if |buf| < 2 then buf else buf[1 := SetForwarded(buf[1])]
  }

  /** The peers a write reaches. */
  function Reached(peers: seq<Peer>): seq<nat>
  {
    if peers == [] then []
    else
      var init, p := Reached(peers[..|peers| - 1]), peers[|peers| - 1];
      if p.connected && p.writable then init + [p.node] else init
  }

  /** The places of the peers that have a stream a write goes through on. */
  ghost function Up(peers: seq<Peer>): set<nat> { set i: nat | i < |peers| && peers[i].connected && peers[i].writable }

  lemma UpSnoc(peers: seq<Peer>, n: nat)
    requires n < |peers|
    ensures |Up(peers[..n + 1])| == |Up(peers[..n])| + if peers[n].connected && peers[n].writable then 1 else 0
    ensures n in Up(peers[..n + 1]) <==> peers[n].connected && peers[n].writable
    ensures forall i: nat :: i < n ==> (i in Up(peers[..n]) <==> i in Up(peers[..n + 1]))
  {
    var a, b := Up(peers[..n]), Up(peers[..n + 1]);
    assert b == if peers[n].connected && peers[n].writable then a + {n} else a;
  }

  /** Each reachable peer is there once, in the order of the peers, and nobody else is. */
  lemma {:induction false} ReachedIs(peers: seq<Peer>)
    ensures |Reached(peers)| == |Up(peers)|
    ensures forall i :: i in Up(peers) ==> |Up(peers[..i])| < |Reached(peers)| && Reached(peers)[|Up(peers[..i])|] == peers[i].node
  {
    if peers == [] {
      assert Up(peers) == {};
    } else {
      var n := |peers| - 1;
      var init := peers[..n];
      assert peers[..n + 1] == peers;
      ReachedIs(init);
      UpSnoc(peers, n);
      forall i | i in Up(peers)
        ensures |Up(peers[..i])| < |Reached(peers)| && Reached(peers)[|Up(peers[..i])|] == peers[i].node
      {
        if i < n {
          assert i in Up(init) && init[..i] == peers[..i];
        }
      }
    }
  }

  /** One packet with the same bytes to each node. */
  function Packets(src: nat, nodes: seq<nat>, bytes: seq<byte>): (r: seq<Packet>)
    ensures |r| == |nodes| && forall i :: 0 <= i < |nodes| ==> r[i] == Packet(src, nodes[i], bytes)
  {
    if nodes == [] then [] else Packets(src, nodes[..|nodes| - 1], bytes) + [Packet(src, nodes[|nodes| - 1], bytes)]
  }

  /** Forward: the bit is set in the caller's buffer for the write and taken back after it, peer by peer. Every peer
      that can be written to gets the stamped frame once, in order, nobody else does, and the buffer is as it was. */
  method Forward(src: nat, rawBuf: array<byte>, addForwardedBit: bool, peers: seq<Peer>) returns (sent: seq<Packet>)
    modifies rawBuf
    ensures rawBuf[..] == old(rawBuf[..])
    ensures rawBuf.Length < HEADER_SIZE ==> sent == []
    ensures rawBuf.Length >= HEADER_SIZE ==>
      sent == Packets(src, Reached(peers), if addForwardedBit then Stamped(old(rawBuf[..])) else old(rawBuf[..]))
    ensures rawBuf.Length >= HEADER_SIZE ==>
      && |sent| == |Up(peers)|
      && forall i :: i in Up(peers) ==>
        && |Up(peers[..i])| < |sent|
        && sent[|Up(peers[..i])|]
           == Packet(src, peers[i].node, if addForwardedBit then Stamped(old(rawBuf[..])) else old(rawBuf[..]))
  {
    ReachedIs(peers);
    sent := [];
    if rawBuf.Length < HEADER_SIZE {
      return;
    }
    assert peers[..0] == [];
    for i := 0 to |peers|
      invariant rawBuf[..] == old(rawBuf[..])
      invariant sent == Packets(src, Reached(peers[..i]),
                                if addForwardedBit then Stamped(old(rawBuf[..])) else old(rawBuf[..]))
    {
      assert peers[..i + 1][..i] == peers[..i];
      var p := peers[i];
      if !p.connected {
        continue;
      }
      if addForwardedBit {
        var orig := rawBuf[1];
        rawBuf[1] := SetForwarded(orig);
        assert rawBuf[..] == Stamped(old(rawBuf[..]));
        if p.writable {
          sent := sent + [Packet(src, p.node, rawBuf[..])];
        }
        rawBuf[1] := orig;
        assert rawBuf[..] == old(rawBuf[..]);
      } else {
        if p.writable {
          sent := sent + [Packet(src, p.node, rawBuf[..])];
        }
      }
    }
    assert peers[..|peers|] == peers;
  }

  // ---- What the other side reads ------------------------------------------------------------------------------

  /** The frame a publish is forwarded as, as the receiver parses it. */
  function Relayed(f: Frame): Frame
  {
    Frame(SetForwarded(if f.HasExtensions() then SetExtensionsBit(CMD_PUBLISH) else CMD_PUBLISH), 0, TopicOf(f), f.extensions)
  }

  lemma StampedWire(cmd: byte, ext: seq<byte>, payload: seq<byte>)
    ensures Stamped(Wire(cmd, 0, ext, payload)) == Wire(SetForwarded(cmd), 0, ext, payload)
  {
    hide LE;
    var w, v := Wire(cmd, 0, ext, payload), Wire(SetForwarded(cmd), 0, ext, payload);
    assert w[1] == cmd;
    var n := |ext| + |payload|;
    assert Header(cmd, 0, n)[1 := SetForwarded(cmd)] == Header(SetForwarded(cmd), 0, n);
  }

  /** A frame parsed off a client stream is forwarded as bytes every peer parses, to a frame that carries the forwarded
      bit, the publish opcode, the same extensions and the topic the origin published to. */
  lemma ForwardedParses(f: Frame)
    requires Carriable(f) && (f.extensions != [] <==> HasExtensionsBit(f.command))
    ensures ParseFrame(Stamped(LocalFrame(f))) == Ok(Relayed(f))
    ensures IsForwarded(Relayed(f).command) && OpcodeOf(Relayed(f).command) == CMD_PUBLISH
    ensures LevelOf(Relayed(f)) == LevelOf(f)
  {
    hide ParseFrame, Wire, TopicOf;
    StampedWire(if f.HasExtensions() then SetExtensionsBit(CMD_PUBLISH) else CMD_PUBLISH, f.extensions, TopicOf(f));
    TopicShorter(f);
    ParseWire(Relayed(f), []);
    assert WireOf(Relayed(f)) + [] == WireOf(Relayed(f));
  }

  /** Subscribers on the other node receive the same bytes as those at the origin exactly when the published topic is
      settled; those bytes never carry the forwarded bit. */
  lemma RemoteSeesIff(f: Frame)
    ensures LocalFrame(Relayed(f)) == LocalFrame(f) <==> Topics.Settled(TopicOf(f))
    ensures !IsForwarded(LocalFrame(f)[1]) && !IsForwarded(LocalFrame(Relayed(f))[1])
  {
    hide LE, Topics.ParsePublishTopic;
    Topics.SettledIff(TopicOf(f));
    assert TopicOf(Relayed(f)) == Topics.ParsePublishTopic(TopicOf(f)).1;
    var cmd := if f.HasExtensions() then SetExtensionsBit(CMD_PUBLISH) else CMD_PUBLISH;
    WirePayload(cmd, f.extensions, TopicOf(Relayed(f)), TopicOf(f));
  }

  /** The TTL a peer finds: what is still there on the topic the origin published to. */
  function RemoteTTL(f: Frame): (ttl: Option<int>)
    ensures Topics.Settled(TopicOf(f)) ==> ttl.None?
  {
    Topics.ParsePublishTopic(TopicOf(f)).0
  }

  /** A message expires at the same time on both nodes, whose clocks agree, exactly when its priority sets the expiry, or
      the peer finds the TTL that was in the payload, or a TTL that only one of them finds comes to no expiry at all. */
  lemma RemoteExpiryIff(c: Config, f: Frame, now: int)
    ensures ExpiryOf(c, Relayed(f), now) == ExpiryOf(c, f, now) <==>
      || HasPriorityTTL(c, f)
      || PayloadTTL(f) == RemoteTTL(f)
      || (PayloadTTL(f).Some? && RemoteTTL(f).None? && now + 1_000_000 * PayloadTTL(f).value == 0)
      || (PayloadTTL(f).None? && RemoteTTL(f).Some? && now + 1_000_000 * RemoteTTL(f).value == 0)
  {
    hide Topics.ParsePublishTopic;
    assert LevelOf(Relayed(f)) == LevelOf(f);
  }

  /** An input: "ttl:5:x" expires five milliseconds after its publish at the origin, and never at a peer. */
  lemma LostTTLCase(now: int)
    requires now > 0
    ensures var f, c := Frame(CMD_PUBLISH, 0, Topics.TTL_PREFIX + [0x35] + [Topics.COLON] + [0x78], []), Config(1, DropOldest, []);
      TopicOf(f) == [0x78] && ExpiryOf(c, f, now) == now + 5_000_000 && ExpiryOf(c, Relayed(f), now) == 0
  {
    hide Topics.ParseInt;
    var ms: Text, x: Text := [0x35], [0x78];
    DigitParses(0x35);
    Topics.TTLStripped(ms, x);
    assert !Topics.HasPrefix(x, Topics.TOPIC_PREFIX) && !Topics.HasPrefix(x, Topics.TTL_PREFIX);
  }

  /** An input: of "ttl:5:ttl:7:x" the origin reads five milliseconds and a peer seven, and each another topic. */
  lemma SecondTTLCase()
    ensures var f := Frame(CMD_PUBLISH, 0, Topics.TTL_PREFIX + [0x35] + [Topics.COLON] + (Topics.TTL_PREFIX + [0x37] + [Topics.COLON] + [0x78]), []);
      PayloadTTL(f) == Some(5) && RemoteTTL(f) == Some(7) && TopicOf(Relayed(f)) == [0x78]
  {
    hide Topics.ParseInt;
    var x: Text := [0x78];
    var inner := Topics.TTL_PREFIX + [0x37] + [Topics.COLON] + x;
    DigitParses(0x35);
    DigitParses(0x37);
    Topics.TTLStripped([0x35], inner);
    Topics.TTLStripped([0x37], x);
    assert inner[1] != Topics.TOPIC_PREFIX[1];
    assert !Topics.HasPrefix(inner, Topics.TOPIC_PREFIX) by { assert inner[..6][1] == inner[1]; }
    assert !Topics.HasPrefix(x, Topics.TOPIC_PREFIX);
  }

  lemma DigitParses(d: byte)
    requires Topics.IsDigit(d)
    ensures Topics.ParseInt([d]) == Some(d as int - 0x30)
  {
    var s: Text := [d];
    assert s[..0] == [];
    assert Topics.DigitsValue(s) == 10 * Topics.DigitsValue(s[..0]) + d as int - 0x30;
  }

  lemma WirePayload(cmd: byte, ext: seq<byte>, p: seq<byte>, q: seq<byte>)
    ensures Wire(cmd, 0, ext, p) == Wire(cmd, 0, ext, q) <==> p == q
    ensures Wire(cmd, 0, ext, p)[1] == cmd
  {
    hide LE;
    var w, v := Wire(cmd, 0, ext, p), Wire(cmd, 0, ext, q);
    if w == v {
      assert w[HEADER_SIZE + |ext|..] == p && v[HEADER_SIZE + |ext|..] == q;
    }
  }

  /** A topic that is not settled reaches the two nodes under different names. */
  lemma UnsettledTopic()
    ensures var f := Frame(CMD_PUBLISH, 0, Topics.TOPIC_PREFIX + Topics.TOPIC_PREFIX + [0x78], []);
      TopicOf(f) == Topics.TOPIC_PREFIX + [0x78] && TopicOf(Relayed(f)) == [0x78]
  {
    var x := Topics.TOPIC_PREFIX + [0x78];
    var p := Topics.TOPIC_PREFIX + Topics.TOPIC_PREFIX + [0x78];
    assert p == Topics.TOPIC_PREFIX + x;
    assert p[1] != Topics.TTL_PREFIX[1] && x[1] != Topics.TTL_PREFIX[1];
    assert !Topics.HasPrefix(p, Topics.TTL_PREFIX) by { if |p| >= 4 { assert p[..4][1] == p[1]; } }
    assert !Topics.HasPrefix(x, Topics.TTL_PREFIX) by { if |x| >= 4 { assert x[..4][1] == x[1]; } }
    assert p[6..] == x && x[6..] == [0x78];
  }
}
