/** Runs of a mesh: clients hand frames to nodes, nodes forward, packets arrive in any order. */
module MeshRuns {
  import opened Bytes
  import opened Frames
  import opened Publishing
  import opened Routing
  import opened Mesh

  /** A frame given to a node's own subscribers. */
  datatype Shown = Shown(node: nat, bytes: seq<byte>)

  datatype World = World(wire: seq<Packet>, shown: seq<Shown>)

  const QUIET: World := World([], [])

  /** The peer snapshot is chosen afresh at every step: peers come and go. */
  datatype Label =
    | Client(node: nat, f: Frame, peers: seq<Peer>)
    | Receive(i: nat, peers: seq<Peer>)

  function BatchWire(f: Frame): seq<byte>
  {
    if f.HasExtensions() then Wire(SetExtensionsBit(CMD_PUBLISH_BATCH), 0, f.extensions, f.payload)
    else Wire(CMD_PUBLISH_BATCH, 0, [], f.payload)
  }

  /** What a node sends when a frame is routed: a publish that came from a peer is not sent on, a batch always is. */
  function Emitted(node: nat, f: Frame, peers: seq<Peer>): seq<Packet>
  {
    if |f.payload| > MAX_PAYLOAD_SIZE then []
    else if OpcodeOf(f.command) == CMD_PUBLISH && !IsForwarded(f.command) then
      Packets(node, Reached(peers), Stamped(LocalFrame(f)))
    else if OpcodeOf(f.command) == CMD_PUBLISH_BATCH then Packets(node, Reached(peers), Stamped(BatchWire(f)))
    else []
  }

  /** What a node's own subscribers are given for a publish. */
  function Local(node: nat, f: Frame): seq<Shown>
  {
    if |f.payload| <= MAX_PAYLOAD_SIZE && OpcodeOf(f.command) == CMD_PUBLISH then [Shown(node, LocalFrame(f))] else []
  }

  function Routed(w: World, node: nat, f: Frame, peers: seq<Peer>): World
  {
    World(w.wire + Emitted(node, f, peers), w.shown + Local(node, f))
  }

  function Without(ps: seq<Packet>, i: nat): seq<Packet>
    requires i < |ps|
  {
    ps[..i] + ps[i + 1..]
  }

  predicate Enabled(w: World, l: Label)
  {
    match l
    case Client(_, f, _) => Carriable(f)
    case Receive(i, _) => i < |w.wire|
  }

  function Step(w: World, l: Label): World
    requires Enabled(w, l)
  {
    match l
    case Client(node, f, peers) => Routed(w, node, f, peers)
    case Receive(i, peers) =>
      var p := w.wire[i];
      var rest := w.(wire := Without(w.wire, i));
      match ParseFrame(p.bytes)
      case Err(_) => rest
      case Ok(f) => Routed(rest, p.dst, f, peers)
  }

  /** The states of a run, from w. */
  predicate Runs(w: World, ls: seq<Label>, w': World)
    decreases ls
  {
    if ls == [] then w == w' else Enabled(w, ls[0]) && Runs(Step(w, ls[0]), ls[1..], w')
  }

  // ---- Publishes: one hop, once each --------------------------------------------------------------------------

  /** A packet that a receiver gives to its subscribers and sends no further. */
  ghost predicate Relay(p: Packet)
  {
    && ParseFrame(p.bytes).Ok?
    && var f := ParseFrame(p.bytes).value;
       IsForwarded(f.command) && OpcodeOf(f.command) == CMD_PUBLISH && |f.payload| <= MAX_PAYLOAD_SIZE
  }

  ghost predicate AllRelay(ps: seq<Packet>) { forall i :: 0 <= i < |ps| ==> Relay(ps[i]) }

  predicate NoBatches(ls: seq<Label>)
  {
    forall i :: 0 <= i < |ls| && ls[i].Client? ==> OpcodeOf(ls[i].f.command) != CMD_PUBLISH_BATCH
  }

  /** What the receiver of a packet will show. */
  function Show(p: Packet): Shown
  {
    match ParseFrame(p.bytes)
    case Err(_) => Shown(p.dst, [])
    case Ok(f) => Shown(p.dst, LocalFrame(f))
  }

  function Shows(ps: seq<Packet>): seq<Shown>
  {
    if ps == [] then [] else Shows(ps[..|ps| - 1]) + [Show(ps[|ps| - 1])]
  }

  /** One copy of a frame at each peer with a stream that a write goes through on. */
  function AtPeers(peers: seq<Peer>, bytes: seq<byte>): seq<Shown>
  {
    if peers == [] then []
    else
      var p := peers[|peers| - 1];
      AtPeers(peers[..|peers| - 1], bytes) + if p.connected && p.writable then [Shown(p.node, bytes)] else []
  }

  /** What a client's frame is to be shown as: at its node once, and once at each peer reached, unless it came in with
      the forwarded bit already set. */
  function Owed(l: Label): seq<Shown>
  {
    match l
    case Receive(_, _) => []
    case Client(node, f, peers) =>
      if |f.payload| > MAX_PAYLOAD_SIZE || OpcodeOf(f.command) != CMD_PUBLISH then []
      else if IsForwarded(f.command) then [Shown(node, LocalFrame(f))]
      else [Shown(node, LocalFrame(f))] + AtPeers(peers, LocalFrame(Relayed(f)))
  }

  function OwedAll(ls: seq<Label>): multiset<Shown>
  {
    if ls == [] then multiset{} else multiset(Owed(ls[0])) + OwedAll(ls[1..])
  }

  /** What has been shown together with what the packets under way will show. */
  ghost function Account(w: World): multiset<Shown> { multiset(w.shown) + multiset(Shows(w.wire)) }

  lemma {:induction false} ShowsConcat(a: seq<Packet>, b: seq<Packet>)
    ensures Shows(a + b) == Shows(a) + Shows(b)
  {
    hide Show;
    if b == [] {
      assert a + b == a;
    } else {
      var init := b[..|b| - 1];
      assert (a + b)[..|a + b| - 1] == a + init;
      ShowsConcat(a, init);
    }
  }

  lemma ShowsOne(p: Packet)
    ensures Shows([p]) == [Show(p)]
  {
  }

  lemma MultisetParts<T>(a: seq<T>, x: T, b: seq<T>)
    ensures multiset(a + [x] + b) == multiset(a + b) + multiset{x}
  {
  }

  lemma ShowsSplit(ps: seq<Packet>, i: nat)
    requires i < |ps|
    ensures Shows(ps) == Shows(ps[..i]) + [Show(ps[i])] + Shows(ps[i + 1..])
    ensures Shows(Without(ps, i)) == Shows(ps[..i]) + Shows(ps[i + 1..])
  {
    hide Show, Shows;
    var a, b := ps[..i], ps[i + 1..];
    ShowsConcat(a, b);
    ShowsConcat(a + [ps[i]], b);
    ShowsConcat(a, [ps[i]]);
    ShowsOne(ps[i]);
    assert ps == a + [ps[i]] + b;
  }

  lemma ShowsWithout(ps: seq<Packet>, i: nat)
    requires i < |ps|
    ensures multiset(Shows(ps)) == multiset(Shows(Without(ps, i))) + multiset{Show(ps[i])}
  {
    ShowsSplit(ps, i);
    MultisetParts(Shows(ps[..i]), Show(ps[i]), Shows(ps[i + 1..]));
  }

  lemma MultisetSum<T>(a: seq<T>, b: seq<T>, x: seq<T>, y: seq<T>)
    ensures multiset(a + x) + multiset(b + y) == multiset(a) + multiset(b) + multiset(x + y)
  {
    assert multiset(a + x) == multiset(a) + multiset(x);
    assert multiset(b + y) == multiset(b) + multiset(y);
    assert multiset(x + y) == multiset(x) + multiset(y);
  }

  lemma AccountAdd(w: World, e: seq<Packet>, s: seq<Shown>)
    ensures Account(World(w.wire + e, w.shown + s)) == Account(w) + multiset(s + Shows(e))
  {
    hide Shows;
    ShowsConcat(w.wire, e);
    MultisetSum(w.shown, Shows(w.wire), s, Shows(e));
  }

  lemma RelayPackets(f: Frame, node: nat, peers: seq<Peer>)
    requires Carriable(f) && |f.payload| <= MAX_PAYLOAD_SIZE
    ensures AllRelay(Packets(node, Reached(peers), Stamped(LocalFrame(f))))
    ensures Shows(Packets(node, Reached(peers), Stamped(LocalFrame(f)))) == AtPeers(peers, LocalFrame(Relayed(f)))
  {
    hide ParseFrame, LocalFrame, Reached;
    ForwardedParses(f);
    TopicShorter(f);
    ShowsSame(node, peers, Stamped(LocalFrame(f)), LocalFrame(Relayed(f)));
  }

  lemma {:induction false} ShowsSame(node: nat, peers: seq<Peer>, bytes: seq<byte>, seen: seq<byte>)
    requires ParseFrame(bytes).Ok? && LocalFrame(ParseFrame(bytes).value) == seen
    ensures Shows(Packets(node, Reached(peers), bytes)) == AtPeers(peers, seen)
  {
    hide ParseFrame, LocalFrame;
    if peers != [] {
      var init, p := peers[..|peers| - 1], peers[|peers| - 1];
      ShowsSame(node, init, bytes, seen);
      if p.connected && p.writable {
        var ps := Packets(node, Reached(peers), bytes);
        assert Reached(peers)[..|ps| - 1] == Reached(init);
        assert ps[..|ps| - 1] == Packets(node, Reached(init), bytes);
      }
    }
  }

  lemma OwedIs(node: nat, f: Frame, peers: seq<Peer>)
    requires Carriable(f) && OpcodeOf(f.command) != CMD_PUBLISH_BATCH
    ensures Owed(Client(node, f, peers)) == Local(node, f) + Shows(Emitted(node, f, peers))
    ensures AllRelay(Emitted(node, f, peers))
  {
    hide ParseFrame, LocalFrame, Show, Relay, Carriable, Relayed;
    if |f.payload| <= MAX_PAYLOAD_SIZE && OpcodeOf(f.command) == CMD_PUBLISH && !IsForwarded(f.command) {
      RelayPackets(f, node, peers);
    }
  }

  lemma ClientAccount(w: World, node: nat, f: Frame, peers: seq<Peer>)
    requires Carriable(f) && OpcodeOf(f.command) != CMD_PUBLISH_BATCH && AllRelay(w.wire)
    ensures var l := Client(node, f, peers);
      Account(Step(w, l)) == Account(w) + multiset(Owed(l)) && AllRelay(Step(w, l).wire)
  {
    hide ParseFrame, Relay, Carriable, Shows, Account, Emitted, Local, Owed;
    OwedIs(node, f, peers);
    AccountAdd(w, Emitted(node, f, peers), Local(node, f));
  }

  lemma ReceiveAccount(w: World, i: nat, peers: seq<Peer>)
    requires i < |w.wire| && AllRelay(w.wire)
    ensures var w' := Step(w, Receive(i, peers));
      Account(w') == Account(w) && AllRelay(w'.wire) && |w'.wire| == |w.wire| - 1
  {
    hide ParseFrame, LocalFrame, Shows, Account;
    assert Relay(w.wire[i]);
    var p := w.wire[i];
    var f := ParseFrame(p.bytes).value;
    assert Emitted(p.dst, f, peers) == [] && Local(p.dst, f) == [Show(p)];
    var rest := Without(w.wire, i);
    assert rest + [] == rest;
    ReceiveMoves(w, i);
  }

  lemma ReceiveMoves(w: World, i: nat)
    requires i < |w.wire|
    ensures Account(World(Without(w.wire, i), w.shown + [Show(w.wire[i])])) == Account(w)
  {
    hide Shows, Show, Without;
    ShowsWithout(w.wire, i);
  }

  lemma OwedReceive(l: Label)
    requires l.Receive?
    ensures Owed(l) == []
  {
  }

  lemma Assoc<T>(a: multiset<T>, b: multiset<T>, c: multiset<T>)
    ensures a + b + c == a + (b + c)
  {
  }

  /** The ledger of every run without batches: what has been shown, plus what packets under way will show, is what
      was there before and one copy per client frame at its node and at each peer its forward reached. */
  lemma {:induction false} RunLedger(w: World, ls: seq<Label>, w': World)
    requires Runs(w, ls, w') && NoBatches(ls) && AllRelay(w.wire)
    ensures AllRelay(w'.wire)
    ensures Account(w') == Account(w) + OwedAll(ls)
    decreases ls
  {
    hide Account, AllRelay, Step, Owed, Carriable;
    if ls == [] {
      assert Account(w) + multiset{} == Account(w);
    } else {
      match ls[0] {
        case Client(node, f, peers) => ClientAccount(w, node, f, peers);
        case Receive(i, peers) =>
          ReceiveAccount(w, i, peers);
          assert multiset(Owed(ls[0])) == multiset{} by { OwedReceive(ls[0]); }
      }
      Assoc(Account(w), multiset(Owed(ls[0])), OwedAll(ls[1..]));
      assert forall i :: 0 <= i < |ls[1..]| ==> ls[1..][i] == ls[i + 1];
      RunLedger(Step(w, ls[0]), ls[1..], w');
    }
  }

  /** How often a client's publish is to be shown at a node in some bytes: once if it is the client's node, and once for
      each place the node has among the peers that can be written to, unless the forwarded bit was set already. */
  ghost function Due(l: Label, s: Shown): nat
  {
    match l
    case Receive(_, _) => 0
    case Client(node, f, peers) =>
      if |f.payload| > MAX_PAYLOAD_SIZE || OpcodeOf(f.command) != CMD_PUBLISH then 0
      else
        (if s == Shown(node, LocalFrame(f)) then 1 else 0)
        + (if IsForwarded(f.command) || s.bytes != LocalFrame(Relayed(f)) then 0 else |Places(peers, s.node)|)
  }

  ghost function Places(peers: seq<Peer>, node: nat): set<nat> { set i | i in Up(peers) && peers[i].node == node }

  ghost function DueAll(ls: seq<Label>, s: Shown): nat
  {
    if ls == [] then 0 else Due(ls[0], s) + DueAll(ls[1..], s)
  }

  lemma PlacesSnoc(peers: seq<Peer>, p: Peer, node: nat)
    ensures |Places(peers + [p], node)| == |Places(peers, node)| + if p.connected && p.writable && p.node == node then 1 else 0
  {
    var a, b := Places(peers, node), Places(peers + [p], node);
    assert b == if p.connected && p.writable && p.node == node then a + {|peers|} else a;
  }

  lemma {:induction false} AtPeersTimes(peers: seq<Peer>, bytes: seq<byte>, s: Shown)
    ensures multiset(AtPeers(peers, bytes))[s] == if s.bytes == bytes then |Places(peers, s.node)| else 0
  {
    hide Places;
    if peers == [] {
      NoPlaces(s.node);
    } else {
      var init, p := peers[..|peers| - 1], peers[|peers| - 1];
      AtPeersTimes(init, bytes, s);
      assert init + [p] == peers;
      PlacesSnoc(init, p, s.node);
    }
  }

  lemma NoPlaces(node: nat)
    ensures |Places([], node)| == 0
  {
    assert Places([], node) == {};
  }

  lemma OwedTimes(l: Label, s: Shown)
    ensures multiset(Owed(l))[s] == Due(l, s)
  {
    hide LocalFrame, Relayed, Places, AtPeers;
    if l.Client? {
      AtPeersTimes(l.peers, LocalFrame(Relayed(l.f)), s);
      var one := Shown(l.node, LocalFrame(l.f));
      var rest := AtPeers(l.peers, LocalFrame(Relayed(l.f)));
      assert multiset([one] + rest) == multiset{one} + multiset(rest);
    }
  }

  lemma {:induction false} OwedAllTimes(ls: seq<Label>, s: Shown)
    ensures OwedAll(ls)[s] == DueAll(ls, s)
  {
    hide Owed, Due;
    if ls != [] {
      OwedTimes(ls[0], s);
      OwedAllTimes(ls[1..], s);
    }
  }

  /** Once the links are empty, every client frame has been shown exactly once at its node and exactly once at each
      peer its forward reached, and nothing else has been shown anywhere. */
  lemma ExactlyOnce(ls: seq<Label>, w: World)
    requires Runs(QUIET, ls, w) && NoBatches(ls) && w.wire == []
    ensures multiset(w.shown) == OwedAll(ls)
    ensures forall s :: multiset(w.shown)[s] == DueAll(ls, s)
  {
    hide Runs, OwedAll, NoBatches, Step, DueAll;
    RunLedger(QUIET, ls, w);
    assert Account(QUIET) + OwedAll(ls) == OwedAll(ls);
    forall s ensures multiset(w.shown)[s] == DueAll(ls, s) {
      OwedAllTimes(ls, s);
    }
  }

  // ---- Draining -----------------------------------------------------------------------------------------------

  predicate OnlyReceives(ls: seq<Label>) { forall i :: 0 <= i < |ls| ==> ls[i].Receive? }

  /** With no new frames from clients, each arrival takes one packet off the links for good. */
  lemma {:induction false} RelaysDrain(w: World, ls: seq<Label>, w': World)
    requires Runs(w, ls, w') && OnlyReceives(ls) && AllRelay(w.wire)
    ensures |w'.wire| + |ls| == |w.wire| && AllRelay(w'.wire)
    decreases ls
  {
    hide Account, AllRelay, Step;
    if ls != [] {
      ReceiveAccount(w, ls[0].i, ls[0].peers);
      RelaysDrain(Step(w, ls[0]), ls[1..], w');
    }
  }

  // ---- Batches: forwarded again at every hop ------------------------------------------------------------------

  /** A batch packet: its receiver forwards it again. */
  ghost predicate Loud(p: Packet)
  {
    && ParseFrame(p.bytes).Ok?
    && var f := ParseFrame(p.bytes).value; OpcodeOf(f.command) == CMD_PUBLISH_BATCH && |f.payload| <= MAX_PAYLOAD_SIZE
  }

  predicate Connected(ls: seq<Label>) { forall i :: 0 <= i < |ls| ==> Reached(ls[i].peers) != [] }

  lemma BatchParses(f: Frame)
    requires Carriable(f)
    ensures var cmd := SetForwarded(if f.HasExtensions() then SetExtensionsBit(CMD_PUBLISH_BATCH) else CMD_PUBLISH_BATCH);
      ParseFrame(Stamped(BatchWire(f))) == Ok(Frame(cmd, 0, f.payload, f.extensions))
  {
    hide ParseFrame, Wire;
    var base := if f.HasExtensions() then SetExtensionsBit(CMD_PUBLISH_BATCH) else CMD_PUBLISH_BATCH;
    StampedWire(base, f.extensions, f.payload);
    var g := Frame(SetForwarded(base), 0, f.payload, f.extensions);
    ParseWire(g, []);
    assert WireOf(g) + [] == WireOf(g);
  }

  /** A batch routed at a node with a reachable peer puts a batch packet on a link. */
  lemma BatchEmitsLoud(node: nat, f: Frame, peers: seq<Peer>)
    requires Carriable(f) && OpcodeOf(f.command) == CMD_PUBLISH_BATCH && |f.payload| <= MAX_PAYLOAD_SIZE
    requires Reached(peers) != []
    ensures exists p :: p in Emitted(node, f, peers) && Loud(p)
  {
    hide ParseFrame, BatchWire, Carriable, Reached, Stamped, LocalFrame;
    BatchParses(f);
    var p := Emitted(node, f, peers)[0];
    assert p in Emitted(node, f, peers) && Loud(p);
  }

  lemma LoudStep(w: World, l: Label)
    requires Enabled(w, l) && Reached(l.peers) != [] && exists p :: p in w.wire && Loud(p)
    ensures exists p :: p in Step(w, l).wire && Loud(p)
  {
    hide Loud, ParseFrame, Emitted, Local;
    var p :| p in w.wire && Loud(p);
    var w' := Step(w, l);
    match l {
      case Client(node, f, peers) =>
        assert p in w'.wire;
      case Receive(i, peers) =>
        if p == w.wire[i] {
          LoudIs(p);
          var f := ParseFrame(p.bytes).value;
          WireParse(p.bytes);
          BatchEmitsLoud(p.dst, f, peers);
          var q :| q in Emitted(p.dst, f, peers) && Loud(q);
          assert q in w'.wire;
        } else {
          assert p in Without(w.wire, i);
          assert p in w'.wire;
        }
    }
  }

  lemma LoudIs(p: Packet)
    requires Loud(p)
    ensures ParseFrame(p.bytes).Ok?
    ensures var f := ParseFrame(p.bytes).value; OpcodeOf(f.command) == CMD_PUBLISH_BATCH && |f.payload| <= MAX_PAYLOAD_SIZE
  {
  }

  /** A batch packet once on a link is never off all of them, however long the run, while every node that receives a
      frame has a peer to forward to. */
  lemma {:induction false} BatchesNeverDrain(w: World, ls: seq<Label>, w': World)
    requires Runs(w, ls, w') && Connected(ls) && exists p :: p in w.wire && Loud(p)
    ensures exists p :: p in w'.wire && Loud(p)
    decreases ls
  {
    hide Loud, Step, Enabled;
    if ls != [] {
      LoudStep(w, ls[0]);
      BatchesNeverDrain(Step(w, ls[0]), ls[1..], w');
    }
  }

  /** No node forwards to itself. */
  predicate NoSelf(w: World, ls: seq<Label>)
    decreases ls
  {
    ls == [] || (
      && Enabled(w, ls[0])
      && (match ls[0]
          case Client(node, _, peers) => node !in Reached(peers)
          case Receive(i, peers) => w.wire[i].dst !in Reached(peers))
      && NoSelf(Step(w, ls[0]), ls[1..]))
  }

  lemma OneReached(p: Peer)
    requires p.connected && p.writable
    ensures Reached([p]) == [p.node]
  {
    assert Reached([p]) == Reached([]) + [p.node];
  }

  /** A batch routed with one peer to reach puts one batch packet on the links. */
  lemma OneEmitted(node: nat, f: Frame, other: Peer) returns (q: Packet)
    requires Carriable(f) && OpcodeOf(f.command) == CMD_PUBLISH_BATCH && |f.payload| <= MAX_PAYLOAD_SIZE
    requires other.connected && other.writable
    ensures Emitted(node, f, [other]) == [q] && Loud(q) && q.dst == other.node && q.src == node
  {
    hide Loud, ParseFrame, Carriable, Reached, BatchWire, LocalFrame;
    OneReached(other);
    BatchEmitsLoud(node, f, [other]);
    var e := Emitted(node, f, [other]);
    assert |e| == 1;
    q := e[0];
    assert e == [q];
  }

  /** A batch packet alone on the links, received by one of two nodes and forwarded to the other. */
  lemma PassOn(w: World, p: Packet, other: Peer) returns (q: Packet)
    requires w.wire == [p] && Loud(p) && other.connected && other.writable
    ensures var w' := Step(w, Receive(0, [other]));
      w'.wire == [q] && Loud(q) && q.dst == other.node && q.src == p.dst
  {
    hide Loud, ParseFrame, Local, Emitted, Carriable;
    LoudIs(p);
    var f := ParseFrame(p.bytes).value;
    WireParse(p.bytes);
    q := OneEmitted(p.dst, f, other);
    assert Without(w.wire, 0) + [q] == [q];
  }

  lemma {:induction false} PassedAround(w: World, p: Packet, a: Peer, b: Peer, n: nat) returns (ls: seq<Label>, w': World)
    requires a.connected && a.writable && b.connected && b.writable && a.node != b.node
    requires w.wire == [p] && Loud(p) && p.dst == a.node
    ensures |ls| == n && OnlyReceives(ls) && NoSelf(w, ls) && Runs(w, ls, w') && w'.wire != []
    decreases n
  {
    hide Loud, Step, Reached;
    ls, w' := [], w;
    if n > 0 {
      var l := Receive(0, [b]);
      var q := PassOn(w, p, b);
      OneReached(b);
      var rest;
      rest, w' := PassedAround(Step(w, l), q, b, a, n - 1);
      ls := [l] + rest;
      assert ls[1..] == rest;
    }
  }

  /** So one batch from a client keeps two connected nodes busy for ever: each forwards it to the other, never to itself,
      and there is a run of any length with no other frame from any client. */
  lemma EndlessRun(f: Frame, a: Peer, b: Peer, n: nat) returns (ls: seq<Label>, w: World)
    requires Carriable(f) && OpcodeOf(f.command) == CMD_PUBLISH_BATCH && |f.payload| <= MAX_PAYLOAD_SIZE
    requires a.connected && a.writable && b.connected && b.writable && a.node != b.node
    ensures |ls| == n + 1 && ls[0] == Client(a.node, f, [b]) && OnlyReceives(ls[1..])
    ensures NoSelf(QUIET, ls) && Runs(QUIET, ls, w) && w.wire != []
  {
    hide Loud, Carriable, Reached, Emitted, Local, ParseFrame;
    var l := Client(a.node, f, [b]);
    OneReached(b);
    var q := OneEmitted(a.node, f, b);
    var w1 := Step(QUIET, l);
    assert w1.wire == [q];
    hide Step;
    var rest;
    rest, w := PassedAround(w1, q, b, a, n);
    ls := [l] + rest;
    assert ls[1..] == rest;
  }

  /** The links empty after as many arrivals as there were packets exactly when none of those was a batch. */
  lemma DrainsIff(w: World, ls: seq<Label>, w': World)
    requires Runs(w, ls, w') && OnlyReceives(ls) && Connected(ls) && |ls| == |w.wire|
    requires forall i :: 0 <= i < |w.wire| ==> Relay(w.wire[i]) || Loud(w.wire[i])
    ensures w'.wire == [] <==> !exists p :: p in w.wire && Loud(p)
  {
    hide Loud, Relay, Runs;
    if exists p :: p in w.wire && Loud(p) {
      BatchesNeverDrain(w, ls, w');
    } else {
      assert forall i :: 0 <= i < |w.wire| ==> w.wire[i] in w.wire;
      RelaysDrain(w, ls, w');
    }
  }
}
