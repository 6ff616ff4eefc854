/**
 * A voice packet from one Edge to another: the switch on its target in
 * packages/edge-server/src/voice/voice-router.ts, the choice of Edges in
 * packages/edge-server/src/managers/voice-manager.ts, and the 32-bit header of
 * packages/protocol/src/voice/voice-udp-transport.ts.
 */
module CrossEdge {
  import opened Wrappers
  import opened Framing
  import opened Varints
  import opened Voice
  import RemoteUsers

  /** What the router tells the voice manager. */
  datatype Announcement =
    | Silence
    | ToChannel(channel: nat, packet: seq<Octet>)
    | ToServer(packet: seq<Octet>)

  const SERVER_WIDE := 0xffff_ffff

  /** What travels between two Edges. */
  datatype Datagram = Datagram(target: nat, voice: seq<Octet>)

  /** The header fields are written as unsigned 32-bit numbers; others throw, and nothing is sent. */
  function Encoded(sender: int, target: nat, voice: seq<Octet>): Option<Datagram> {
    if 0 <= sender < TWO_32 && target < TWO_32 then Some(Datagram(target, voice)) else None
  }

  /** Target 0 is the speaker's channel, 1 the whole server; nothing answers for whisper targets. */
  method RouteVoicePacket(clients: seq<Client>, packet: VoicePacket) returns (sent: seq<nat>, a: Announcement)
    requires OneEach(clients) && packet.sender >= 0
    ensures var speaker := Find(clients, packet.sender);
      a == if packet.target == 0 && speaker.Some? && !Silenced(speaker.value) then ToChannel(speaker.value.channel, Forwarded(packet))
           else if packet.target == 1 then ToServer(Forwarded(packet)) else Silence
    ensures !a.ToChannel? ==> sent == []
    ensures a.ToChannel? ==> NoTwice(sent) && forall c <- clients :: c.session in sent <==> Recipient(c, packet.sender, a.channel)
  {
    sent, a := [], Silence;
    match packet.target
    case 0 =>
      var announced;
      sent, announced := RouteToChannel(clients, packet);
      if announced.Some? {
        a := ToChannel(announced.value.0, announced.value.1);
      }
    case 1 =>
      var buffer := SerializeVoicePacket(packet);
      a := ToServer(buffer[..]);
    case _ =>
  }

  /** The Edges that the packet goes to, and what they get. */
  function Wire(a: Announcement, sender: int, inChannel: set<int>, self: int, endpoints: set<int>): map<int, Datagram> {
    match a
    case Silence => map[]
    case ToChannel(channel, packet) =>
      map e | e in inChannel && e in endpoints && e != self && Encoded(sender, channel, packet).Some? ::
        Encoded(sender, channel, packet).value
    case ToServer(packet) =>
      map e | e in endpoints && e != self && Encoded(sender, SERVER_WIDE, packet).Some? ::
        Encoded(sender, SERVER_WIDE, packet).value
  }

  /** To each other Edge with someone in the channel, or to every other Edge, if its endpoint is registered. */
  method Transmit(a: Announcement, sender: int, state: RemoteUsers.EdgeStateManager, self: int, endpoints: set<int>)
    returns (wire: map<int, Datagram>)
    ensures wire == Wire(a, sender, RemoteUsers.EdgesIn(state.State(), if a.ToChannel? then a.channel else 0), self, endpoints)
  {
    wire := map[];
    match a
    case Silence =>
    case ToChannel(channel, packet) =>
      var edges := RemoteUsers.EdgesIn(state.State(), channel);
      if edges == {} {
        return;
      }
      wire := SendEach(edges, self, endpoints, Encoded(sender, channel, packet));
    case ToServer(packet) =>
      wire := SendEach(endpoints, self, endpoints, Encoded(sender, SERVER_WIDE, packet));
  }

  method SendEach(edges: set<int>, self: int, endpoints: set<int>, d: Option<Datagram>) returns (wire: map<int, Datagram>)
    ensures wire == map e | e in edges && e in endpoints && e != self && d.Some? :: d.value
  {
    wire := map[];
    var left := edges;
    while left != {}
      invariant left <= edges
      invariant wire == map e | e in edges - left && e in endpoints && e != self && d.Some? :: d.value
      decreases |left|
    {
      NotEmpty(left);
      var e :| e in left;
      if e != self && e in endpoints && d.Some? {
        wire := wire[e := d.value];
      }
      left := left - {e};
    }
  }

  /** What the receiving Edge does with it. */
  method Deliver(clients: seq<Client>, d: Datagram) returns (sent: seq<nat>)
    requires OneEach(clients)
    ensures d.target == SERVER_WIDE ==> forall c <- clients :: c.session in sent <==> Hears(c)
    ensures d.target != SERVER_WIDE && ParseSession(d.voice).Some? ==>
      forall c <- clients :: c.session in sent <==> Hears(c) && c.session != ParseSession(d.voice).value
    ensures d.target != SERVER_WIDE && ParseSession(d.voice).None? ==> sent == []
    ensures NoTwice(sent)
  {
    if d.target == SERVER_WIDE {
      sent := HandleRemoteServerBroadcast(clients);
    } else {
      sent := HandleRemoteBroadcast(clients, d.voice);
    }
  }

  /** Someone whom the speaker's Edge tracks on that Edge is in the channel. */
  ghost predicate SomeoneThere(users: map<int, RemoteUsers.RemoteUser>, edge: int, channel: nat) {
    exists s <- users :: users[s] == RemoteUsers.RemoteUser(edge, channel)
  }

  /**
   * Who hears it on another Edge. A packet for the channel reaches the Edge iff one of its users
   * is tracked there, and then all of its clients that can hear, but none with the speaker's
   * number. A packet for the server reaches every Edge, even from a silenced speaker, and spares
   * nobody. A channel numbered as the server-wide mark is taken for it.
   */
  ghost predicate HearsAcross(c: Client, packet: VoicePacket, speaker: Option<Client>,
                              users: map<int, RemoteUsers.RemoteUser>, edge: int) {
    && !c.deaf && !c.selfDeaf && c.userId > 0 && packet.sender < 0x1_0000_0000
    && match packet.target
       case 0 =>
         && speaker.Some? && !speaker.value.mute && !speaker.value.selfMute && !speaker.value.suppress
         && SomeoneThere(users, edge, speaker.value.channel)
         && (if speaker.value.channel < 0xffff_ffff then c.session != packet.sender else speaker.value.channel == 0xffff_ffff)
       case 1 => true
       case _ => false
  }

  lemma EdgeChosen(ops: seq<RemoteUsers.Op>, edge: int, channel: nat)
    requires RemoteUsers.SafeRun(ops)
    ensures var t := RemoteUsers.Run(ops);
      edge in RemoteUsers.EdgesIn(t, channel) <==> SomeoneThere(t.users, edge, channel)
  {
    var t := RemoteUsers.Run(ops);
    RemoteUsers.RunExact(ops, channel);
    RemoteUsers.IsPresent(t.users, channel, edge);
  }

  /** From a client's packet to the clients of another Edge, after any safe run of tracking. */
  method AcrossEdges(clients: seq<Client>, others: seq<Client>, data: seq<Octet>, sender: nat,
                     state: RemoteUsers.EdgeStateManager, ghost ops: seq<RemoteUsers.Op>,
                     self: int, edge: int, endpoints: set<int>) returns (sent: seq<nat>)
    requires OneEach(clients) && OneEach(others)
    requires RemoteUsers.SafeRun(ops) && state.State() == RemoteUsers.Run(ops)
    ensures var packet := EdgeParse(data, sender);
      if packet.None? || edge == self || edge !in endpoints then sent == [] else
      NoTwice(sent) && forall c <- others ::
        c.session in sent <==> HearsAcross(c, packet.value, Find(clients, sender), state.remoteUsers, edge)
  {
    sent := [];
    var packet := EdgeParse(data, sender);
    if packet.Some? {
      var near, a := RouteVoicePacket(clients, packet.value);
      var wire := Transmit(a, sender, state, self, endpoints);
      EdgeChosen(ops, edge, if a.ToChannel? then a.channel else 0);
      if a.ToChannel? && sender < TWO_32 {
        SenderRecovered(packet.value);
      }
      if edge in wire {
        sent := Deliver(others, wire[edge]);
      }
    }
  }
}
