/** Stop-and-wait delivery: usip_send_tlv and usip_send_data against a peer, over a link that may lose or damage
    data frames. */
module UsipDelivery {
  import opened Bytes
  import opened UsipCrc
  import opened UsipFrame
  import opened UsipFraming
  import opened UsipReceiver
  import opened UsipStation

  const PKGNUM_MAX: nat := 0x7F
  const SEQ_MAX: nat := 0x7F
  const MAX_ARQ_TIMES: nat := 3

  /** One data packet; its tag is always that of a request. */
  datatype Packet = Packet(pkg: byte, seqNo: byte, cmd: nat, val: seq<byte>)

  /** What the link does to one transmission: `Damaged` gives the frame body that comes in instead. */
  datatype Fate = Arrives | Lost | Damaged(body: seq<byte>)

  /** The damage is noticed: the body that comes in is short enough and fails the CRC. */
  predicate Noticed(fate: Fate) {
    fate.Damaged? ==> Sendable(fate.body) && !CrcOk(fate.body)
  }

  ghost predicate AllNoticed(fate: nat -> Fate) {
    forall n: nat :: Noticed(fate(n))
  }

  datatype Ends = Ends(me: Station, peer: Station)

  function BodyOf(pk: Packet): seq<byte>
    requires pk.cmd < 0x10000 && |pk.val| < 0x10000
  {
    Body(pk.pkg, pk.seqNo, pk.cmd, TAG_RST, pk.val)
  }

  predicate Fits(pk: Packet) {
    pk.cmd < 0x4000 && pk.seqNo < EA_BIT && |pk.val| < 0x10000 && Sendable(BodyOf(pk))
  }

  predicate Linked(e: Ends, seqNo: nat) {
    Level(e.me) && Level(e.peer) && e.me.waitSeq == seqNo
  }

  function NodeOf(pk: Packet): Node {
    Node(LowBits(pk.pkg), pk.seqNo, pk.cmd, TAG_RST, pk.val)
  }

  /** One transmission, and all that follows from it before the sender's wait ends. */
  function Transmit(e: Ends, pk: Packet, fate: Fate): (r: Ends)
    requires Linked(e, pk.seqNo) && Fits(pk) && Noticed(fate)
    ensures Linked(r, pk.seqNo)
  {
    hide Hear, Legible, Run, Held, Wire, Body;
    match fate
    case Lost => e
    case Damaged(body) =>
      DamagedTaken(e.peer, body);
      e.(peer := Hear(e.peer, Wire(body)).0)
    case Arrives =>
      PacketTaken(e.peer, pk.pkg, pk.seqNo, pk.cmd, TAG_RST, pk.val);
      AckTaken(e.me, NodeOf(pk));
      var heard := Hear(e.peer, Wire(BodyOf(pk)));
      Ends(Hear(e.me, heard.1).0, heard.0)
  }

  // ---- one packet ----

  /** A station that has `data` of the message under way. */
  predicate Collecting(st: Station, data: seq<byte>) {
    Level(st) && !st.lastSeen && Held(st.list) == data && st.total == |data| % 0x10000
  }

  /** The peer after it took the packet: the data grows, or the message is delivered. */
  predicate Took(was: Station, data: seq<byte>, pk: Packet, now: Station) {
    if pk.pkg as nat >= EA_BIT
    then Collecting(now, []) && now.delivered == was.delivered + [Message(pk.cmd, data + pk.val, |data + pk.val| % 0x10000)]
    else Collecting(now, data + pk.val) && now.delivered == was.delivered
  }

  predicate Missed(was: Station, data: seq<byte>, now: Station) {
    Collecting(now, data) && now.delivered == was.delivered
  }

  /** The sender is between packets of its message `seqNo`. */
  predicate Sending(st: Station, was: Station, acked: bool) {
    st.acked == acked && st.nextSeq == was.nextSeq && st.delivered == was.delivered
  }

  lemma KeptTakes(st: Station, data: seq<byte>, pk: Packet, now: Station)
    requires Collecting(st, data)
    requires Became(st, now, Listed(st.(lastSeen := pk.pkg as nat >= EA_BIT), NodeOf(pk)))
    ensures Took(st, data, pk, now)
  {
    hide Held;
    HeldOneMore(st.list, NodeOf(pk));
    TotalMore(|data|, |pk.val|);
    assert Held([]) == [] by { HeldNothing(); }
  }

  lemma HeldNothing()
    ensures Held([]) == []
  {
  }

  lemma TotalMore(a: nat, b: nat)
    ensures (a % 0x10000 + b) % 0x10000 == (a + b) % 0x10000
  {
  }

  lemma KeptBlank(st: Station, data: seq<byte>, now: Station)
    requires Collecting(st, data) && Became(st, now, Listed(st, BLANK))
    ensures Missed(st, data, now)
  {
    hide Held;
    HeldOneMore(st.list, BLANK);
    TotalMore(|data|, 0);
  }

  lemma TransmitTakes(e: Ends, pk: Packet, fate: Fate, data: seq<byte>)
    requires Linked(e, pk.seqNo) && Fits(pk) && Noticed(fate) && pk.val != []
    requires Collecting(e.peer, data) && !e.me.acked
    ensures var r := Transmit(e, pk, fate);
      && Linked(r, pk.seqNo) && Sending(r.me, e.me, fate.Arrives?)
      && if fate.Arrives? then Took(e.peer, data, pk, r.peer) else Missed(e.peer, data, r.peer)
  {
    hide Hear, Legible, Run, Held, Wire, Body, Listed;
    match fate
    case Lost =>
    case Damaged(body) =>
      DamagedTaken(e.peer, body);
      KeptBlank(e.peer, data, Hear(e.peer, Wire(body)).0);
    case Arrives =>
      PacketTaken(e.peer, pk.pkg, pk.seqNo, pk.cmd, TAG_RST, pk.val);
      AckTaken(e.me, NodeOf(pk));
      KeptTakes(e.peer, data, pk, Hear(e.peer, Wire(BodyOf(pk))).0);
  }

  /** usip_send_tlv from its k-th transmission on; the fourth one is not waited for. */
  function SendTlv(e: Ends, pk: Packet, fate: nat -> Fate, k: nat): (r: (Ends, bool))
    requires Linked(e, pk.seqNo) && Fits(pk) && k <= MAX_ARQ_TIMES
    requires AllNoticed(fate)
    ensures Linked(r.0, pk.seqNo)
    decreases MAX_ARQ_TIMES - k
  {
    hide Transmit, Noticed, Fits;
    var sent := Transmit(e, pk, fate(k));
    if k == MAX_ARQ_TIMES then (sent, false)
    else if sent.me.acked then (sent.(me := sent.me.(acked := false)), true)
    else SendTlv(sent, pk, fate, k + 1)
  }

  /** One of the transmissions that are waited for arrives. */
  predicate InTime(fate: nat -> Fate, k: nat) {
    exists n :: k <= n < 3 && fate(n).Arrives?
  }

  /** usip_send_tlv succeeds exactly when a transmission it waits for arrives, and then the peer took the packet
      once; when it fails the peer took it once or not at all. */
  lemma {:induction false} PacketSentOnce(e: Ends, pk: Packet, fate: nat -> Fate, k: nat, data: seq<byte>)
    requires Linked(e, pk.seqNo) && Fits(pk) && pk.val != [] && k <= MAX_ARQ_TIMES
    requires AllNoticed(fate)
    requires Collecting(e.peer, data) && !e.me.acked
    ensures var (r, ok) := SendTlv(e, pk, fate, k);
      && (ok <==> InTime(fate, k))
      && (ok ==> Sending(r.me, e.me, false) && Took(e.peer, data, pk, r.peer))
      && (!ok ==> Took(e.peer, data, pk, r.peer) || Missed(e.peer, data, r.peer))
    decreases MAX_ARQ_TIMES - k
  {
    hide Transmit, Noticed, Fits, Took, Collecting;
    TransmitTakes(e, pk, fate(k), data);
    var sent := Transmit(e, pk, fate(k));
    if k < MAX_ARQ_TIMES && !fate(k).Arrives? {
      MissedCollects(e.peer, data, sent.peer);
      PacketSentOnce(sent, pk, fate, k + 1, data);
      TookSince(e.peer, sent.peer, data, pk, SendTlv(sent, pk, fate, k + 1).0.peer);
    }
  }

  lemma MissedCollects(was: Station, data: seq<byte>, now: Station)
    requires Missed(was, data, now)
    ensures Collecting(now, data) && now.delivered == was.delivered
  {
  }

  lemma TookSince(was: Station, st: Station, data: seq<byte>, pk: Packet, now: Station)
    requires was.delivered == st.delivered
    ensures Took(was, data, pk, now) == Took(st, data, pk, now)
  {
  }

  // ---- a message ----

  /** The most value bytes a packet of the command carries. */
  function ValueMax(cmd: nat): (m: nat)
    requires cmd < 0x10000
    ensures m == if cmd < EA_BIT then 120 else 119
  {
    CMD_AND_TLVS_MAX_LEN - |ShortToEA(cmd)| - 2
  }

  /** The packets usip_send_data makes, from package number `pkg` on; the last one carries the top bit. */
  function Segment(cmd: nat, seqNo: byte, data: seq<byte>, pkg: byte): (packets: seq<Packet>)
    requires cmd < 0x10000
    ensures |packets| > 0
    decreases |data|
  {
    var max := ValueMax(cmd);
    if |data| <= max then [Packet(WithBit(pkg), seqNo, cmd, data)]
    else [Packet(pkg, seqNo, cmd, data[..max])] + Segment(cmd, seqNo, data[max..], (pkg + 1) % 256)
  }

  lemma SegmentNext(packets: seq<Packet>, cmd: nat, seqNo: byte, data: seq<byte>, k: nat, pkg: byte)
    requires cmd < 0x10000 && k <= |packets| && packets[k..] == Segment(cmd, seqNo, data, pkg)
    ensures k < |packets| && packets[k] in packets
    ensures var max := ValueMax(cmd);
      if |data| <= max then |packets| == k + 1 && packets[k] == Packet(WithBit(pkg), seqNo, cmd, data)
      else (packets[k] == Packet(pkg, seqNo, cmd, data[..max])
            && packets[k + 1..] == Segment(cmd, seqNo, data[max..], (pkg + 1) % 256))
  {
    assert packets[k..][0] == packets[k];
    assert packets[k..][1..] == packets[k + 1..];
  }

  function Joined(packets: seq<Packet>): seq<byte> {
    if packets == [] then [] else packets[0].val + Joined(packets[1..])
  }

  lemma JoinedFirst(packets: seq<Packet>)
    requires packets != []
    ensures Joined(packets) == packets[0].val + Joined(packets[1..])
  {
  }

  lemma JoinedNone()
    ensures Joined([]) == []
  {
  }

  /** The packets of a message of at most 128 packets: their values are the data, each fits a frame, all but the last are
      full, and they are numbered from `pkg` on without reaching the top bit, which only the last one carries. */
  lemma {:induction false} SegmentsNumbered(cmd: nat, seqNo: byte, data: seq<byte>, pkg: byte)
    requires cmd < 0x4000 && seqNo < EA_BIT && pkg <= PKGNUM_MAX
    requires |data| <= (PKGNUM_MAX + 1 - pkg) * ValueMax(cmd)
    ensures var packets := Segment(cmd, seqNo, data, pkg);
      && Joined(packets) == data
      && pkg + |packets| <= PKGNUM_MAX + 1
      && (forall i :: 0 <= i < |packets| - 1 ==> packets[i].pkg == pkg + i < EA_BIT && |packets[i].val| == ValueMax(cmd))
      && packets[|packets| - 1].pkg == pkg + (|packets| - 1) + EA_BIT
      && (forall i :: 0 <= i < |packets| ==>
            && Fits(packets[i]) && packets[i].cmd == cmd && packets[i].seqNo == seqNo
            && (data != [] ==> packets[i].val != []))
    decreases |data|
  {
    hide Fits, ValueMax, Joined, LowBits;
    var max := ValueMax(cmd);
    var packets := Segment(cmd, seqNo, data, pkg);
    if |data| <= max {
      JoinedFirst(packets);
      JoinedNone();
      assert packets[1..] == [] && data + [] == data;
      ValueFits(packets[0]);
    } else {
      MoreRoom(pkg, |data|, max);
      SegmentsNumbered(cmd, seqNo, data[max..], pkg + 1);
      var rest := Segment(cmd, seqNo, data[max..], pkg + 1);
      assert packets == [packets[0]] + rest && packets[1..] == rest;
      JoinedFirst(packets);
      assert data == data[..max] + data[max..];
      ValueFits(packets[0]);
    }
  }

  lemma MoreRoom(pkg: byte, n: nat, max: nat)
    requires pkg <= PKGNUM_MAX && max < n <= (PKGNUM_MAX + 1 - pkg) * max
    ensures pkg < PKGNUM_MAX && n - max <= (PKGNUM_MAX + 1 - (pkg + 1)) * max
  {
    assert (PKGNUM_MAX + 1 - pkg) * max == (PKGNUM_MAX - pkg) * max + max;
    assert pkg == PKGNUM_MAX ==> (PKGNUM_MAX - pkg) * max == 0;
  }

  lemma ValueFits(pk: Packet)
    requires pk.cmd < 0x4000 && pk.seqNo < EA_BIT && |pk.val| <= ValueMax(pk.cmd)
    ensures Fits(pk)
  {
  }

  predicate AllFit(packets: seq<Packet>, seqNo: nat) {
    forall pk :: pk in packets ==> Fits(pk) && pk.seqNo == seqNo
  }

  /** The loop of usip_send_data from its i-th packet on. */
  function SendPackets(e: Ends, packets: seq<Packet>, seqNo: nat, fate: nat -> nat -> Fate, i: nat): (r: (Ends, bool))
    requires Linked(e, seqNo) && AllFit(packets, seqNo) && i <= |packets|
    requires forall p: nat :: AllNoticed(fate(p))
    ensures Linked(r.0, seqNo)
    decreases |packets| - i
  {
    hide Fits, AllNoticed, SendTlv;
    if i == |packets| then (e, true)
    else
      var (sent, ok) := SendTlv(e, packets[i], fate(i), 0);
      if ok then SendPackets(sent, packets, seqNo, fate, i + 1) else (sent, false)
  }

  function NextSeq(seqNo: nat): nat {
    if seqNo + 1 > SEQ_MAX then 0 else seqNo + 1
  }

  /** Sequence numbers count up and start again after 127. */
  lemma NextSeqWraps(seqNo: nat)
    requires seqNo < 128
    ensures NextSeq(seqNo) == (seqNo + 1) % 128
  {
  }

  function WithSeq(e: Ends): Ends {
    e.(me := e.me.(nextSeq := NextSeq(e.me.nextSeq), waitSeq := e.me.nextSeq))
  }

  /** usip_send_data; the second result is whether it returned USIP_OK. */
  function SendData(e: Ends, cmd: nat, data: seq<byte>, fate: nat -> nat -> Fate): (r: (Ends, bool))
    requires Level(e.me) && Level(e.peer) && e.me.nextSeq <= SEQ_MAX && cmd < 0x4000
    requires forall p: nat :: AllNoticed(fate(p))
  {
    hide SendPackets, AllNoticed, Segment, Fits;
    if |data| > (PKGNUM_MAX + 1) * ValueMax(cmd) then (e, false)
    else
      SegmentsNumbered(cmd, e.me.nextSeq, data, 0);
      SendPackets(WithSeq(e), Segment(cmd, e.me.nextSeq, data, 0), e.me.nextSeq, fate, 0)
  }

  /** Both ends are at rest and no earlier message is unfinished. */
  predicate AtRest(e: Ends) {
    Level(e.me) && !e.me.acked && e.me.nextSeq <= SEQ_MAX && Collecting(e.peer, [])
  }

  predicate AllInTime(fate: nat -> nat -> Fate, i: nat, count: nat) {
    forall p: nat :: i <= p < count ==> InTime(fate(p), 0)
  }

  lemma {:induction false} PacketsSent(e: Ends, packets: seq<Packet>, seqNo: nat, fate: nat -> nat -> Fate, i: nat,
      data: seq<byte>)
    requires Linked(e, seqNo) && AllFit(packets, seqNo) && i < |packets|
    requires forall p: nat :: AllNoticed(fate(p))
    requires forall p :: 0 <= p < |packets| ==>
      packets[p].val != [] && (packets[p].pkg as nat >= EA_BIT <==> p == |packets| - 1)
    requires Collecting(e.peer, data) && !e.me.acked
    ensures var (r, ok) := SendPackets(e, packets, seqNo, fate, i);
      var all := data + Joined(packets[i..]);
      var got := e.peer.delivered + [Message(packets[|packets| - 1].cmd, all, |all| % 0x10000)];
      && (ok <==> AllInTime(fate, i, |packets|))
      && (ok ==> Sending(r.me, e.me, false) && Collecting(r.peer, []) && r.peer.delivered == got)
      && (!ok ==> r.peer.delivered == e.peer.delivered || r.peer.delivered == got)
    decreases |packets| - i
  {
    hide Fits, AllNoticed, Collecting, InTime, SendTlv;
    var pk := packets[i];
    var mine := fate(i);
    assert AllInTime(fate, i, |packets|) <==> InTime(mine, 0) && AllInTime(fate, i + 1, |packets|);
    PacketSentOnce(e, pk, mine, 0, data);
    var (sent, ok) := SendTlv(e, pk, mine, 0);
    assert packets[i..][1..] == packets[i + 1..];
    assert data + Joined(packets[i..]) == data + pk.val + Joined(packets[i + 1..]);
    if i == |packets| - 1 {
      assert packets[i + 1..] == [] && data + pk.val + [] == data + pk.val;
    } else if ok {
      PacketsSent(sent, packets, seqNo, fate, i + 1, data + pk.val);
    }
  }

  /** End-to-end delivery. From rest, for every command below 2^14 and every message of 1 to 128 packets, whatever
      the link does: usip_send_data returns USIP_OK exactly when, of each packet, one of the first three
      transmissions arrives; then the peer's callback ran once more, with that command and those bytes, and both
      ends are at rest again, the next sequence number one further modulo 128. When it returns an error the callback ran at most once more, with that message. */
  lemma MessageDelivered(e: Ends, cmd: nat, data: seq<byte>, fate: nat -> nat -> Fate)
    requires AtRest(e) && cmd < 0x4000 && 1 <= |data| <= 128 * ValueMax(cmd)
    requires forall p: nat :: AllNoticed(fate(p))
    ensures var (r, ok) := SendData(e, cmd, data, fate);
      var got := e.peer.delivered + [Message(cmd, data, |data|)];
      && (ok <==> AllInTime(fate, 0, |Segment(cmd, e.me.nextSeq, data, 0)|))
      && (ok ==> AtRest(r) && r.peer.delivered == got && r.me.delivered == e.me.delivered)
      && (ok ==> r.me.nextSeq == (e.me.nextSeq + 1) % 128)
      && (!ok ==> r.peer.delivered == e.peer.delivered || r.peer.delivered == got)
  {
    hide SendPackets, AllNoticed, Segment, Fits, AllInTime, NextSeq;
    NextSeqWraps(e.me.nextSeq);
    var packets := Segment(cmd, e.me.nextSeq, data, 0);
    SegmentsNumbered(cmd, e.me.nextSeq, data, 0);
    PacketsSent(WithSeq(e), packets, e.me.nextSeq, fate, 0, []);
    assert packets[0..] == packets && [] + data == data;
  }

  /** A message that needs more than 128 packets is refused and nothing is sent. */
  lemma TooLongRefused(e: Ends, cmd: nat, data: seq<byte>, fate: nat -> nat -> Fate)
    requires AtRest(e) && cmd < 0x4000 && |data| > 128 * ValueMax(cmd)
    requires forall p: nat :: AllNoticed(fate(p))
    ensures SendData(e, cmd, data, fate) == (e, false)
  {
  }

  // ---- an empty message ----

  /** No packet is kept, but the mark of a last one is. */
  predicate Spoiled(st: Station) {
    Level(st) && st.lastSeen && Held(st.list) == [] && st.total == 0
  }

  lemma EmptyPacketTransmitted(e: Ends, pk: Packet, fate: Fate)
    requires Linked(e, pk.seqNo) && Fits(pk) && Noticed(fate) && pk.val == [] && pk.pkg as nat >= EA_BIT
    requires Collecting(e.peer, []) && !e.me.acked
    ensures var r := Transmit(e, pk, fate);
      && Linked(r, pk.seqNo) && r.me.acked == fate.Arrives? && r.peer.delivered == e.peer.delivered
      && if fate.Arrives? then Spoiled(r.peer) else Collecting(r.peer, [])
  {
    hide Hear, Legible, Run, Held, Wire, Body, Listed;
    match fate
    case Lost =>
    case Damaged(body) =>
      DamagedTaken(e.peer, body);
      KeptBlank(e.peer, [], Hear(e.peer, Wire(body)).0);
    case Arrives =>
      PacketTaken(e.peer, pk.pkg, pk.seqNo, pk.cmd, TAG_RST, pk.val);
      AckTaken(e.me, NodeOf(pk));
  }

  lemma {:induction false} EmptyPacketSent(e: Ends, pk: Packet, fate: nat -> Fate, k: nat)
    requires Linked(e, pk.seqNo) && Fits(pk) && AllNoticed(fate) && pk.val == [] && pk.pkg as nat >= EA_BIT
    requires Collecting(e.peer, []) && !e.me.acked && k <= MAX_ARQ_TIMES
    ensures var (r, ok) := SendTlv(e, pk, fate, k);
      && (ok <==> InTime(fate, k)) && r.peer.delivered == e.peer.delivered
      && (ok ==> Spoiled(r.peer)) && (!ok ==> Spoiled(r.peer) || Collecting(r.peer, []))
    decreases MAX_ARQ_TIMES - k
  {
    hide Transmit, Noticed, Fits, Spoiled, Collecting;
    assert Noticed(fate(k));
    EmptyPacketTransmitted(e, pk, fate(k));
    if k < MAX_ARQ_TIMES && !fate(k).Arrives? {
      EmptyPacketSent(Transmit(e, pk, fate(k)), pk, fate, k + 1);
    }
  }

  /** An empty message is never delivered, whatever the link does: the send succeeds exactly when one of the first
      three transmissions of its one packet arrives, no callback runs, and after a success the mark of a last packet
      stays behind at the peer. */
  lemma EmptyMessageLost(e: Ends, cmd: nat, fate: nat -> nat -> Fate)
    requires AtRest(e) && cmd < 0x4000
    requires forall p: nat :: AllNoticed(fate(p))
    ensures var (r, ok) := SendData(e, cmd, [], fate);
      && (ok <==> InTime(fate(0), 0)) && r.peer.delivered == e.peer.delivered
      && (ok ==> Spoiled(r.peer) && !AtRest(r))
  {
    hide SendTlv, AllNoticed, ShortToEA, InTime, Held;
    var me := WithSeq(e).me;
    var pk := Packet(WithBit(0), me.waitSeq, cmd, []);
    assert Segment(cmd, e.me.nextSeq, [], 0) == [pk];
    SegmentsNumbered(cmd, e.me.nextSeq, [], 0);
    EmptyPacketSent(WithSeq(e), pk, fate(0), 0);
    var (r, ok) := SendTlv(WithSeq(e), pk, fate(0), 0);
    assert ok ==> SendPackets(r, [pk], me.waitSeq, fate, 1) == (r, true);
    assert SendPackets(WithSeq(e), [pk], me.waitSeq, fate, 0) == (r, ok);
  }

  /** The mark spoils the next message of more than one packet: its first packet is delivered alone as if it were
      the whole; and a damaged frame makes the callback run for command 0 with no bytes. */
  lemma SpoiledTakes(e: Ends, pk: Packet, fate: Fate)
    requires Linked(e, pk.seqNo) && Fits(pk) && Noticed(fate) && pk.val != [] && (pk.pkg as nat) < EA_BIT
    requires Spoiled(e.peer)
    ensures var r := Transmit(e, pk, fate);
      match fate
      case Lost => r == e
      case Damaged(_) => Collecting(r.peer, []) && r.peer.delivered == e.peer.delivered + [Message(0, [], 0)]
      case Arrives =>
        Collecting(r.peer, []) && r.peer.delivered == e.peer.delivered + [Message(pk.cmd, pk.val, |pk.val|)]
  {
    hide Hear, Legible, Run, Held, Wire, Body;
    HeldNothing();
    match fate
    case Lost =>
    case Damaged(body) =>
      DamagedTaken(e.peer, body);
      HeldOneMore(e.peer.list, BLANK);
      assert [] + BLANK.val == [];
    case Arrives =>
      PacketTaken(e.peer, pk.pkg, pk.seqNo, pk.cmd, TAG_RST, pk.val);
      AckTaken(e.me, NodeOf(pk));
      HeldOneMore(e.peer.list, NodeOf(pk));
      assert [] + pk.val == pk.val;
      ValueLength(pk);
  }

  lemma ValueLength(pk: Packet)
    requires Fits(pk)
    ensures |pk.val| <= FRM_DATA_MAX_LEN
  {
  }

  // ---- a conversation ----

  datatype Request = Request(cmd: nat, data: seq<byte>, fate: nat -> nat -> Fate)

  ghost predicate Proper(q: Request) {
    && q.cmd < 0x4000 && 1 <= |q.data| <= 128 * ValueMax(q.cmd)
    && forall p: nat :: AllNoticed(q.fate(p))
  }

  /** The sends in turn, until one fails. */
  function Converse(e: Ends, requests: seq<Request>): (r: (Ends, bool))
    requires AtRest(e) && forall q :: q in requests ==> Proper(q)
    ensures r.1 ==> AtRest(r.0)
    decreases |requests|
  {
    hide AtRest, SendData, AllNoticed;
    if requests == [] then (e, true)
    else
      var q := requests[0];
      assert q in requests && Proper(q);
      MessageDelivered(e, q.cmd, q.data, q.fate);
      assert Level(e.me) && Level(e.peer) && e.me.nextSeq <= SEQ_MAX by { RestIsLevel(e); }
      var (sent, ok) := SendData(e, q.cmd, q.data, q.fate);
      if ok then Converse(sent, requests[1..]) else (sent, false)
  }

  lemma RestIsLevel(e: Ends)
    requires AtRest(e)
    ensures Level(e.me) && Level(e.peer) && e.me.nextSeq <= SEQ_MAX
  {
  }

  function MessagesOf(requests: seq<Request>): seq<Message> {
    if requests == [] then []
    else [Message(requests[0].cmd, requests[0].data, |requests[0].data|)] + MessagesOf(requests[1..])
  }

  /** When every send returned USIP_OK the peer's callbacks are exactly the messages, in order. */
  lemma {:induction false} ConversationDelivered(e: Ends, requests: seq<Request>)
    requires AtRest(e) && forall q :: q in requests ==> Proper(q)
    ensures var (r, ok) := Converse(e, requests);
      ok ==> r.peer.delivered == e.peer.delivered + MessagesOf(requests)
    decreases |requests|
  {
    hide AtRest, SendData, AllNoticed;
    if requests != [] {
      var q := requests[0];
      assert q in requests && Proper(q);
      RestIsLevel(e);
      MessageDelivered(e, q.cmd, q.data, q.fate);
      var (sent, ok) := SendData(e, q.cmd, q.data, q.fate);
      if ok {
        ConversationDelivered(sent, requests[1..]);
      }
    }
  }

  /** Each of them has used one sequence number; after 127 comes 0. */
  lemma {:induction false} ConversationNumbered(e: Ends, requests: seq<Request>)
    requires AtRest(e) && forall q :: q in requests ==> Proper(q)
    ensures var (r, ok) := Converse(e, requests);
      ok ==> r.me.nextSeq == (e.me.nextSeq + |requests|) % 128
    decreases |requests|
  {
    hide AtRest, SendData, AllNoticed, ValueMax, MessagesOf;
    RestIsLevel(e);
    if requests != [] {
      var q := requests[0];
      assert q in requests && Proper(q);
      MessageDelivered(e, q.cmd, q.data, q.fate);
      var (sent, ok) := SendData(e, q.cmd, q.data, q.fate);
      if ok {
        ConversationNumbered(sent, requests[1..]);
      }
    }
  }
}
