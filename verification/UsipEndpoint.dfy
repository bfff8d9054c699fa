/** The routines of usip.c on their globals, against the functions of UsipStation and UsipDelivery. */
module UsipEndpoint {
  import opened Bytes
  import opened UsipCrc
  import opened UsipFrame
  import opened UsipReceiver
  import opened UsipFraming
  import opened UsipStation
  import opened UsipDelivery

  /** One station: its receiver, its send buffer and the globals of the layers above. `delivered` is the history
      of the command callback. */
  class Endpoint {
    const receiver: Receiver
    const sendBuf: array<byte>
    var readIndex: nat
    var lastSeen: bool
    var nextSeq: nat
    var waitSeq: nat
    var acked: bool
    var list: seq<Node>
    var total: nat
    var delivered: seq<Message>

    ghost const Repr: set<object> :=
      {this, receiver, receiver.rcvbuf, receiver.pos, receiver.len, sendBuf}

    ghost predicate Wired()
      reads this, receiver
    {
      receiver.Ready() && sendBuf.Length == FRM_MAX_LEN && sendBuf != receiver.rcvbuf
    }

    ghost function State(): (st: Station)
      requires Wired()
      reads this, receiver, receiver.rcvbuf, receiver.pos, receiver.len
      ensures UsipReceiver.Valid(st.rx)
    {
      Station(receiver.State(), readIndex, lastSeen, nextSeq, waitSeq, acked, list, total, delivered)
    }

    constructor ()
      ensures Wired() && fresh(Repr) && Level(State()) && !acked && nextSeq == 0
      ensures Collecting(State(), []) && delivered == []
    {
      receiver := new Receiver();
      sendBuf := new byte[FRM_MAX_LEN](_ => 0);
      readIndex, lastSeen, nextSeq, waitSeq, acked := 0, false, 0, 0, false;
      list, total, delivered := [], 0, [];
    }

    // ---- reading a frame ----

    method CrcMatches(p: nat, n: nat) returns (ok: bool)
      requires 0 < n && p + n <= receiver.rcvbuf.Length
      ensures ok <==> CrcOk(receiver.rcvbuf[p..p + n])
    {
      hide CrcStep;
      var crc: byte := 0;
      var i := 0;
      ghost var body := receiver.rcvbuf[p..p + n];
      while i < n - 1
        invariant 0 <= i <= n - 1
        invariant crc == Crc8(body[..i])
      {
        assert body[..i + 1][..i] == body[..i];
        crc := CrcStep(crc, receiver.rcvbuf[p + i]);
        i := i + 1;
      }
      ok := crc == receiver.rcvbuf[p + n - 1];
    }

    method ReadEA(p: nat) returns (value: nat, used: nat)
      requires EAInside(receiver.rcvbuf[..], p)
      ensures (value, used) == EAToShort(receiver.rcvbuf[..], p)
    {
      var tmp := receiver.rcvbuf[p];
      if tmp as nat >= EA_BIT {
        return tmp as nat - EA_BIT, 1;
      }
      value := tmp as nat * 128;
      tmp := receiver.rcvbuf[p + 1];
      if (tmp as nat) < EA_BIT {
        return value, 0;
      }
      value := value + (tmp as nat - EA_BIT);
      used := 2;
    }

    method CopyValue(p: nat, n: nat) returns (val: seq<byte>)
      requires p + n <= receiver.rcvbuf.Length
      ensures val == receiver.rcvbuf[p..p + n]
    {
      val := [];
      var i := 0;
      while i < n
        invariant 0 <= i <= n
        invariant val == receiver.rcvbuf[p..p + i]
      {
        val := val + [receiver.rcvbuf[p + i]];
        i := i + 1;
      }
    }

    /** The fields of the accepted frame at `p`. */
    method ReadFields(p: nat) returns (node: Node)
      requires Readable(receiver.rcvbuf[..], p)
      ensures node == ReadNode(receiver.rcvbuf[..], p)
    {
      hide EAToShort;
      var pkg := receiver.rcvbuf[p];
      var seqNo := receiver.rcvbuf[p + 1];
      var at := p + 2;
      var cmd, used := ReadEA(at);
      at := at + used;
      var tag;
      tag, used := ReadEA(at);
      at := at + used;
      var len;
      len, used := ReadEA(at);
      at := at + used;
      var val := CopyValue(at, len);
      node := Node(LowBits(pkg), seqNo, cmd, tag, val);
    }

    /** usip_send_ack. */
    method SendAck(node: Node) returns (sent: seq<byte>)
      requires Wired() && node.pkg < EA_BIT && node.seqNo < EA_BIT && node.cmd < 0x8000
      modifies sendBuf
      ensures sent == Wire(AckBody(node)) && sent != []
    {
      hide ShortToEA, Crc8;
      var len := ConvertTlv(sendBuf, EA_BIT, node.seqNo + EA_BIT, node.cmd, TAG_ACK, [node.pkg]);
      sent := SendOneFrame(sendBuf, len, AckBody(node));
    }

    /** The slot has been read. */
    method Consume(i: nat, clear: bool)
      requires Wired() && readIndex <= SKB_NUM && i == ReadSlot(State())
      modifies this`readIndex, receiver.len
      ensures Wired() && State() == Consumed(old(State()), clear)
    {
      ghost var slots := receiver.Slots();
      if clear {
        receiver.len[i] := 0;
        assert receiver.Slots() == slots[i := slots[i].(len := 0)];
      } else {
        assert receiver.Slots() == slots;
      }
      readIndex := i + 1;
    }

    method TakeAck(i: nat, seqNo: nat) returns (ret: nat)
      requires Wired() && readIndex <= SKB_NUM && i == ReadSlot(State())
      modifies this`readIndex, this`lastSeen, this`acked, receiver.len
      ensures Wired()
      ensures var st := old(State());
        if st.waitSeq == seqNo
        then ret == USIP_OK && State() == Consumed(st, true).(lastSeen := false, acked := true)
        else ret == USIP_ERROR && State() == st.(lastSeen := false, readIndex := i)
    {
      lastSeen := false;
      if waitSeq == seqNo {
        acked := true;
        Consume(i, true);
        return USIP_OK;
      }
      readIndex := i;
      return USIP_ERROR;
    }

    method TakePacket(i: nat, p: nat) returns (ret: nat, node: Node, sent: seq<byte>)
      requires Wired() && readIndex <= SKB_NUM && i == ReadSlot(State())
      requires Readable(receiver.rcvbuf[..], p) && receiver.rcvbuf[p + 1] as nat < EA_BIT
      modifies this`readIndex, this`lastSeen, receiver.len, sendBuf
      ensures Wired()
      ensures var st := old(State());
        && node == ReadNode(st.rx.buf, p) && ret == |node.val| && sent == Wire(AckBody(node)) && sent != []
        && State() == Consumed(st, false).(lastSeen := st.lastSeen || st.rx.buf[p] as nat >= EA_BIT)
    {
      hide EAToShort, ReadNode, Wire, AckBody;
      if receiver.rcvbuf[p] as nat >= EA_BIT {
        lastSeen := true;
      }
      node := ReadFields(p);
      sent := SendAck(node);
      Consume(i, false);
      ret := |node.val|;
    }

    /** receive_one_frame_to_list. */
    method ReceiveFrameToList() returns (ret: nat, node: Node, sent: seq<byte>)
      requires Wired() && Legible(State())
      modifies this`readIndex, this`lastSeen, this`acked, receiver.len, sendBuf
      ensures Wired()
      ensures Reception(State(), ret, node, sent) == FrameToList(old(State()))
      ensures sent == [] ==> sendBuf[..] == old(sendBuf[..])
    {
      hide Readable, ReadNode, CrcOk, AckBody, Wire, Consumed;
      var i := if readIndex == SKB_NUM then 0 else readIndex;
      var p, n := receiver.pos[i], receiver.len[i];
      node, sent := BLANK, [];
      if n == 0 {
        Consume(i, false);
        return USIP_ERROR, node, sent;
      }
      if n > FRM_DATA_MAX_LEN {
        Consume(i, true);
        return USIP_ERROR, node, sent;
      }
      var ok := CrcMatches(p, n);
      assert receiver.State().buf[p..p + n] == receiver.rcvbuf[p..p + n];
      if !ok {
        Consume(i, true);
        return USIP_ERROR, node, sent;
      }
      assert Passes(State().rx, i);
      var pkg, seqNo := receiver.rcvbuf[p], receiver.rcvbuf[p + 1];
      if seqNo as nat >= EA_BIT {
        node := BLANK.(pkg := LowBits(pkg), seqNo := seqNo);
        ret := TakeAck(i, LowBits(seqNo));
        return;
      }
      ret, node, sent := TakePacket(i, p);
    }

    // ---- usip_rec_task ----

    /** get_data_frame_list. */
    method GetData() returns (data: seq<byte>)
      ensures data == Held(list)
    {
      data := [];
      var i := 0;
      while i < |list|
        invariant 0 <= i <= |list|
        invariant data == Held(list[..i])
      {
        assert list[..i + 1][..i] == list[..i];
        data := data + list[i].val;
        i := i + 1;
      }
      assert list[..|list|] == list;
    }

    /** list_insert, and the callback once the last packet is in. */
    method Insert(node: Node)
      requires Wired()
      modifies this`list, this`total, this`lastSeen, this`delivered
      ensures Wired() && State() == Listed(old(State()), node)
    {
      hide Held;
      total := (total + |node.val|) % 0x10000;
      list := list + [node];
      if lastSeen {
        lastSeen := false;
        var data := GetData();
        delivered := delivered + [Message(node.cmd, data, total)];
        total := 0;
        list := [];
      }
    }

    /** One turn of usip_rec_task, the semaphore posted. */
    method TakeTurn() returns (sent: seq<byte>)
      requires Wired() && Legible(State())
      modifies Repr
      ensures Wired() && (State(), sent) == TaskTurn(old(State()))
      ensures sent == [] ==> sendBuf[..] == old(sendBuf[..])
    {
      hide FrameToList, Listed, Legible;
      QuietLegible(State());
      receiver.signal := false;
      assert receiver.Slots() == old(receiver.Slots());
      assert State() == Quiet(old(State()));
      var ret, node;
      ret, node, sent := ReceiveFrameToList();
      if ret > USIP_OK {
        Insert(node);
      }
    }

    /** Bytes come in over the line, and usip_rec_task runs if they completed a frame. */
    method HearLine(line: seq<byte>) returns (sent: seq<byte>)
      requires Wired() && Legible(State().(rx := Run(State().rx, line)))
      modifies Repr
      ensures Wired() && (State(), sent) == Hear(old(State()), line)
      ensures sent == [] ==> sendBuf[..] == old(sendBuf[..])
    {
      hide Legible, TaskTurn, Run;
      receiver.ReceiveAll(line);
      assert State() == old(State()).(rx := Run(old(State()).rx, line));
      sent := [];
      if receiver.signal {
        sent := TakeTurn();
      }
    }

    // ---- sending ----

    ghost predicate Apart(peer: Endpoint)
      reads this, receiver, peer, peer.receiver
    {
      Wired() && peer.Wired() && Repr !! peer.Repr
    }

    ghost function Both(peer: Endpoint): (e: Ends)
      requires Apart(peer)
      reads Repr, peer.Repr
    {
      Ends(State(), peer.State())
    }

    /** One transmission of the line `line` over a link with the given fate, up to the end of the sender's wait. */
    method TransmitLine(peer: Endpoint, line: seq<byte>, fate: Fate, ghost pk: Packet)
      requires Apart(peer) && Linked(Both(peer), pk.seqNo) && Fits(pk) && Noticed(fate) && line == Wire(BodyOf(pk))
      modifies Repr, peer.Repr
      ensures sendBuf[..] == old(sendBuf[..])
      ensures Apart(peer) && Both(peer) == Transmit(old(Both(peer)), pk, fate)
    {
      hide Legible, Hear, Run, Wire, Body;
      match fate {
        case Lost =>
        case Damaged(body) =>
          DamagedTaken(peer.State(), body);
          var ack := peer.HearLine(Wire(body));
        case Arrives =>
          PacketTaken(peer.State(), pk.pkg, pk.seqNo, pk.cmd, TAG_RST, pk.val);
          AckTaken(State(), NodeOf(pk));
          var ack := peer.HearLine(line);
          ack := HearLine(ack);
      }
    }

    /** usip_send_tlv; the result is whether it returned USIP_OK. */
    method SendTlvTo(peer: Endpoint, pkg: byte, seqNo: byte, cmd: nat, val: seq<byte>, fate: nat -> Fate)
      returns (ok: bool)
      requires Apart(peer) && Linked(Both(peer), seqNo) && Fits(Packet(pkg, seqNo, cmd, val)) && AllNoticed(fate)
      modifies Repr, peer.Repr
      ensures Apart(peer)
      ensures (Both(peer), ok) == SendTlv(old(Both(peer)), Packet(pkg, seqNo, cmd, val), fate, 0)
    {
      hide Transmit, Body, Noticed, Linked;
      ghost var pk := Packet(pkg, seqNo, cmd, val);
      ghost var start := Both(peer);
      assert |BodyOf(pk)| <= FRM_DATA_MAX_LEN;
      var len := ConvertTlv(sendBuf, pkg, seqNo, cmd, TAG_RST, val);
      assert Both(peer) == start;
      var loopCnt := 0;
      while true
        invariant loopCnt <= MAX_ARQ_TIMES && Apart(peer) && Linked(Both(peer), seqNo)
        invariant len <= sendBuf.Length && sendBuf[..len] == [END] + BodyOf(pk) + [END]
        invariant SendTlv(Both(peer), pk, fate, loopCnt) == SendTlv(start, pk, fate, 0)
        decreases MAX_ARQ_TIMES - loopCnt
      {
        var line := SendOneFrame(sendBuf, len, BodyOf(pk));
        assert Noticed(fate(loopCnt));
        ghost var sendable := sendBuf[..];
        TransmitLine(peer, line, fate(loopCnt), pk);
        assert sendBuf[..len] == sendable[..len];
        if loopCnt == MAX_ARQ_TIMES {
          return false;
        }
        if acked {
          acked := false;
          return true;
        }
        loopCnt := loopCnt + 1;
      }
    }

    method GetSeq() returns (seqNo: byte)
      requires Wired() && nextSeq <= SEQ_MAX
      modifies this`nextSeq
      ensures Wired() && seqNo as nat == old(nextSeq) && State() == old(State()).(nextSeq := NextSeq(seqNo))
    {
      seqNo := nextSeq;
      nextSeq := nextSeq + 1;
      if nextSeq > SEQ_MAX {
        nextSeq := 0;
      }
    }

    /** The loop of usip_send_data, the sequence number chosen. */
    method SendPacketsTo(peer: Endpoint, seqNo: byte, cmd: nat, data: seq<byte>, fate: nat -> nat -> Fate)
      returns (ok: bool)
      requires Apart(peer) && Linked(Both(peer), seqNo) && cmd < 0x4000
      requires AllFit(Segment(cmd, seqNo, data, 0), seqNo) && |Segment(cmd, seqNo, data, 0)| <= PKGNUM_MAX + 1
      requires forall p: nat :: AllNoticed(fate(p))
      modifies Repr, peer.Repr
      ensures Apart(peer)
      ensures (Both(peer), ok) == SendPackets(old(Both(peer)), Segment(cmd, seqNo, data, 0), seqNo, fate, 0)
    {
      hide SendTlv, AllNoticed, Fits, Linked, Segment, Both, Apart;
      ghost var start := Both(peer);
      ghost var packets := Segment(cmd, seqNo, data, 0);
      var max := ValueMax(cmd);
      var packageNum: byte, sent := 0, 0;
      assert data[0..] == data && packets[0..] == packets;
      while |data| - sent > max
        invariant 0 <= sent <= |data| && packageNum as nat < |packets|
        invariant Apart(peer) && Linked(Both(peer), seqNo)
        invariant packets[packageNum..] == Segment(cmd, seqNo, data[sent..], packageNum)
        invariant SendPackets(Both(peer), packets, seqNo, fate, packageNum) == SendPackets(start, packets, seqNo, fate, 0)
      {
        SegmentNext(packets, cmd, seqNo, data[sent..], packageNum, packageNum);
        assert data[sent..][..max] == data[sent..sent + max] && data[sent..][max..] == data[sent + max..];
        ok := SendTlvTo(peer, packageNum, seqNo, cmd, data[sent..sent + max], fate(packageNum));
        if !ok {
          return;
        }
        packageNum := (packageNum + 1) % 256;
        sent := sent + max;
      }
      SegmentNext(packets, cmd, seqNo, data[sent..], packageNum, packageNum);
      ok := SendTlvTo(peer, WithBit(packageNum), seqNo, cmd, data[sent..], fate(packageNum));
    }

    /** usip_send_data; the result is whether it returned USIP_OK. */
    method SendDataTo(peer: Endpoint, cmd: nat, data: seq<byte>, fate: nat -> nat -> Fate) returns (ok: bool)
      requires Apart(peer) && Level(State()) && Level(peer.State()) && nextSeq <= SEQ_MAX && cmd < 0x4000
      requires forall p: nat :: AllNoticed(fate(p))
      modifies Repr, peer.Repr
      ensures Apart(peer) && (Both(peer), ok) == SendData(old(Both(peer)), cmd, data, fate)
    {
      hide SendPackets, AllNoticed, Fits, Segment;
      if |data| > (PKGNUM_MAX + 1) * ValueMax(cmd) {
        return false;
      }
      var seqNo := GetSeq();
      waitSeq := seqNo;
      assert Both(peer) == WithSeq(old(Both(peer)));
      SegmentsNumbered(cmd, seqNo, data, 0);
      ok := SendPacketsTo(peer, seqNo, cmd, data, fate);
    }
  }
}
