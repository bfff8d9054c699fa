/** One end of the link: receive_one_frame_to_list and one turn of usip_rec_task, as functions on its state. */
module UsipStation {
  import opened Bytes
  import opened UsipCrc
  import opened UsipFrame
  import opened UsipReceiver
  import opened UsipFraming

  /** frame_data_list: one packet kept until its message is complete. */
  datatype Node = Node(pkg: nat, seqNo: nat, cmd: nat, tag: nat, val: seq<byte>)

  const BLANK: Node := Node(0, 0, 0, 0, [])

  /** What the command callback is given. */
  datatype Message = Message(cmd: nat, data: seq<byte>, len: nat)

  /** The globals of a station; `acked` is the binary semaphore its sender waits on, `list`, `total` and `delivered`
      are the packets kept, their length, and the callbacks made so far. */
  datatype Station = Station(
    rx: Rx, readIndex: nat, lastSeen: bool, nextSeq: nat, waitSeq: nat, acked: bool,
    list: seq<Node>, total: nat, delivered: seq<Message>)

  /** receive_one_frame_to_list: its result as the caller's unsigned byte, the packet, and what it sends. */
  datatype Reception = Reception(st: Station, ret: nat, node: Node, sent: seq<byte>)

  const USIP_OK: nat := 0
  const USIP_ERROR: nat := 0xFF

  function LowBits(b: byte): (v: nat)
    ensures v < EA_BIT
  {
    b as nat % EA_BIT
  }

  function WithBit(b: byte): (v: byte)
    ensures v >= EA_BIT && LowBits(v) == LowBits(b)
  {
    if b as nat >= EA_BIT then b else b + EA_BIT
  }

  // ---- one packet ----

  /** The fields that follow the sequence number lie inside the buffer, and the value inside its array. */
  predicate Readable(c: seq<byte>, p: nat) {
    && EAInside(c, p + 2)
    && var tagAt := p + 2 + EAToShort(c, p + 2).1;
    EAInside(c, tagAt)
    && var lenAt := tagAt + EAToShort(c, tagAt).1;
    EAInside(c, lenAt)
    && EAToShort(c, lenAt).0 <= FRM_DATA_MAX_LEN
    && lenAt + EAToShort(c, lenAt).1 + EAToShort(c, lenAt).0 <= |c|
  }

  function ReadNode(c: seq<byte>, p: nat): (node: Node)
    requires Readable(c, p)
    ensures |node.val| <= FRM_DATA_MAX_LEN && node.cmd < 0x8000 && node.pkg < EA_BIT
    ensures p + 1 < |c| && node.seqNo == c[p + 1]
  {
    var tagAt := p + 2 + EAToShort(c, p + 2).1;
    var lenAt := tagAt + EAToShort(c, tagAt).1;
    var valAt := lenAt + EAToShort(c, lenAt).1;
    Node(LowBits(c[p]), c[p + 1], EAToShort(c, p + 2).0, EAToShort(c, tagAt).0,
         c[valAt..valAt + EAToShort(c, lenAt).0])
  }

  /** What convert_tlv_to_usip_frame wrote is what receive_one_frame_to_list reads. */
  lemma PacketReadsBack(c: seq<byte>, p: nat, pkg: byte, seqNo: byte, cmd: nat, tag: nat, val: seq<byte>)
    requires cmd < 0x4000 && tag < 0x4000 && |val| <= FRM_DATA_MAX_LEN
    requires At(c, p, Body(pkg, seqNo, cmd, tag, val))
    ensures p + 2 < |c| && Readable(c, p) && c[p] == pkg && c[p + 1] == seqNo
    ensures ReadNode(c, p) == Node(LowBits(pkg), seqNo, cmd, tag, val)
  {
    hide Crc8, At, EAToShort, ShortToEA;
    var crc := Crc8(Fields(pkg, seqNo, cmd, tag, val));
    var a, b, l := ShortToEA(cmd), ShortToEA(tag), ShortToEA(|val|);
    var head := [pkg, seqNo];
    AtConcat(c, p, head + a + b + l + val, [crc]);
    AtConcat(c, p, head + a + b + l, val);
    AtConcat(c, p, head + a + b, l);
    AtConcat(c, p, head + a, b);
    AtConcat(c, p, head, a);
    AtIndex(c, p, head, 0);
    AtIndex(c, p, head, 1);
    EAReadsAt(c, p + 2, cmd);
    EAReadsAt(c, p + 2 + |a|, tag);
    EAReadsAt(c, p + 2 + |a| + |b|, |val|);
    AtSlice(c, p + 2 + |a| + |b| + |l|, val);
  }

  lemma AtSlice(c: seq<byte>, p: nat, t: seq<byte>)
    requires At(c, p, t)
    ensures p + |t| <= |c| && c[p..p + |t|] == t
  {
  }

  // ---- reading one frame ----

  /** The index of the slot that is read next. */
  function ReadSlot(st: Station): (i: nat) {
    if st.readIndex == SKB_NUM then 0 else st.readIndex
  }

  /** The frame to be read passes the length and CRC checks. */
  predicate Passes(rx: Rx, i: nat)
    requires i < |rx.slots|
  {
    && 0 < rx.slots[i].len <= FRM_DATA_MAX_LEN
    && rx.slots[i].pos + rx.slots[i].len <= |rx.buf|
    && CrcOk(rx.buf[rx.slots[i].pos..rx.slots[i].pos + rx.slots[i].len])
  }

  /** Everything the routine reads lies inside its arrays. */
  predicate Legible(st: Station) {
    && Valid(st.rx) && st.readIndex <= SKB_NUM
    && var slot := st.rx.slots[ReadSlot(st)];
    && (slot.len <= FRM_DATA_MAX_LEN ==> slot.pos + slot.len <= RCV_BUFF)
    && (Passes(st.rx, ReadSlot(st)) ==>
          slot.pos + 1 < RCV_BUFF && (st.rx.buf[slot.pos + 1] as nat < EA_BIT ==> Readable(st.rx.buf, slot.pos)))
  }

  function AckBody(node: Node): (b: seq<byte>)
    requires node.pkg < EA_BIT && node.seqNo < EA_BIT && node.cmd < 0x8000
    ensures Sendable(b)
  {
    Body(EA_BIT, node.seqNo + EA_BIT, node.cmd, TAG_ACK, [node.pkg])
  }

  /** The slot is used up; its length is cleared except after an accepted or an empty frame. */
  function Consumed(st: Station, clear: bool): (r: Station)
    requires Valid(st.rx) && st.readIndex <= SKB_NUM
  {
    var i := ReadSlot(st);
    st.(readIndex := i + 1,
        rx := if clear then st.rx.(slots := st.rx.slots[i := st.rx.slots[i].(len := 0)]) else st.rx)
  }

  /** receive_one_frame_to_list. A rejected frame gives -1, which the caller sees as 255. */
  function FrameToList(st: Station): (r: Reception)
    requires Legible(st)
  {
    var slot := st.rx.slots[ReadSlot(st)];
    if slot.len == 0 then Reception(Consumed(st, false), USIP_ERROR, BLANK, [])
    else if !Passes(st.rx, ReadSlot(st)) then Reception(Consumed(st, true), USIP_ERROR, BLANK, [])
    else
      var last := st.lastSeen || st.rx.buf[slot.pos] as nat >= EA_BIT;
      var seqNo := st.rx.buf[slot.pos + 1];
      if seqNo as nat >= EA_BIT then
        var node := BLANK.(pkg := LowBits(st.rx.buf[slot.pos]), seqNo := seqNo);
        if st.waitSeq == LowBits(seqNo)
        then Reception(Consumed(st, true).(lastSeen := false, acked := true), USIP_OK, node, [])
        else Reception(st.(lastSeen := false, readIndex := ReadSlot(st)), USIP_ERROR, node, [])
      else
        var node := ReadNode(st.rx.buf, slot.pos);
        Reception(Consumed(st, false).(lastSeen := last), |node.val|, node, Wire(AckBody(node)))
  }

  // ---- one turn of usip_rec_task ----

  function Held(list: seq<Node>): (data: seq<byte>) {
    if list == [] then [] else Held(list[..|list| - 1]) + list[|list| - 1].val
  }

  /** The packet joins the list; with the last one the callback runs on the data of all of them. */
  function Listed(st: Station, node: Node): (r: Station) {
    var list := st.list + [node];
    var total := (st.total + |node.val|) % 0x10000;
    if st.lastSeen
    then st.(lastSeen := false, list := [], total := 0,
             delivered := st.delivered + [Message(node.cmd, Held(list), total)])
    else st.(list := list, total := total)
  }

  /** The semaphore has been taken. */
  function Quiet(st: Station): Station {
    st.(rx := st.rx.(signal := false))
  }

  lemma QuietLegible(st: Station)
    requires Legible(st)
    ensures Legible(Quiet(st))
  {
    assert ReadSlot(Quiet(st)) == ReadSlot(st) && Passes(Quiet(st).rx, ReadSlot(st)) == Passes(st.rx, ReadSlot(st));
  }

  /** One turn of usip_rec_task, the semaphore just taken. */
  function TaskTurn(st: Station): (r: (Station, seq<byte>))
    requires Legible(st)
  {
    QuietLegible(st);
    var got := FrameToList(Quiet(st));
    (if got.ret > USIP_OK then Listed(got.st, got.node) else got.st, got.sent)
  }

  /** The bytes of a line come in; usip_rec_task runs if they completed a frame. */
  function Hear(st: Station, line: seq<byte>): (r: (Station, seq<byte>))
    requires Valid(st.rx) && Legible(st.(rx := Run(st.rx, line)))
  {
    var heard := st.(rx := Run(st.rx, line));
    if heard.rx.signal then TaskTurn(heard) else (heard, [])
  }

  // ---- a frame that comes in whole ----

  /** Every frame received has been read. */
  predicate Level(st: Station) {
    && Idle(st.rx) && !st.rx.signal
    && st.readIndex <= SKB_NUM && st.readIndex % SKB_NUM == st.rx.slot
  }

  /** What the link did to the station apart from the receive buffer: Level again, and the fields given. */
  predicate Became(st: Station, r: Station, want: Station) {
    && Level(r)
    && r.(rx := st.rx, readIndex := st.readIndex) == want.(rx := st.rx, readIndex := st.readIndex)
  }

  /** A frame has just been received by a station that had read all the others. */
  predicate Arrived(st: Station, body: seq<byte>, heard: Station) {
    && heard == st.(rx := heard.rx)
    && Idle(heard.rx) && heard.rx.signal
    && heard.readIndex <= SKB_NUM && heard.readIndex % SKB_NUM == st.rx.slot == ReadSlot(heard)
    && heard.rx.slot == (st.rx.slot + 1) % SKB_NUM
    && Sendable(body) && heard.rx.slots[ReadSlot(heard)].len == |body|
    && At(heard.rx.buf, heard.rx.slots[ReadSlot(heard)].pos, body)
  }

  lemma FrameArrives(st: Station, body: seq<byte>)
    requires Level(st) && Sendable(body)
    ensures Arrived(st, body, st.(rx := Run(st.rx, Wire(body))))
  {
    hide Run, Wire, CrcOk;
    FrameReceived(st.rx, body);
  }

  lemma ArrivedFits(st: Station, body: seq<byte>, heard: Station)
    requires Arrived(st, body, heard)
    ensures heard.rx.slots[ReadSlot(heard)].pos + |body| <= RCV_BUFF
    ensures Passes(heard.rx, ReadSlot(heard)) <==> CrcOk(body)
    ensures Passes(heard.rx.(signal := false), ReadSlot(heard)) <==> CrcOk(body)
  {
    hide CrcOk;
  }

  lemma ReadOn(st: Station, body: seq<byte>, heard: Station, clear: bool)
    requires Arrived(st, body, heard)
    ensures var quiet := Quiet(heard);
      ReadSlot(quiet) == ReadSlot(heard) && Became(st, Consumed(quiet, clear), st)
  {
    hide At;
  }

  lemma DamagedRead(st: Station, body: seq<byte>, heard: Station)
    requires Arrived(st, body, heard) && !CrcOk(body)
    ensures Legible(heard)
    ensures TaskTurn(heard).1 == [] && Became(st, TaskTurn(heard).0, Listed(st, BLANK))
  {
    hide CrcOk, Passes, Held, At, Readable, Consumed;
    ArrivedFits(st, body, heard);
    ReadOn(st, body, heard, true);
  }

  lemma DamagedTaken(st: Station, body: seq<byte>)
    requires Level(st) && Sendable(body) && !CrcOk(body)
    ensures Legible(st.(rx := Run(st.rx, Wire(body))))
    ensures var r := Hear(st, Wire(body)); r.1 == [] && Became(st, r.0, Listed(st, BLANK))
  {
    hide Run, Wire, TaskTurn, Became, Legible;
    FrameArrives(st, body);
    DamagedRead(st, body, st.(rx := Run(st.rx, Wire(body))));
  }

  lemma PacketRead(st: Station, pkg: byte, seqNo: byte, cmd: nat, tag: nat, val: seq<byte>, heard: Station)
    requires cmd < 0x4000 && tag < 0x4000 && seqNo < EA_BIT && |val| <= FRM_DATA_MAX_LEN
    requires Arrived(st, Body(pkg, seqNo, cmd, tag, val), heard)
    ensures Legible(heard)
    ensures var r := TaskTurn(heard);
      var node := Node(LowBits(pkg), seqNo, cmd, tag, val);
      var seen := st.(lastSeen := st.lastSeen || pkg as nat >= EA_BIT);
      && r.1 == Wire(AckBody(node))
      && Became(st, r.0, if val == [] then seen else Listed(seen, node))
  {
    hide Wire, CrcOk, Passes, Held, At, Readable, Body, LowBits, ReadNode, Consumed;
    var body := Body(pkg, seqNo, cmd, tag, val);
    BodyCrcOk(pkg, seqNo, cmd, tag, val);
    ArrivedFits(st, body, heard);
    ReadOn(st, body, heard, false);
    var p := heard.rx.slots[ReadSlot(heard)].pos;
    PacketReadsBack(heard.rx.buf, p, pkg, seqNo, cmd, tag, val);
  }

  /** A data packet is acknowledged and kept; an empty one is acknowledged and forgotten, all but its last mark. */
  lemma PacketTaken(st: Station, pkg: byte, seqNo: byte, cmd: nat, tag: nat, val: seq<byte>)
    requires Level(st) && cmd < 0x4000 && tag < 0x4000 && seqNo < EA_BIT && |val| <= FRM_DATA_MAX_LEN
    requires Sendable(Body(pkg, seqNo, cmd, tag, val))
    ensures Legible(st.(rx := Run(st.rx, Wire(Body(pkg, seqNo, cmd, tag, val)))))
    ensures var r := Hear(st, Wire(Body(pkg, seqNo, cmd, tag, val)));
      var node := Node(LowBits(pkg), seqNo, cmd, tag, val);
      var seen := st.(lastSeen := st.lastSeen || pkg as nat >= EA_BIT);
      && r.1 == Wire(AckBody(node))
      && Became(st, r.0, if val == [] then seen else Listed(seen, node))
  {
    hide Run, Wire, TaskTurn, Became, Legible, Body;
    var body := Body(pkg, seqNo, cmd, tag, val);
    FrameArrives(st, body);
    PacketRead(st, pkg, seqNo, cmd, tag, val, st.(rx := Run(st.rx, Wire(body))));
  }

  lemma AckRead(st: Station, node: Node, heard: Station)
    requires node.pkg < EA_BIT && node.cmd < 0x4000 && node.seqNo == st.waitSeq < EA_BIT
    requires Arrived(st, AckBody(node), heard)
    ensures Legible(heard)
    ensures TaskTurn(heard).1 == [] && Became(st, TaskTurn(heard).0, st.(lastSeen := false, acked := true))
  {
    hide CrcOk, Passes, At, Readable, Body, Consumed;
    var body := AckBody(node);
    BodyCrcOk(EA_BIT, node.seqNo + EA_BIT, node.cmd, TAG_ACK, [node.pkg]);
    ArrivedFits(st, body, heard);
    ReadOn(st, body, heard, true);
    var p := heard.rx.slots[ReadSlot(heard)].pos;
    PacketReadsBack(heard.rx.buf, p, EA_BIT, node.seqNo + EA_BIT, node.cmd, TAG_ACK, [node.pkg]);
  }

  /** The acknowledgement that is waited for sets the semaphore and leaves no packet. */
  lemma AckTaken(st: Station, node: Node)
    requires Level(st) && node.pkg < EA_BIT && node.cmd < 0x4000 && node.seqNo == st.waitSeq < EA_BIT
    ensures Legible(st.(rx := Run(st.rx, Wire(AckBody(node)))))
    ensures var r := Hear(st, Wire(AckBody(node)));
      r.1 == [] && Became(st, r.0, st.(lastSeen := false, acked := true))
  {
    hide Run, Wire, TaskTurn, Became, Legible, AckBody;
    var body := AckBody(node);
    FrameArrives(st, body);
    AckRead(st, node, st.(rx := Run(st.rx, Wire(body))));
  }

  // ---- what a turn does with any frame ----

  /** The frame to be read passes its checks, and this is its sequence byte. */
  predicate PassesAs(st: Station, seqNo: nat)
    requires Legible(st)
  {
    Passes(st.rx, ReadSlot(st)) && st.rx.buf[st.rx.slots[ReadSlot(st)].pos + 1] as nat == seqNo
  }

  /** The sender's semaphore is posted exactly by an acknowledgement that passes the CRC and carries the sequence number
      that is waited for, with its top bit. */
  lemma PostsOnlyAwaitedAck(st: Station)
    requires Legible(st) && st.waitSeq < EA_BIT
    ensures TaskTurn(st).0.acked <==> st.acked || PassesAs(st, st.waitSeq + EA_BIT)
  {
    hide CrcOk, ReadNode, Readable, Held, AckBody, Wire;
    QuietLegible(st);
    TurnPasses(st);
  }

  /** A frame is answered exactly when it passes the CRC and its sequence number has no top bit. */
  lemma AnswersOnlyData(st: Station)
    requires Legible(st)
    ensures TaskTurn(st).1 != [] <==> exists n: nat :: n < EA_BIT && PassesAs(st, n)
  {
    hide CrcOk, ReadNode, Readable, Held, AckBody;
    QuietLegible(st);
    TurnPasses(st);
    if Passes(st.rx, ReadSlot(st)) && st.rx.buf[st.rx.slots[ReadSlot(st)].pos + 1] as nat < EA_BIT {
      assert PassesAs(st, st.rx.buf[st.rx.slots[ReadSlot(st)].pos + 1]);
    }
  }

  /** The next turn reads the next slot, unless the frame was an acknowledgement that is not waited for: then it reads
      the same one again. */
  lemma ReadsOnUnlessStale(st: Station)
    requires Legible(st) && st.waitSeq < EA_BIT
    ensures TaskTurn(st).0.readIndex
         == if exists n: nat :: n >= EA_BIT && n != st.waitSeq + EA_BIT && PassesAs(st, n)
            then ReadSlot(st) else ReadSlot(st) + 1
  {
    hide CrcOk, ReadNode, Readable, Held, AckBody, Wire;
    QuietLegible(st);
    TurnPasses(st);
    if Passes(st.rx, ReadSlot(st)) {
      assert PassesAs(st, st.rx.buf[st.rx.slots[ReadSlot(st)].pos + 1]);
    }
  }

  /** A turn clears the length of its slot unless the frame was a data packet or an acknowledgement not waited for, and
      leaves every other slot and all the bytes alone. */
  lemma ClearsOwnSlot(st: Station)
    requires Legible(st) && st.waitSeq < EA_BIT
    ensures var i := ReadSlot(st);
      && TaskTurn(st).0.rx.buf == st.rx.buf
      && TaskTurn(st).0.rx.slots == if Passes(st.rx, i) && !PassesAs(st, st.waitSeq + EA_BIT) then st.rx.slots
                                    else st.rx.slots[i := Slot(st.rx.slots[i].pos, 0)]
  {
    hide CrcOk, ReadNode, Readable, Held, AckBody, Wire;
    QuietLegible(st);
    TurnPasses(st);
    if st.rx.slots[ReadSlot(st)].len == 0 {
      var i := ReadSlot(st);
      assert st.rx.slots[i := Slot(st.rx.slots[i].pos, 0)] == st.rx.slots;
    }
  }

  lemma TurnPasses(st: Station)
    requires Legible(st)
    ensures ReadSlot(Quiet(st)) == ReadSlot(st)
    ensures Passes(Quiet(st).rx, ReadSlot(st)) == Passes(st.rx, ReadSlot(st))
  {
    hide CrcOk, Readable, Valid;
  }

  /** An acknowledgement stands whole in the slot that is read next. */
  predicate AckStands(st: Station, node: Node)
    requires node.pkg < EA_BIT && node.cmd < 0x4000 && node.seqNo < EA_BIT
  {
    Valid(st.rx) && st.readIndex <= SKB_NUM && Intact(st.rx, ReadSlot(st), AckBody(node))
  }

  lemma AckLegible(st: Station, node: Node)
    requires node.pkg < EA_BIT && node.cmd < 0x4000 && node.seqNo < EA_BIT && AckStands(st, node)
    ensures Legible(st) && Passes(st.rx, ReadSlot(st)) && st.rx.slots[ReadSlot(st)].len > 0
    ensures var p := st.rx.slots[ReadSlot(st)].pos;
      st.rx.buf[p] == EA_BIT && st.rx.buf[p + 1] as nat == node.seqNo + EA_BIT
  {
    hide CrcOk, At, Readable, Body;
    var body := AckBody(node);
    var p := st.rx.slots[ReadSlot(st)].pos;
    BodyCrcOk(EA_BIT, node.seqNo + EA_BIT, node.cmd, TAG_ACK, [node.pkg]);
    AtSlice(st.rx.buf, p, body);
    PacketReadsBack(st.rx.buf, p, EA_BIT, node.seqNo + EA_BIT, node.cmd, TAG_ACK, [node.pkg]);
  }

  /** A turn on an acknowledgement that is not waited for. */
  lemma StaleAckRead(st: Station, node: Node)
    requires node.pkg < EA_BIT && node.cmd < 0x4000 && node.seqNo < EA_BIT && node.seqNo != st.waitSeq
    requires AckStands(st, node)
    ensures Legible(st) && TaskTurn(st).1 == []
    ensures var stale := BLANK.(seqNo := node.seqNo + EA_BIT);
      TaskTurn(st).0 == Listed(Quiet(st).(lastSeen := false, readIndex := ReadSlot(st)), stale)
  {
    hide CrcOk, Passes, At, Readable, Body, Held, Listed, Consumed, ReadNode, AckBody, AckStands;
    AckLegible(st, node);
    QuietLegible(st);
    TurnPasses(st);
  }

  lemma ArrivedStands(st: Station, node: Node, heard: Station)
    requires node.pkg < EA_BIT && node.cmd < 0x4000 && node.seqNo < EA_BIT
    requires Arrived(st, AckBody(node), heard)
    ensures AckStands(heard, node) && ReadSlot(heard) == st.rx.slot
  {
    hide At, AckBody;
  }

  /** An acknowledgement that is not waited for posts nothing, sends nothing and delivers nothing; an empty packet joins
      the list, and its slot stays the next one to be read. */
  lemma StaleAckIgnored(st: Station, node: Node)
    requires Level(st) && node.pkg < EA_BIT && node.cmd < 0x4000 && node.seqNo < EA_BIT && node.seqNo != st.waitSeq
    ensures Legible(st.(rx := Run(st.rx, Wire(AckBody(node)))))
    ensures var (r, sent) := Hear(st, Wire(AckBody(node)));
      && sent == [] && r.acked == st.acked && r.delivered == st.delivered
      && Held(r.list) == Held(st.list) && r.total == st.total % 0x10000
      && ReadSlot(r) == ReadSlot(st.(readIndex := st.rx.slot)) == st.rx.slot && !r.rx.signal
  {
    hide Run, Wire, TaskTurn, Legible, AckBody, Held, AckStands;
    var body := AckBody(node);
    FrameArrives(st, body);
    var heard := st.(rx := Run(st.rx, Wire(body)));
    ArrivedStands(st, node, heard);
    StaleAckRead(heard, node);
    HeldOneMore(st.list, BLANK.(seqNo := node.seqNo + EA_BIT));
  }

  /** An acknowledgement: the mark of a last packet, the sequence number with its top bit, the command, the tag 0 and
      the package number as its one value byte. */
  lemma AckReadsBack(c: seq<byte>, p: nat, node: Node)
    requires node.pkg < EA_BIT && node.seqNo < EA_BIT && node.cmd < 0x4000 && At(c, p, AckBody(node))
    ensures Readable(c, p) && c[p] == 0x80
    ensures ReadNode(c, p) == Node(0, node.seqNo + 0x80, node.cmd, 0, [node.pkg])
  {
    hide At, Readable, ReadNode, Body;
    PacketReadsBack(c, p, EA_BIT, node.seqNo + EA_BIT, node.cmd, TAG_ACK, [node.pkg]);
  }

  predicate Unfit(st: Station)
    requires Legible(st)
  {
    var slot := st.rx.slots[ReadSlot(st)];
    slot.len == 0 || slot.len > 126 || !CrcOk(st.rx.buf[slot.pos..slot.pos + slot.len])
  }

  /** A slot that is empty, too long or whose last byte is not the CRC of the others is passed over: nothing is sent or
      posted, and the empty packet that joins the list adds nothing to the message. */
  lemma UnfitFrameRejected(st: Station)
    requires Legible(st) && Unfit(st)
    ensures var (r, sent) := TaskTurn(st);
      && sent == [] && r.acked == st.acked && r.nextSeq == st.nextSeq && r.waitSeq == st.waitSeq
      && r.readIndex == ReadSlot(st) + 1 && r.rx.slots[ReadSlot(st)].len == 0 && r.rx.buf == st.rx.buf
      && (!st.lastSeen ==>
            !r.lastSeen && Held(r.list) == Held(st.list) && r.total == st.total % 0x10000 && r.delivered == st.delivered)
  {
    hide CrcOk, Held, ReadNode, Readable, AckBody;
    TurnPasses(st);
    QuietLegible(st);
    HeldOneMore(st.list, BLANK);
  }

  lemma HeldOneMore(list: seq<Node>, node: Node)
    ensures Held(list + [node]) == Held(list) + node.val
  {
    assert (list + [node])[..|list|] == list;
  }
}
