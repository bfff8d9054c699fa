/** What an acknowledgement that nobody waits for does to the frames behind it. */
module UsipBlocked {
  import opened Bytes
  import opened UsipFrame
  import opened UsipReceiver
  import opened UsipFraming
  import opened UsipStation

  /** Every turn that the frames cause finds what it reads inside its arrays. */
  predicate AllLegible(st: Station, bodies: seq<seq<byte>>)
    requires Valid(st.rx)
    decreases |bodies|
  {
    hide Run;
    bodies == []
    || (Legible(st.(rx := Run(st.rx, Wire(bodies[0]))))
        && Valid(Hear(st, Wire(bodies[0])).0.rx) && AllLegible(Hear(st, Wire(bodies[0])).0, bodies[1..]))
  }

  /** The frames come in one after another, with a turn of usip_rec_task for each; and all that is sent. */
  function HearAll(st: Station, bodies: seq<seq<byte>>): (r: (Station, seq<byte>))
    requires Valid(st.rx) && AllLegible(st, bodies)
    decreases |bodies|
  {
    if bodies == [] then (st, [])
    else
      var (next, sent) := Hear(st, Wire(bodies[0]));
      var rest := HearAll(next, bodies[1..]);
      (rest.0, sent + rest.1)
  }

  /** The acknowledgement `node` is read next, is not waited for, and has been the j-th most recent frame. */
  predicate Blocked(st: Station, node: Node, j: nat)
    requires node.pkg < EA_BIT && node.cmd < 0x4000 && node.seqNo < EA_BIT
  {
    && st.readIndex <= SKB_NUM && node.seqNo != st.waitSeq && !st.rx.signal
    && Kept(st.rx, ReadSlot(st), AckBody(node), j)
  }

  /** Nothing that the rest of the program could see has happened. */
  predicate NothingDone(st: Station, r: Station) {
    && r.acked == st.acked && r.delivered == st.delivered && Held(r.list) == Held(st.list)
    && r.total == st.total % 0x10000 && r.waitSeq == st.waitSeq && ReadSlot(r) == ReadSlot(st)
  }

  lemma TurnBlocked(st: Station, node: Node, j: nat, heard: Station)
    requires node.pkg < EA_BIT && node.cmd < 0x4000 && node.seqNo < EA_BIT && node.seqNo != st.waitSeq
    requires heard == st.(rx := heard.rx) && st.readIndex <= SKB_NUM
    requires Kept(heard.rx, ReadSlot(st), AckBody(node), j)
    ensures Legible(heard) && TaskTurn(heard).1 == []
    ensures Blocked(TaskTurn(heard).0, node, j) && NothingDone(st, TaskTurn(heard).0)
  {
    hide At, AckBody, TaskTurn, Legible, Held;
    assert AckStands(heard, node);
    StaleAckRead(heard, node);
    HeldOneMore(st.list, BLANK.(seqNo := node.seqNo + EA_BIT));
  }

  lemma FrameBlocked(st: Station, node: Node, j: nat, body: seq<byte>)
    requires node.pkg < EA_BIT && node.cmd < 0x4000 && node.seqNo < EA_BIT
    requires Blocked(st, node, j) && j <= 14 && Sendable(body)
    ensures Legible(st.(rx := Run(st.rx, Wire(body))))
    ensures var (r, sent) := Hear(st, Wire(body));
      sent == [] && Blocked(r, node, j + 1) && NothingDone(st, r) && Valid(r.rx)
  {
    hide Run, Wire, AckBody, TaskTurn, Legible, NothingDone, Kept, Received;
    KeptIdle(st.rx, ReadSlot(st), AckBody(node), j);
    FrameReceived(st.rx, body);
    KeptOn(st.rx, ReadSlot(st), AckBody(node), j, body);
    var heard := st.(rx := Run(st.rx, Wire(body)));
    TurnBlocked(st, node, j + 1, heard);
    ReceivedSignals(st.rx, body);
    KeptIdle(TaskTurn(heard).0.rx, ReadSlot(TaskTurn(heard).0), AckBody(node), j + 1);
  }

  lemma KeptIdle(rx: Rx, i: nat, body: seq<byte>, j: nat)
    requires Kept(rx, i, body, j)
    ensures Idle(rx) && Valid(rx)
  {
  }

  lemma ReceivedSignals(rx: Rx, body: seq<byte>)
    requires Idle(rx) && Sendable(body)
    ensures Received(rx, body).signal
  {
  }

  lemma {:induction false} FramesBlocked(st: Station, node: Node, j: nat, bodies: seq<seq<byte>>)
    requires node.pkg < EA_BIT && node.cmd < 0x4000 && node.seqNo < EA_BIT
    requires Blocked(st, node, j) && j + |bodies| <= 15 && AllSendable(bodies) && st.total < 0x10000
    ensures Valid(st.rx) && AllLegible(st, bodies)
    ensures var (r, sent) := HearAll(st, bodies); sent == [] && NothingDone(st, r)
    decreases |bodies|
  {
    hide Run, Wire, AckBody, TaskTurn, Legible, Hear, Kept;
    KeptIdle(st.rx, ReadSlot(st), AckBody(node), j);
    if bodies != [] {
      FrameBlocked(st, node, j, bodies[0]);
      FramesBlocked(Hear(st, Wire(bodies[0])).0, node, j + 1, bodies[1..]);
    }
  }

  /** An acknowledgement that is not waited for blocks the receiver: of the frames behind it, fourteen at least, whatever
      they hold, none is answered, posts the semaphore or is delivered. Each turn reads the acknowledgement again. */
  lemma StaleAckBlocks(st: Station, node: Node, later: seq<seq<byte>>)
    requires Level(st) && node.pkg < EA_BIT && node.cmd < 0x4000 && node.seqNo < EA_BIT && node.seqNo != st.waitSeq
    requires |later| <= 14 && AllSendable(later) && st.total < 0x10000
    ensures AllLegible(st, [AckBody(node)] + later)
    ensures var (r, sent) := HearAll(st, [AckBody(node)] + later);
      sent == [] && r.acked == st.acked && r.delivered == st.delivered && Held(r.list) == Held(st.list)
  {
    hide Run, Wire, AckBody, TaskTurn, Legible, Kept, Received, Held, AllLegible, HearAll;
    var body := AckBody(node);
    FrameReceived(st.rx, body);
    KeptFirst(st.rx, body);
    ReceivedSignals(st.rx, body);
    FrameArrives(st, body);
    var heard := st.(rx := Run(st.rx, Wire(body)));
    ArrivedStands(st, node, heard);
    TurnBlocked(heard.(rx := st.rx), node, 1, heard);
    var r := TaskTurn(heard).0;
    FramesBlocked(r, node, 1, later);
    FirstHeard(st, body, later);
  }

  lemma FirstHeard(st: Station, body: seq<byte>, later: seq<seq<byte>>)
    requires Valid(st.rx) && Legible(st.(rx := Run(st.rx, Wire(body))))
    requires Valid(Hear(st, Wire(body)).0.rx) && AllLegible(Hear(st, Wire(body)).0, later)
    ensures AllLegible(st, [body] + later)
    ensures HearAll(st, [body] + later).0 == HearAll(Hear(st, Wire(body)).0, later).0
    ensures HearAll(st, [body] + later).1 == Hear(st, Wire(body)).1 + HearAll(Hear(st, Wire(body)).0, later).1
  {
    hide Run, Wire, Legible, Hear;
    assert ([body] + later)[1..] == later;
  }
}
