/** The byte-at-a-time receiver of usip.c: one step as a function, and the routine on the globals. */
module UsipReceiver {
  import opened Bytes
  import opened UsipFrame

  const RCV_BUFF: nat := 2048
  const SKB_NUM: nat := 16

  /** struct usip_frame_postion. */
  datatype Slot = Slot(pos: nat, len: nat)

  /** The globals the receiver works on; `signal` is the binary semaphore it posts. */
  datatype Rx = Rx(
    buf: seq<byte>, writeIndex: nat, isEsc: bool, inFrame: bool,
    slots: seq<Slot>, slot: nat, frameLen: nat, signal: bool)

  predicate Valid(rx: Rx) {
    |rx.buf| == RCV_BUFF && rx.writeIndex < RCV_BUFF && |rx.slots| == SKB_NUM && rx.slot < SKB_NUM
  }

  /** Between frames. */
  predicate Idle(rx: Rx) {
    Valid(rx) && !rx.inFrame && !rx.isEsc && rx.frameLen == 0
  }

  /** A data byte goes into the buffer. */
  function Stored(rx: Rx, b: byte): (r: Rx)
    requires Valid(rx)
  {
    rx.(buf := rx.buf[rx.writeIndex := b], writeIndex := rx.writeIndex + 1, frameLen := (rx.frameLen + 1) % 0x10000)
  }

  /** An escape that is followed by neither of its two codes drops the frame. */
  function DropBadEscape(rx: Rx, data: byte): (r: Rx)
    requires Valid(rx)
    ensures Valid(r)
  {
    if rx.isEsc && data != ESC_END && data != ESC_ESC
    then rx.(frameLen := 0, isEsc := false, inFrame := false, slots := rx.slots[rx.slot := Slot(rx.writeIndex, 0)])
    else rx
  }

  function OpenFrame(rx: Rx): (r: Rx)
    requires Valid(rx)
    ensures Valid(r)
  {
    var at := if RCV_BUFF - rx.writeIndex < FRM_DATA_MAX_LEN then 0 else rx.writeIndex;
    rx.(inFrame := true, writeIndex := at, slots := rx.slots[rx.slot := rx.slots[rx.slot].(pos := at)])
  }

  function TakeData(rx: Rx, data: byte): (r: Rx)
    requires Valid(rx)
  {
    if data == ESC then rx.(isEsc := true)
    else if data == ESC_END then Stored(rx, if rx.isEsc then END else data).(isEsc := false)
    else if data == ESC_ESC then Stored(rx, if rx.isEsc then ESC else data).(isEsc := false)
    else Stored(rx, data)
  }

  function CloseFrame(rx: Rx): (r: Rx)
    requires Valid(rx)
  {
    rx.(inFrame := false, slots := rx.slots[rx.slot := rx.slots[rx.slot].(len := rx.frameLen)],
        frameLen := 0, isEsc := false, slot := rx.slot + 1, signal := true)
  }

  /** The checks at the end of receive_one_byte. */
  function Wrapped(rx: Rx): (r: Rx) {
    rx.(writeIndex := if rx.writeIndex == RCV_BUFF then 0 else rx.writeIndex,
        slot := if rx.slot == SKB_NUM then 0 else rx.slot)
  }

  /** receive_one_byte. */
  function Step(rx: Rx, data: byte): (r: Rx)
    requires Valid(rx)
    ensures Valid(r)
  {
    var d := DropBadEscape(rx, data);
    if data == END && !d.inFrame then OpenFrame(d)
    else if !d.inFrame then Wrapped(d)
    else if data != END then Wrapped(TakeData(d, data))
    else if d.frameLen == 0 then d.(inFrame := false)
    else Wrapped(CloseFrame(d))
  }

  function Run(rx: Rx, line: seq<byte>): (r: Rx)
    requires Valid(rx)
    ensures Valid(r)
    decreases |line|
  {
    if line == [] then rx else Run(Step(rx, line[0]), line[1..])
  }

  lemma {:induction false} RunConcat(rx: Rx, a: seq<byte>, b: seq<byte>)
    requires Valid(rx)
    ensures Run(rx, a + b) == Run(Run(rx, a), b)
    decreases |a|
  {
    hide Step;
    if a == [] {
      assert a + b == b;
    } else {
      assert (a + b)[1..] == a[1..] + b;
      RunConcat(Step(rx, a[0]), a[1..], b);
    }
  }

  // ---- any bytes at all ----

  /** A slot that announces bytes starts where a whole frame fits behind it. */
  predicate SlotFits(slot: Slot) {
    slot.pos < RCV_BUFF && (slot.len == 0 || slot.pos + FRM_DATA_MAX_LEN <= RCV_BUFF)
  }

  /** So do all the slots, and the one of the frame that is coming in. */
  predicate SlotsFit(rx: Rx)
    requires Valid(rx)
  {
    && (forall i :: 0 <= i < SKB_NUM ==> SlotFits(rx.slots[i]))
    && (rx.inFrame ==> rx.slots[rx.slot].pos + FRM_DATA_MAX_LEN <= RCV_BUFF)
  }

  lemma StepFits(rx: Rx, data: byte)
    requires Valid(rx) && SlotsFit(rx)
    ensures SlotsFit(Step(rx, data))
  {
  }

  /** Whatever bytes come in, frames or not, a slot of an acceptable length describes bytes inside the buffer. */
  lemma {:induction false} AnyLineFits(rx: Rx, line: seq<byte>)
    requires Valid(rx) && SlotsFit(rx)
    ensures SlotsFit(Run(rx, line))
    ensures forall i :: 0 <= i < SKB_NUM && Run(rx, line).slots[i].len <= FRM_DATA_MAX_LEN ==>
      Run(rx, line).slots[i].pos + Run(rx, line).slots[i].len <= RCV_BUFF
    decreases |line|
  {
    hide Step;
    if line != [] {
      StepFits(rx, line[0]);
      AnyLineFits(Step(rx, line[0]), line[1..]);
    }
  }

  // ---- the routine on the globals ----

  class Receiver {
    const rcvbuf: array<byte>
    const pos: array<nat>
    const len: array<nat>
    var writeIndex: nat
    var isEsc: bool
    var inFrame: bool
    var slot: nat
    var frameLen: nat
    var signal: bool

    ghost predicate Shaped()
      reads this
    {
      rcvbuf.Length == RCV_BUFF && pos.Length == len.Length == SKB_NUM && pos != len
    }

    ghost predicate Ready()
      reads this
    {
      Shaped() && writeIndex < RCV_BUFF && slot < SKB_NUM
    }

    ghost function State(): (rx: Rx)
      requires Shaped()
      reads this, rcvbuf, pos, len
      ensures Ready() ==> Valid(rx)
    {
      Rx(rcvbuf[..], writeIndex, isEsc, inFrame, Slots(), slot, frameLen, signal)
    }

    ghost function Slots(): (s: seq<Slot>)
      requires pos.Length == len.Length == SKB_NUM
      reads pos, len
      ensures |s| == SKB_NUM && forall i :: 0 <= i < SKB_NUM ==> s[i] == Slot(pos[i], len[i])
    {
      seq(SKB_NUM, i requires 0 <= i < SKB_NUM reads pos, len => Slot(pos[i], len[i]))
    }

    constructor ()
      ensures Ready() && Idle(State()) && fresh(rcvbuf) && fresh(pos) && fresh(len)
      ensures !signal && writeIndex == 0 && slot == 0
    {
      rcvbuf := new byte[RCV_BUFF](_ => 0);
      pos := new nat[SKB_NUM](_ => 0);
      len := new nat[SKB_NUM](_ => 0);
      writeIndex, isEsc, inFrame, slot, frameLen, signal := 0, false, false, 0, 0, false;
    }

    method DropIfBadEscape(data: byte)
      requires Ready()
      modifies this, pos, len
      ensures Ready() && State() == DropBadEscape(old(State()), data)
    {
      if isEsc {
        if data != ESC_END && data != ESC_ESC {
          frameLen := 0;
          isEsc := false;
          inFrame := false;
          len[slot] := 0;
          pos[slot] := writeIndex;
          assert Slots() == old(Slots())[slot := Slot(writeIndex, 0)];
        }
      }
    }

    method Open()
      requires Ready()
      modifies this, pos
      ensures Ready() && State() == OpenFrame(old(State()))
    {
      inFrame := true;
      if RCV_BUFF - writeIndex < FRM_DATA_MAX_LEN {
        writeIndex := 0;
      }
      pos[slot] := writeIndex;
      assert Slots() == old(Slots())[slot := old(Slots())[slot].(pos := writeIndex)];
    }

    /** The closing mark of a frame that holds something. */
    method Close()
      requires Ready() && frameLen > 0
      modifies this, len
      ensures Shaped() && State() == CloseFrame(old(State()))
    {
      inFrame := false;
      len[slot] := frameLen;
      assert Slots() == old(Slots())[slot := old(Slots())[slot].(len := frameLen)];
      frameLen := 0;
      isEsc := false;
      slot := slot + 1;
      signal := true;
    }

    method TakeByte(data: byte)
      requires Ready() && data != END
      modifies this, rcvbuf
      ensures Shaped() && State() == TakeData(old(State()), data)
    {
      var received := data;
      if received == ESC {
        isEsc := true;
        assert Slots() == old(Slots());
        return;
      }
      if received == ESC_END {
        if isEsc {
          received := END;
          isEsc := false;
        }
      } else if received == ESC_ESC {
        if isEsc {
          received := ESC;
          isEsc := false;
        }
      }
      frameLen := (frameLen + 1) % 0x10000;
      rcvbuf[writeIndex] := received;
      writeIndex := writeIndex + 1;
      assert Slots() == old(Slots());
    }

    /** receive_one_byte. */
    method ReceiveOneByte(data: byte)
      requires Ready()
      modifies this, rcvbuf, pos, len
      ensures Ready() && State() == Step(old(State()), data)
    {
      hide DropBadEscape, OpenFrame, TakeData, CloseFrame;
      DropIfBadEscape(data);
      ghost var d := State();
      if data == END && !inFrame {
        Open();
        return;
      }
      if inFrame {
        if data == END {
          if frameLen == 0 {
            inFrame := false;
            assert State() == d.(inFrame := false);
            return;
          }
          Close();
        } else {
          TakeByte(data);
        }
      }
      Wrap();
      assert State() == Step(old(State()), data);
    }

    method Wrap()
      requires Shaped()
      modifies this`writeIndex, this`slot
      ensures Shaped() && State() == Wrapped(old(State()))
    {
      if writeIndex == RCV_BUFF {
        writeIndex := 0;
      }
      if slot == SKB_NUM {
        slot := 0;
      }
    }

    /** The interrupt handler, byte by byte over a line. */
    method ReceiveAll(line: seq<byte>)
      requires Ready()
      modifies this, rcvbuf, pos, len
      ensures Ready() && State() == Run(old(State()), line)
    {
      hide Step;
      ghost var start := State();
      var i := 0;
      assert line[0..] == line;
      while i < |line|
        invariant 0 <= i <= |line| && Ready()
        invariant Run(start, line) == Run(State(), line[i..])
      {
        assert line[i..][1..] == line[i + 1..];
        ReceiveOneByte(line[i]);
        i := i + 1;
      }
    }
  }
}
