/** USIP frames: extensible integers, the fields of a packet, and SLIP byte stuffing. */
module UsipFrame {
  import opened Bytes
  import opened UsipCrc

  const END: byte := 0xC0
  const ESC: byte := 0xDB
  const ESC_END: byte := 0xDC
  const ESC_ESC: byte := 0xDD

  const EA_BIT: nat := 0x80
  const FRM_MAX_LEN: nat := 128
  const FRM_DATA_MAX_LEN: nat := 126
  const CMD_AND_TLVS_MAX_LEN: nat := 123

  const TAG_ACK: nat := 0
  const TAG_RST: nat := 1

  // ---- extensible integers ----

  /** short_to_EA: one byte below 128, else two; the last one carries the EA bit. */
  function ShortToEA(data: nat): (t: seq<byte>)
    requires data < 0x10000
    ensures |t| == if data < EA_BIT then 1 else 2
  {
    if data < EA_BIT then [data + EA_BIT] else [data / 128 % 256, data % 128 + EA_BIT]
  }

  /** EA_to_short at `p`: the value and the bytes used, 0 when the second byte lacks the EA bit. */
  function EAToShort(t: seq<byte>, p: nat): (r: (nat, nat))
    requires p < |t|
    ensures r.0 < 0x8000 && r.1 <= 2 && p + r.1 <= |t|
  {
    if t[p] as nat >= EA_BIT then (t[p] as nat - EA_BIT, 1)
    else if p + 1 >= |t| || (t[p + 1] as nat) < EA_BIT then (t[p] as nat * 128, 0)
    else (t[p] as nat * 128 + (t[p + 1] as nat - EA_BIT), 2)
  }

  /** The bytes EA_to_short looks at lie inside the buffer. */
  predicate EAInside(t: seq<byte>, p: nat) {
    p < |t| && (t[p] as nat >= EA_BIT || p + 1 < |t|)
  }

  /** An unsigned short survives the two conversions exactly when it has at most fourteen bits. */
  lemma EARoundTrip(data: nat, rest: seq<byte>)
    requires data < 0x10000
    ensures EAToShort(ShortToEA(data) + rest, 0) == (data, |ShortToEA(data)|) <==> data < 0x4000
  {
    var t := ShortToEA(data);
    assert (t + rest)[0] == t[0];
    if data >= EA_BIT {
      assert (t + rest)[1] == t[1];
    }
  }

  /** The notation: a last byte has its top bit set and seven bits of the value, a first one the bits above them. */
  lemma EAMeans(data: nat)
    requires data < 0x8000
    ensures var t := ShortToEA(data);
      if data < 128 then t == [128 + data] else |t| == 2 && t[1] >= 128 && data == 128 * t[0] as nat + (t[1] as nat - 128)
  {
  }

  lemma EAReadsAt(c: seq<byte>, p: nat, data: nat)
    requires data < 0x4000 && At(c, p, ShortToEA(data))
    ensures EAInside(c, p) && EAToShort(c, p) == (data, |ShortToEA(data)|)
  {
    AtAll(c, p, ShortToEA(data));
  }

  // ---- packets ----

  /** The fields of a packet between the frame marks, before the CRC. */
  function Fields(pkg: byte, seqNo: byte, cmd: nat, tag: nat, val: seq<byte>): (t: seq<byte>)
    requires cmd < 0x10000 && tag < 0x10000 && |val| < 0x10000
    ensures |t| == 2 + |ShortToEA(cmd)| + |ShortToEA(tag)| + |ShortToEA(|val|)| + |val|
  {
    [pkg, seqNo] + ShortToEA(cmd) + ShortToEA(tag) + ShortToEA(|val|) + val
  }

  /** The body of a frame: the fields and their CRC. */
  function Body(pkg: byte, seqNo: byte, cmd: nat, tag: nat, val: seq<byte>): (t: seq<byte>)
    requires cmd < 0x10000 && tag < 0x10000 && |val| < 0x10000
    ensures |t| == 3 + |ShortToEA(cmd)| + |ShortToEA(tag)| + |ShortToEA(|val|)| + |val|
  {
    Fields(pkg, seqNo, cmd, tag, val) + [Crc8(Fields(pkg, seqNo, cmd, tag, val))]
  }

  lemma BodyCrcOk(pkg: byte, seqNo: byte, cmd: nat, tag: nat, val: seq<byte>)
    requires cmd < 0x10000 && tag < 0x10000 && |val| < 0x10000
    ensures CrcOk(Body(pkg, seqNo, cmd, tag, val))
  {
    var b := Body(pkg, seqNo, cmd, tag, val);
    assert b[..|b| - 1] == Fields(pkg, seqNo, cmd, tag, val);
  }

  /** The order of the fields on one packet: package number, sequence number, command 0x123, tag, length, value. */
  lemma FieldsInOrder()
    ensures Fields(0x83, 5, 0x123, 1, [7, 8]) == [0x83, 5, 0x02, 0xA3, 0x81, 0x82, 7, 8]
  {
    EAMeans(0x123);
    EAMeans(1);
    EAMeans(2);
    assert ShortToEA(0x123) == [0x02, 0xA3];
    var v: seq<byte> := [7, 8];
    assert Fields(0x83, 5, 0x123, 1, v) == [0x83, 5] + ShortToEA(0x123) + ShortToEA(1) + ShortToEA(|v|) + v;
  }

  /** One byte appended to the send buffer and to the running CRC. */
  method PutByte(buf: array<byte>, j: nat, crc: byte, b: byte, ghost done: seq<byte>) returns (crc': byte)
    requires j < buf.Length && |done| + 1 == j && buf[..j] == [END] + done && crc == Crc8(done)
    modifies buf
    ensures buf[..j + 1] == [END] + (done + [b]) && crc' == Crc8(done + [b])
  {
    buf[j] := b;
    crc' := CrcStep(crc, buf[j]);
    assert buf[..j + 1] == buf[..j] + [b] == [END] + (done + [b]);
    assert (done + [b])[..|done|] == done;
  }

  method PutBytes(buf: array<byte>, j: nat, crc: byte, t: seq<byte>, ghost done: seq<byte>)
    returns (j': nat, crc': byte)
    requires j + |t| <= buf.Length && |done| + 1 == j && buf[..j] == [END] + done && crc == Crc8(done)
    modifies buf
    ensures j' == j + |t| && buf[..j'] == [END] + (done + t) && crc' == Crc8(done + t)
  {
    hide Crc8;
    j', crc' := j, crc;
    var i := 0;
    assert done + t[..0] == done;
    while i < |t|
      invariant 0 <= i <= |t| && j' == j + i
      invariant buf[..j'] == [END] + (done + t[..i]) && crc' == Crc8(done + t[..i])
    {
      crc' := PutByte(buf, j', crc', t[i], done + t[..i]);
      assert (done + t[..i]) + [t[i]] == done + t[..i + 1];
      j' := j' + 1;
      i := i + 1;
    }
    assert t[..|t|] == t;
  }

  /** convert_tlv_to_usip_frame: the frame with its marks, unstuffed, and its length. */
  method ConvertTlv(buf: array<byte>, pkg: byte, seqNo: byte, cmd: nat, tag: nat, val: seq<byte>)
    returns (len: nat)
    requires buf.Length == FRM_MAX_LEN
    requires cmd < 0x10000 && tag < 0x10000 && |val| < 0x10000
    requires |Body(pkg, seqNo, cmd, tag, val)| <= FRM_DATA_MAX_LEN
    modifies buf
    ensures len == |Body(pkg, seqNo, cmd, tag, val)| + 2
    ensures buf[..len] == [END] + Body(pkg, seqNo, cmd, tag, val) + [END]
  {
    hide Crc8, ShortToEA;
    forall i | 0 <= i < buf.Length {
      buf[i] := 0;
    }
    buf[0] := END;
    var j, crc := 1, 0;
    CrcOfNothing();
    ghost var done: seq<byte> := [];
    assert buf[..1] == [END] + done;
    crc := PutByte(buf, j, crc, pkg, done);
    crc := PutByte(buf, j + 1, crc, seqNo, [] + [pkg]);
    j := j + 2;
    done := [pkg, seqNo];
    assert [] + [pkg] + [seqNo] == done;
    j, crc := PutBytes(buf, j, crc, ShortToEA(cmd), done);
    done := done + ShortToEA(cmd);
    j, crc := PutBytes(buf, j, crc, ShortToEA(tag), done);
    done := done + ShortToEA(tag);
    j, crc := PutBytes(buf, j, crc, ShortToEA(|val|), done);
    done := done + ShortToEA(|val|);
    j, crc := PutBytes(buf, j, crc, val, done);
    done := done + val;
    buf[j] := crc;
    assert buf[..j + 1] == [END] + (done + [crc]);
    j := j + 1;
    buf[j] := END;
    len := j + 1;
    assert buf[..len] == [END] + (done + [crc]) + [END];
  }

  // ---- byte stuffing ----

  function Stuff(b: byte): (t: seq<byte>)
    ensures |t| > 0
  {
    if b == END then [ESC, ESC_END] else if b == ESC then [ESC, ESC_ESC] else [b]
  }

  function StuffAll(s: seq<byte>): (t: seq<byte>) {
    if s == [] then [] else Stuff(s[0]) + StuffAll(s[1..])
  }

  /** The bytes on the line for a frame. */
  function Wire(body: seq<byte>): (t: seq<byte>) {
    [END] + StuffAll(body) + [END]
  }

  /** A frame of a mark, an escape and a plain byte on the line. */
  lemma StuffedInOrder()
    ensures Wire([0xC0, 0xDB, 1]) == [0xC0, 0xDB, 0xDC, 0xDB, 0xDD, 1, 0xC0]
  {
    var s: seq<byte> := [0xC0, 0xDB, 1];
    assert s[3..] == [] && s[2..][1..] == s[3..] && s[1..][1..] == s[2..];
    assert StuffAll(s[3..]) == [];
    assert StuffAll(s[2..]) == [1];
    assert StuffAll(s[1..]) == [0xDB, 0xDD, 1];
    assert StuffAll(s) == [0xDB, 0xDC, 0xDB, 0xDD, 1];
  }

  lemma {:induction false} StuffNext(s: seq<byte>, k: nat)
    requires k < |s|
    ensures StuffAll(s[..k + 1]) == StuffAll(s[..k]) + Stuff(s[k])
    decreases k
  {
    if k == 0 {
      assert s[..1] == [s[0]] && s[..0] == [] && StuffAll([]) == [];
      assert s[..1][1..] == [];
    } else {
      StuffNext(s[1..], k - 1);
      assert s[..k + 1][1..] == s[1..][..k] && s[..k][1..] == s[1..][..k - 1];
    }
  }

  /** send_one_frame on the first `len` bytes of the send buffer; `line` is what it sends. */
  method SendOneFrame(buf: array<byte>, len: nat, ghost body: seq<byte>) returns (line: seq<byte>)
    requires len <= buf.Length && buf[..len] == [END] + body + [END]
    ensures line == Wire(body)
  {
    assert forall i :: 0 < i < len - 1 ==> buf[i] == buf[..len][i] == body[i - 1];
    assert buf[0] == buf[..len][0] == END && buf[len - 1] == buf[..len][len - 1] == END;
    line := [buf[0]];
    var i := 1;
    assert body[..0] == [] && StuffAll([]) == [];
    while i < len - 1
      invariant 1 <= i <= len - 1
      invariant line == [END] + StuffAll(body[..i - 1])
    {
      StuffNext(body, i - 1);
      if buf[i] == END {
        line := line + [ESC];
        line := line + [ESC_END];
      } else if buf[i] == ESC {
        line := line + [ESC];
        line := line + [ESC_ESC];
      } else {
        line := line + [buf[i]];
      }
      i := i + 1;
    }
    assert body[..|body|] == body;
    line := line + [buf[i]];
  }
}
