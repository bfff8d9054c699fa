/** The CRC-8 of USIP frames. */
module UsipCrc {
  import opened Bytes
  import opened ByteBits

  // The polynomial x^8 + x^2 + x + 1.
  const POLYNOMIAL: bv8 := 0x07

  // ---- the table, in rows of 32 ----

  function Row0(i: bv8): bv8 {
    match i
    case 0 => 0x00 case 1 => 0x07 case 2 => 0x0e case 3 => 0x09 case 4 => 0x1c case 5 => 0x1b case 6 => 0x12 case 7 => 0x15
    case 8 => 0x38 case 9 => 0x3f case 10 => 0x36 case 11 => 0x31 case 12 => 0x24 case 13 => 0x23 case 14 => 0x2a case 15 => 0x2d
    case 16 => 0x70 case 17 => 0x77 case 18 => 0x7e case 19 => 0x79 case 20 => 0x6c case 21 => 0x6b case 22 => 0x62 case 23 => 0x65
    case 24 => 0x48 case 25 => 0x4f case 26 => 0x46 case 27 => 0x41 case 28 => 0x54 case 29 => 0x53 case 30 => 0x5a case 31 => 0x5d
    case _ => 0
  }

  function Row1(i: bv8): bv8 {
    match i
    case 32 => 0xe0 case 33 => 0xe7 case 34 => 0xee case 35 => 0xe9 case 36 => 0xfc case 37 => 0xfb case 38 => 0xf2 case 39 => 0xf5
    case 40 => 0xd8 case 41 => 0xdf case 42 => 0xd6 case 43 => 0xd1 case 44 => 0xc4 case 45 => 0xc3 case 46 => 0xca case 47 => 0xcd
    case 48 => 0x90 case 49 => 0x97 case 50 => 0x9e case 51 => 0x99 case 52 => 0x8c case 53 => 0x8b case 54 => 0x82 case 55 => 0x85
    case 56 => 0xa8 case 57 => 0xaf case 58 => 0xa6 case 59 => 0xa1 case 60 => 0xb4 case 61 => 0xb3 case 62 => 0xba case 63 => 0xbd
    case _ => 0
  }

  function Row2(i: bv8): bv8 {
    match i
    case 64 => 0xc7 case 65 => 0xc0 case 66 => 0xc9 case 67 => 0xce case 68 => 0xdb case 69 => 0xdc case 70 => 0xd5 case 71 => 0xd2
    case 72 => 0xff case 73 => 0xf8 case 74 => 0xf1 case 75 => 0xf6 case 76 => 0xe3 case 77 => 0xe4 case 78 => 0xed case 79 => 0xea
    case 80 => 0xb7 case 81 => 0xb0 case 82 => 0xb9 case 83 => 0xbe case 84 => 0xab case 85 => 0xac case 86 => 0xa5 case 87 => 0xa2
    case 88 => 0x8f case 89 => 0x88 case 90 => 0x81 case 91 => 0x86 case 92 => 0x93 case 93 => 0x94 case 94 => 0x9d case 95 => 0x9a
    case _ => 0
  }

  function Row3(i: bv8): bv8 {
    match i
    case 96 => 0x27 case 97 => 0x20 case 98 => 0x29 case 99 => 0x2e case 100 => 0x3b case 101 => 0x3c case 102 => 0x35 case 103 => 0x32
    case 104 => 0x1f case 105 => 0x18 case 106 => 0x11 case 107 => 0x16 case 108 => 0x03 case 109 => 0x04 case 110 => 0x0d case 111 => 0x0a
    case 112 => 0x57 case 113 => 0x50 case 114 => 0x59 case 115 => 0x5e case 116 => 0x4b case 117 => 0x4c case 118 => 0x45 case 119 => 0x42
    case 120 => 0x6f case 121 => 0x68 case 122 => 0x61 case 123 => 0x66 case 124 => 0x73 case 125 => 0x74 case 126 => 0x7d case 127 => 0x7a
    case _ => 0
  }

  function Row4(i: bv8): bv8 {
    match i
    case 128 => 0x89 case 129 => 0x8e case 130 => 0x87 case 131 => 0x80 case 132 => 0x95 case 133 => 0x92 case 134 => 0x9b case 135 => 0x9c
    case 136 => 0xb1 case 137 => 0xb6 case 138 => 0xbf case 139 => 0xb8 case 140 => 0xad case 141 => 0xaa case 142 => 0xa3 case 143 => 0xa4
    case 144 => 0xf9 case 145 => 0xfe case 146 => 0xf7 case 147 => 0xf0 case 148 => 0xe5 case 149 => 0xe2 case 150 => 0xeb case 151 => 0xec
    case 152 => 0xc1 case 153 => 0xc6 case 154 => 0xcf case 155 => 0xc8 case 156 => 0xdd case 157 => 0xda case 158 => 0xd3 case 159 => 0xd4
    case _ => 0
  }

  function Row5(i: bv8): bv8 {
    match i
    case 160 => 0x69 case 161 => 0x6e case 162 => 0x67 case 163 => 0x60 case 164 => 0x75 case 165 => 0x72 case 166 => 0x7b case 167 => 0x7c
    case 168 => 0x51 case 169 => 0x56 case 170 => 0x5f case 171 => 0x58 case 172 => 0x4d case 173 => 0x4a case 174 => 0x43 case 175 => 0x44
    case 176 => 0x19 case 177 => 0x1e case 178 => 0x17 case 179 => 0x10 case 180 => 0x05 case 181 => 0x02 case 182 => 0x0b case 183 => 0x0c
    case 184 => 0x21 case 185 => 0x26 case 186 => 0x2f case 187 => 0x28 case 188 => 0x3d case 189 => 0x3a case 190 => 0x33 case 191 => 0x34
    case _ => 0
  }

  function Row6(i: bv8): bv8 {
    match i
    case 192 => 0x4e case 193 => 0x49 case 194 => 0x40 case 195 => 0x47 case 196 => 0x52 case 197 => 0x55 case 198 => 0x5c case 199 => 0x5b
    case 200 => 0x76 case 201 => 0x71 case 202 => 0x78 case 203 => 0x7f case 204 => 0x6a case 205 => 0x6d case 206 => 0x64 case 207 => 0x63
    case 208 => 0x3e case 209 => 0x39 case 210 => 0x30 case 211 => 0x37 case 212 => 0x22 case 213 => 0x25 case 214 => 0x2c case 215 => 0x2b
    case 216 => 0x06 case 217 => 0x01 case 218 => 0x08 case 219 => 0x0f case 220 => 0x1a case 221 => 0x1d case 222 => 0x14 case 223 => 0x13
    case _ => 0
  }

  function Row7(i: bv8): bv8 {
    match i
    case 224 => 0xae case 225 => 0xa9 case 226 => 0xa0 case 227 => 0xa7 case 228 => 0xb2 case 229 => 0xb5 case 230 => 0xbc case 231 => 0xbb
    case 232 => 0x96 case 233 => 0x91 case 234 => 0x98 case 235 => 0x9f case 236 => 0x8a case 237 => 0x8d case 238 => 0x84 case 239 => 0x83
    case 240 => 0xde case 241 => 0xd9 case 242 => 0xd0 case 243 => 0xd7 case 244 => 0xc2 case 245 => 0xc5 case 246 => 0xcc case 247 => 0xcb
    case 248 => 0xe6 case 249 => 0xe1 case 250 => 0xe8 case 251 => 0xef case 252 => 0xfa case 253 => 0xfd case 254 => 0xf4 case 255 => 0xf3
    case _ => 0
  }

  /** g_usip_crc_table. */
  function Table(i: bv8): bv8 {
    if i < 32 then Row0(i) else if i < 64 then Row1(i) else if i < 96 then Row2(i) else if i < 128 then Row3(i)
    else if i < 160 then Row4(i) else if i < 192 then Row5(i) else if i < 224 then Row6(i) else Row7(i)
  }

  // ---- the bitwise form ----

  /** One bit of the division, most significant bit first. */
  function Shift(c: bv8): bv8 {
    if c & 0x80 == 0x80 then POLYNOMIAL ^ (c << 1) else c << 1
  }

  function EightShifts(c: bv8): bv8 {
    Shift(Shift(Shift(Shift(Shift(Shift(Shift(Shift(c))))))))
  }

  lemma Row0IsBitwise(i: bv8)
    requires 0 <= i < 32
    ensures Row0(i) == EightShifts(i)
  {
    match i
    case 0 => case 1 => case 2 => case 3 => case 4 => case 5 => case 6 => case 7 =>
    case 8 => case 9 => case 10 => case 11 => case 12 => case 13 => case 14 => case 15 =>
    case 16 => case 17 => case 18 => case 19 => case 20 => case 21 => case 22 => case 23 =>
    case 24 => case 25 => case 26 => case 27 => case 28 => case 29 => case 30 => case 31 =>
    case _ =>
  }

  lemma Row1IsBitwise(i: bv8)
    requires 32 <= i < 64
    ensures Row1(i) == EightShifts(i)
  {
    match i
    case 32 => case 33 => case 34 => case 35 => case 36 => case 37 => case 38 => case 39 =>
    case 40 => case 41 => case 42 => case 43 => case 44 => case 45 => case 46 => case 47 =>
    case 48 => case 49 => case 50 => case 51 => case 52 => case 53 => case 54 => case 55 =>
    case 56 => case 57 => case 58 => case 59 => case 60 => case 61 => case 62 => case 63 =>
    case _ =>
  }

  lemma Row2IsBitwise(i: bv8)
    requires 64 <= i < 96
    ensures Row2(i) == EightShifts(i)
  {
    match i
    case 64 => case 65 => case 66 => case 67 => case 68 => case 69 => case 70 => case 71 =>
    case 72 => case 73 => case 74 => case 75 => case 76 => case 77 => case 78 => case 79 =>
    case 80 => case 81 => case 82 => case 83 => case 84 => case 85 => case 86 => case 87 =>
    case 88 => case 89 => case 90 => case 91 => case 92 => case 93 => case 94 => case 95 =>
    case _ =>
  }

  lemma Row3IsBitwise(i: bv8)
    requires 96 <= i < 128
    ensures Row3(i) == EightShifts(i)
  {
    match i
    case 96 => case 97 => case 98 => case 99 => case 100 => case 101 => case 102 => case 103 =>
    case 104 => case 105 => case 106 => case 107 => case 108 => case 109 => case 110 => case 111 =>
    case 112 => case 113 => case 114 => case 115 => case 116 => case 117 => case 118 => case 119 =>
    case 120 => case 121 => case 122 => case 123 => case 124 => case 125 => case 126 => case 127 =>
    case _ =>
  }

  lemma Row4IsBitwise(i: bv8)
    requires 128 <= i < 160
    ensures Row4(i) == EightShifts(i)
  {
    match i
    case 128 => case 129 => case 130 => case 131 => case 132 => case 133 => case 134 => case 135 =>
    case 136 => case 137 => case 138 => case 139 => case 140 => case 141 => case 142 => case 143 =>
    case 144 => case 145 => case 146 => case 147 => case 148 => case 149 => case 150 => case 151 =>
    case 152 => case 153 => case 154 => case 155 => case 156 => case 157 => case 158 => case 159 =>
    case _ =>
  }

  lemma Row5IsBitwise(i: bv8)
    requires 160 <= i < 192
    ensures Row5(i) == EightShifts(i)
  {
    match i
    case 160 => case 161 => case 162 => case 163 => case 164 => case 165 => case 166 => case 167 =>
    case 168 => case 169 => case 170 => case 171 => case 172 => case 173 => case 174 => case 175 =>
    case 176 => case 177 => case 178 => case 179 => case 180 => case 181 => case 182 => case 183 =>
    case 184 => case 185 => case 186 => case 187 => case 188 => case 189 => case 190 => case 191 =>
    case _ =>
  }

  lemma Row6IsBitwise(i: bv8)
    requires 192 <= i < 224
    ensures Row6(i) == EightShifts(i)
  {
    match i
    case 192 => case 193 => case 194 => case 195 => case 196 => case 197 => case 198 => case 199 =>
    case 200 => case 201 => case 202 => case 203 => case 204 => case 205 => case 206 => case 207 =>
    case 208 => case 209 => case 210 => case 211 => case 212 => case 213 => case 214 => case 215 =>
    case 216 => case 217 => case 218 => case 219 => case 220 => case 221 => case 222 => case 223 =>
    case _ =>
  }

  lemma Row7IsBitwise(i: bv8)
    requires 224 <= i
    ensures Row7(i) == EightShifts(i)
  {
    match i
    case 224 => case 225 => case 226 => case 227 => case 228 => case 229 => case 230 => case 231 =>
    case 232 => case 233 => case 234 => case 235 => case 236 => case 237 => case 238 => case 239 =>
    case 240 => case 241 => case 242 => case 243 => case 244 => case 245 => case 246 => case 247 =>
    case 248 => case 249 => case 250 => case 251 => case 252 => case 253 => case 254 => case 255 =>
    case _ =>
  }

  /** Each table entry is its index divided by eight bits. */
  lemma TableIsBitwise(i: bv8)
    ensures Table(i) == EightShifts(i)
  {
    hide Row0, Row1, Row2, Row3, Row4, Row5, Row6, Row7, EightShifts;
    if i < 32 { Row0IsBitwise(i); }
    else if i < 64 { Row1IsBitwise(i); }
    else if i < 96 { Row2IsBitwise(i); }
    else if i < 128 { Row3IsBitwise(i); }
    else if i < 160 { Row4IsBitwise(i); }
    else if i < 192 { Row5IsBitwise(i); }
    else if i < 224 { Row6IsBitwise(i); }
    else { Row7IsBitwise(i); }
  }

  // ---- the CRC of bytes ----

  /** One byte: a lookup at the register xor the byte. */
  function CrcStep(crc: byte, b: byte): byte {
    FromBits(Table(Xor(Bits(crc), Bits(b))))
  }

  function Crc8(s: seq<byte>): byte {
    if s == [] then 0 else CrcStep(Crc8(s[..|s| - 1]), s[|s| - 1])
  }

  // ---- damage to one byte ----

  lemma ShiftInjective(a: bv8, b: bv8)
    requires Shift(a) == Shift(b)
    ensures a == b
  {
  }

  lemma TableInjective(a: bv8, b: bv8)
    requires Table(a) == Table(b)
    ensures a == b
  {
    hide Table, Shift;
    TableIsBitwise(a);
    TableIsBitwise(b);
    var a1, b1 := Shift(a), Shift(b);
    var a2, b2 := Shift(a1), Shift(b1);
    var a3, b3 := Shift(a2), Shift(b2);
    var a4, b4 := Shift(a3), Shift(b3);
    var a5, b5 := Shift(a4), Shift(b4);
    var a6, b6 := Shift(a5), Shift(b5);
    var a7, b7 := Shift(a6), Shift(b6);
    ShiftInjective(a7, b7);
    ShiftInjective(a6, b6);
    ShiftInjective(a5, b5);
    ShiftInjective(a4, b4);
    ShiftInjective(a3, b3);
    ShiftInjective(a2, b2);
    ShiftInjective(a1, b1);
    ShiftInjective(a, b);
  }

  /** One step separates what differs in the register, and what differs in the byte. */
  lemma CrcStepInjective(c: byte, d: byte, a: byte, b: byte)
    requires CrcStep(c, a) == CrcStep(d, b)
    ensures a == b ==> c == d
    ensures c == d ==> a == b
  {
    hide Table, Bits, FromBits, Xor;
    BitsBack(a);
    BitsBack(b);
    BitsBack(c);
    BitsBack(d);
    var x, y := Xor(Bits(c), Bits(a)), Xor(Bits(d), Bits(b));
    FromBitsBack(Table(x));
    FromBitsBack(Table(y));
    TableInjective(x, y);
    XorCancel(Bits(c), Bits(a));
    XorCancel(Bits(d), Bits(b));
  }

  /** The check of a received frame: its last byte is the CRC of the others. */
  predicate CrcOk(body: seq<byte>) {
    |body| > 0 && Crc8(body[..|body| - 1]) == body[|body| - 1]
  }

  lemma {:induction false} CrcSeparates(s: seq<byte>, t: seq<byte>, k: nat)
    requires |s| == |t| && k < |s| && s[k] != t[k]
    requires forall i :: 0 <= i < |s| && i != k ==> s[i] == t[i]
    ensures Crc8(s) != Crc8(t)
    decreases |s|
  {
    hide CrcStep;
    var n := |s| - 1;
    if k == n {
      assert s[..n] == t[..n];
    } else {
      CrcSeparates(s[..n], t[..n], k);
    }
    if Crc8(s) == Crc8(t) {
      CrcStepInjective(Crc8(s[..n]), Crc8(t[..n]), s[n], t[n]);
    }
  }

  /** A frame with one byte changed is rejected, whichever byte it is. */
  lemma OneByteDamageRejected(body: seq<byte>, k: nat, b: byte)
    requires CrcOk(body) && k < |body| && b != body[k]
    ensures !CrcOk(body[k := b])
  {
    hide Crc8;
    var n := |body| - 1;
    var damaged := body[k := b];
    if k < n {
      CrcSeparates(body[..n], damaged[..n], k);
    } else {
      assert damaged[..n] == body[..n];
    }
  }

  // ---- the check value ----

  lemma CheckIndexes()
    ensures Xor(Bits(0x00), Bits(0x31)) == 0x31 && Xor(Bits(0x97), Bits(0x32)) == 0xa5 && Xor(Bits(0x72), Bits(0x33)) == 0x41
    ensures Xor(Bits(0xc0), Bits(0x34)) == 0xf4 && Xor(Bits(0xc2), Bits(0x35)) == 0xf7 && Xor(Bits(0xcb), Bits(0x36)) == 0xfd
    ensures Xor(Bits(0xfd), Bits(0x37)) == 0xca && Xor(Bits(0x78), Bits(0x38)) == 0x40 && Xor(Bits(0xc7), Bits(0x39)) == 0xfe
  {
  }

  lemma CheckEntries()
    ensures Table(0x31) == 0x97 && Table(0xa5) == 0x72 && Table(0x41) == 0xc0
    ensures Table(0xf4) == 0xc2 && Table(0xf7) == 0xcb && Table(0xfd) == 0xfd
    ensures Table(0xca) == 0x78 && Table(0x40) == 0xc7 && Table(0xfe) == 0xf4
  {
  }

  lemma CheckRegisters()
    ensures FromBits(0x97) == 0x97 && FromBits(0x72) == 0x72 && FromBits(0xc0) == 0xc0
    ensures FromBits(0xc2) == 0xc2 && FromBits(0xcb) == 0xcb && FromBits(0xfd) == 0xfd
    ensures FromBits(0x78) == 0x78 && FromBits(0xc7) == 0xc7 && FromBits(0xf4) == 0xf4
  {
  }

  lemma CheckBytes()
    ensures CrcStep(0x00, 0x31) == 0x97 && CrcStep(0x97, 0x32) == 0x72 && CrcStep(0x72, 0x33) == 0xc0
    ensures CrcStep(0xc0, 0x34) == 0xc2 && CrcStep(0xc2, 0x35) == 0xcb && CrcStep(0xcb, 0x36) == 0xfd
    ensures CrcStep(0xfd, 0x37) == 0x78 && CrcStep(0x78, 0x38) == 0xc7 && CrcStep(0xc7, 0x39) == 0xf4
  {
    hide Table, Bits, FromBits, Xor;
    CheckIndexes();
    CheckEntries();
    CheckRegisters();
  }

  lemma CrcOfNothing()
    ensures Crc8([]) == 0
  {
  }

  lemma CrcNext(s: seq<byte>, k: nat)
    requires k < |s|
    ensures Crc8(s[..k + 1]) == CrcStep(Crc8(s[..k]), s[k])
  {
    hide CrcStep;
    assert s[..k + 1][..k] == s[..k];
  }

  /** The CRC of the nine digits from 1 to 9 is the check value of this CRC. */
  lemma CheckValue()
    ensures Crc8([0x31, 0x32, 0x33, 0x34, 0x35, 0x36, 0x37, 0x38, 0x39]) == 0xf4
  {
    hide Crc8, CrcStep;
    var s: seq<byte> := [0x31, 0x32, 0x33, 0x34, 0x35, 0x36, 0x37, 0x38, 0x39];
    CheckBytes();
    CrcOfNothing();
    assert s[..0] == [];
    CrcNext(s, 0);
    CrcNext(s, 1);
    CrcNext(s, 2);
    CrcNext(s, 3);
    CrcNext(s, 4);
    CrcNext(s, 5);
    CrcNext(s, 6);
    CrcNext(s, 7);
    CrcNext(s, 8);
    assert s[..9] == s;
  }
}
