/** CRC-32: the table-driven loop computes the bitwise CRC of section 8 of RFC 1952. */
module Crc32 {

  // The reflected polynomial.
  const POLYNOMIAL: bv32 := 0xedb88320

  // ---- the table, in rows of 32 ----

  function Row0(i: bv8): bv32 {
    match i
    case 0 => 0x00000000 case 1 => 0x77073096 case 2 => 0xee0e612c case 3 => 0x990951ba
    case 4 => 0x076dc419 case 5 => 0x706af48f case 6 => 0xe963a535 case 7 => 0x9e6495a3
    case 8 => 0x0edb8832 case 9 => 0x79dcb8a4 case 10 => 0xe0d5e91e case 11 => 0x97d2d988
    case 12 => 0x09b64c2b case 13 => 0x7eb17cbd case 14 => 0xe7b82d07 case 15 => 0x90bf1d91
    case 16 => 0x1db71064 case 17 => 0x6ab020f2 case 18 => 0xf3b97148 case 19 => 0x84be41de
    case 20 => 0x1adad47d case 21 => 0x6ddde4eb case 22 => 0xf4d4b551 case 23 => 0x83d385c7
    case 24 => 0x136c9856 case 25 => 0x646ba8c0 case 26 => 0xfd62f97a case 27 => 0x8a65c9ec
    case 28 => 0x14015c4f case 29 => 0x63066cd9 case 30 => 0xfa0f3d63 case 31 => 0x8d080df5
    case _ => 0
  }

  function Row1(i: bv8): bv32 {
    match i
    case 32 => 0x3b6e20c8 case 33 => 0x4c69105e case 34 => 0xd56041e4 case 35 => 0xa2677172
    case 36 => 0x3c03e4d1 case 37 => 0x4b04d447 case 38 => 0xd20d85fd case 39 => 0xa50ab56b
    case 40 => 0x35b5a8fa case 41 => 0x42b2986c case 42 => 0xdbbbc9d6 case 43 => 0xacbcf940
    case 44 => 0x32d86ce3 case 45 => 0x45df5c75 case 46 => 0xdcd60dcf case 47 => 0xabd13d59
    case 48 => 0x26d930ac case 49 => 0x51de003a case 50 => 0xc8d75180 case 51 => 0xbfd06116
    case 52 => 0x21b4f4b5 case 53 => 0x56b3c423 case 54 => 0xcfba9599 case 55 => 0xb8bda50f
    case 56 => 0x2802b89e case 57 => 0x5f058808 case 58 => 0xc60cd9b2 case 59 => 0xb10be924
    case 60 => 0x2f6f7c87 case 61 => 0x58684c11 case 62 => 0xc1611dab case 63 => 0xb6662d3d
    case _ => 0
  }

  function Row2(i: bv8): bv32 {
    match i
    case 64 => 0x76dc4190 case 65 => 0x01db7106 case 66 => 0x98d220bc case 67 => 0xefd5102a
    case 68 => 0x71b18589 case 69 => 0x06b6b51f case 70 => 0x9fbfe4a5 case 71 => 0xe8b8d433
    case 72 => 0x7807c9a2 case 73 => 0x0f00f934 case 74 => 0x9609a88e case 75 => 0xe10e9818
    case 76 => 0x7f6a0dbb case 77 => 0x086d3d2d case 78 => 0x91646c97 case 79 => 0xe6635c01
    case 80 => 0x6b6b51f4 case 81 => 0x1c6c6162 case 82 => 0x856530d8 case 83 => 0xf262004e
    case 84 => 0x6c0695ed case 85 => 0x1b01a57b case 86 => 0x8208f4c1 case 87 => 0xf50fc457
    case 88 => 0x65b0d9c6 case 89 => 0x12b7e950 case 90 => 0x8bbeb8ea case 91 => 0xfcb9887c
    case 92 => 0x62dd1ddf case 93 => 0x15da2d49 case 94 => 0x8cd37cf3 case 95 => 0xfbd44c65
    case _ => 0
  }

  function Row3(i: bv8): bv32 {
    match i
    case 96 => 0x4db26158 case 97 => 0x3ab551ce case 98 => 0xa3bc0074 case 99 => 0xd4bb30e2
    case 100 => 0x4adfa541 case 101 => 0x3dd895d7 case 102 => 0xa4d1c46d case 103 => 0xd3d6f4fb
    case 104 => 0x4369e96a case 105 => 0x346ed9fc case 106 => 0xad678846 case 107 => 0xda60b8d0
    case 108 => 0x44042d73 case 109 => 0x33031de5 case 110 => 0xaa0a4c5f case 111 => 0xdd0d7cc9
    case 112 => 0x5005713c case 113 => 0x270241aa case 114 => 0xbe0b1010 case 115 => 0xc90c2086
    case 116 => 0x5768b525 case 117 => 0x206f85b3 case 118 => 0xb966d409 case 119 => 0xce61e49f
    case 120 => 0x5edef90e case 121 => 0x29d9c998 case 122 => 0xb0d09822 case 123 => 0xc7d7a8b4
    case 124 => 0x59b33d17 case 125 => 0x2eb40d81 case 126 => 0xb7bd5c3b case 127 => 0xc0ba6cad
    case _ => 0
  }

  function Row4(i: bv8): bv32 {
    match i
    case 128 => 0xedb88320 case 129 => 0x9abfb3b6 case 130 => 0x03b6e20c case 131 => 0x74b1d29a
    case 132 => 0xead54739 case 133 => 0x9dd277af case 134 => 0x04db2615 case 135 => 0x73dc1683
    case 136 => 0xe3630b12 case 137 => 0x94643b84 case 138 => 0x0d6d6a3e case 139 => 0x7a6a5aa8
    case 140 => 0xe40ecf0b case 141 => 0x9309ff9d case 142 => 0x0a00ae27 case 143 => 0x7d079eb1
    case 144 => 0xf00f9344 case 145 => 0x8708a3d2 case 146 => 0x1e01f268 case 147 => 0x6906c2fe
    case 148 => 0xf762575d case 149 => 0x806567cb case 150 => 0x196c3671 case 151 => 0x6e6b06e7
    case 152 => 0xfed41b76 case 153 => 0x89d32be0 case 154 => 0x10da7a5a case 155 => 0x67dd4acc
    case 156 => 0xf9b9df6f case 157 => 0x8ebeeff9 case 158 => 0x17b7be43 case 159 => 0x60b08ed5
    case _ => 0
  }

  function Row5(i: bv8): bv32 {
    match i
    case 160 => 0xd6d6a3e8 case 161 => 0xa1d1937e case 162 => 0x38d8c2c4 case 163 => 0x4fdff252
    case 164 => 0xd1bb67f1 case 165 => 0xa6bc5767 case 166 => 0x3fb506dd case 167 => 0x48b2364b
    case 168 => 0xd80d2bda case 169 => 0xaf0a1b4c case 170 => 0x36034af6 case 171 => 0x41047a60
    case 172 => 0xdf60efc3 case 173 => 0xa867df55 case 174 => 0x316e8eef case 175 => 0x4669be79
    case 176 => 0xcb61b38c case 177 => 0xbc66831a case 178 => 0x256fd2a0 case 179 => 0x5268e236
    case 180 => 0xcc0c7795 case 181 => 0xbb0b4703 case 182 => 0x220216b9 case 183 => 0x5505262f
    case 184 => 0xc5ba3bbe case 185 => 0xb2bd0b28 case 186 => 0x2bb45a92 case 187 => 0x5cb36a04
    case 188 => 0xc2d7ffa7 case 189 => 0xb5d0cf31 case 190 => 0x2cd99e8b case 191 => 0x5bdeae1d
    case _ => 0
  }

  function Row6(i: bv8): bv32 {
    match i
    case 192 => 0x9b64c2b0 case 193 => 0xec63f226 case 194 => 0x756aa39c case 195 => 0x026d930a
    case 196 => 0x9c0906a9 case 197 => 0xeb0e363f case 198 => 0x72076785 case 199 => 0x05005713
    case 200 => 0x95bf4a82 case 201 => 0xe2b87a14 case 202 => 0x7bb12bae case 203 => 0x0cb61b38
    case 204 => 0x92d28e9b case 205 => 0xe5d5be0d case 206 => 0x7cdcefb7 case 207 => 0x0bdbdf21
    case 208 => 0x86d3d2d4 case 209 => 0xf1d4e242 case 210 => 0x68ddb3f8 case 211 => 0x1fda836e
    case 212 => 0x81be16cd case 213 => 0xf6b9265b case 214 => 0x6fb077e1 case 215 => 0x18b74777
    case 216 => 0x88085ae6 case 217 => 0xff0f6a70 case 218 => 0x66063bca case 219 => 0x11010b5c
    case 220 => 0x8f659eff case 221 => 0xf862ae69 case 222 => 0x616bffd3 case 223 => 0x166ccf45
    case _ => 0
  }

  function Row7(i: bv8): bv32 {
    match i
    case 224 => 0xa00ae278 case 225 => 0xd70dd2ee case 226 => 0x4e048354 case 227 => 0x3903b3c2
    case 228 => 0xa7672661 case 229 => 0xd06016f7 case 230 => 0x4969474d case 231 => 0x3e6e77db
    case 232 => 0xaed16a4a case 233 => 0xd9d65adc case 234 => 0x40df0b66 case 235 => 0x37d83bf0
    case 236 => 0xa9bcae53 case 237 => 0xdebb9ec5 case 238 => 0x47b2cf7f case 239 => 0x30b5ffe9
    case 240 => 0xbdbdf21c case 241 => 0xcabac28a case 242 => 0x53b39330 case 243 => 0x24b4a3a6
    case 244 => 0xbad03605 case 245 => 0xcdd70693 case 246 => 0x54de5729 case 247 => 0x23d967bf
    case 248 => 0xb3667a2e case 249 => 0xc4614ab8 case 250 => 0x5d681b02 case 251 => 0x2a6f2b94
    case 252 => 0xb40bbe37 case 253 => 0xc30c8ea1 case 254 => 0x5a05df1b case 255 => 0x2d02ef8d
    case _ => 0
  }

  /** crc_table. */
  function Table(i: bv8): bv32 {
    if i < 32 then Row0(i) else if i < 64 then Row1(i) else if i < 96 then Row2(i) else if i < 128 then Row3(i)
    else if i < 160 then Row4(i) else if i < 192 then Row5(i) else if i < 224 then Row6(i) else Row7(i)
  }

  // ---- the bitwise form ----

  function Xor(a: bv32, b: bv32): bv32 {
    a ^ b
  }

  function Half(c: bv32): bv32 {
    c >> 1
  }

  predicate Odd(c: bv32) {
    c & 1 == 1
  }

  function Complement(c: bv32): bv32 {
    !c
  }

  /** One bit of the division, least significant bit first. */
  function Shift(c: bv32): bv32 {
    if Odd(c) then Xor(POLYNOMIAL, Half(c)) else Half(c)
  }

  function EightShifts(c: bv32): bv32 {
    Shift(Shift(Shift(Shift(Shift(Shift(Shift(Shift(c))))))))
  }

  /** The register after the bytes of `s`, each divided bit by bit. */
  function Bitwise(c: bv32, s: seq<bv8>): bv32
    decreases |s|
  {
    if s == [] then c else Bitwise(EightShifts(Xor(c, s[0] as bv32)), s[1..])
  }

  /** The CRC of `s` continued from the CRC `origin`: the register is complemented around it. */
  function Crc(origin: bv32, s: seq<bv8>): bv32 {
    Complement(Bitwise(Complement(origin), s))
  }

  // ---- the table against it ----

  lemma Row0IsBitwise(i: bv8)
    requires 0 <= i < 32
    ensures Row0(i) == EightShifts(i as bv32)
  {
    match i
    case 0 => case 1 => case 2 => case 3 => case 4 => case 5 => case 6 => case 7 =>
    case 8 => case 9 => case 10 => case 11 => case 12 => case 13 => case 14 => case 15 =>
    case 16 => case 17 => case 18 => case 19 => case 20 => case 21 => case 22 => case 23 =>
    case 24 => case 25 => case 26 => case 27 => case 28 => case 29 => case 30 => case 31 =>
    case _ =>
  }

  lemma Row1IsBitwise(i: bv8)
    requires 32 <= i < 64
    ensures Row1(i) == EightShifts(i as bv32)
  {
    match i
    case 32 => case 33 => case 34 => case 35 => case 36 => case 37 => case 38 => case 39 =>
    case 40 => case 41 => case 42 => case 43 => case 44 => case 45 => case 46 => case 47 =>
    case 48 => case 49 => case 50 => case 51 => case 52 => case 53 => case 54 => case 55 =>
    case 56 => case 57 => case 58 => case 59 => case 60 => case 61 => case 62 => case 63 =>
    case _ =>
  }

  lemma Row2IsBitwise(i: bv8)
    requires 64 <= i < 96
    ensures Row2(i) == EightShifts(i as bv32)
  {
    match i
    case 64 => case 65 => case 66 => case 67 => case 68 => case 69 => case 70 => case 71 =>
    case 72 => case 73 => case 74 => case 75 => case 76 => case 77 => case 78 => case 79 =>
    case 80 => case 81 => case 82 => case 83 => case 84 => case 85 => case 86 => case 87 =>
    case 88 => case 89 => case 90 => case 91 => case 92 => case 93 => case 94 => case 95 =>
    case _ =>
  }

  lemma Row3IsBitwise(i: bv8)
    requires 96 <= i < 128
    ensures Row3(i) == EightShifts(i as bv32)
  {
    match i
    case 96 => case 97 => case 98 => case 99 => case 100 => case 101 => case 102 => case 103 =>
    case 104 => case 105 => case 106 => case 107 => case 108 => case 109 => case 110 => case 111 =>
    case 112 => case 113 => case 114 => case 115 => case 116 => case 117 => case 118 => case 119 =>
    case 120 => case 121 => case 122 => case 123 => case 124 => case 125 => case 126 => case 127 =>
    case _ =>
  }

  lemma Row4IsBitwise(i: bv8)
    requires 128 <= i < 160
    ensures Row4(i) == EightShifts(i as bv32)
  {
    match i
    case 128 => case 129 => case 130 => case 131 => case 132 => case 133 => case 134 => case 135 =>
    case 136 => case 137 => case 138 => case 139 => case 140 => case 141 => case 142 => case 143 =>
    case 144 => case 145 => case 146 => case 147 => case 148 => case 149 => case 150 => case 151 =>
    case 152 => case 153 => case 154 => case 155 => case 156 => case 157 => case 158 => case 159 =>
    case _ =>
  }

  lemma Row5IsBitwise(i: bv8)
    requires 160 <= i < 192
    ensures Row5(i) == EightShifts(i as bv32)
  {
    match i
    case 160 => case 161 => case 162 => case 163 => case 164 => case 165 => case 166 => case 167 =>
    case 168 => case 169 => case 170 => case 171 => case 172 => case 173 => case 174 => case 175 =>
    case 176 => case 177 => case 178 => case 179 => case 180 => case 181 => case 182 => case 183 =>
    case 184 => case 185 => case 186 => case 187 => case 188 => case 189 => case 190 => case 191 =>
    case _ =>
  }

  lemma Row6IsBitwise(i: bv8)
    requires 192 <= i < 224
    ensures Row6(i) == EightShifts(i as bv32)
  {
    match i
    case 192 => case 193 => case 194 => case 195 => case 196 => case 197 => case 198 => case 199 =>
    case 200 => case 201 => case 202 => case 203 => case 204 => case 205 => case 206 => case 207 =>
    case 208 => case 209 => case 210 => case 211 => case 212 => case 213 => case 214 => case 215 =>
    case 216 => case 217 => case 218 => case 219 => case 220 => case 221 => case 222 => case 223 =>
    case _ =>
  }

  lemma Row7IsBitwise(i: bv8)
    requires 224 <= i
    ensures Row7(i) == EightShifts(i as bv32)
  {
    match i
    case 224 => case 225 => case 226 => case 227 => case 228 => case 229 => case 230 => case 231 =>
    case 232 => case 233 => case 234 => case 235 => case 236 => case 237 => case 238 => case 239 =>
    case 240 => case 241 => case 242 => case 243 => case 244 => case 245 => case 246 => case 247 =>
    case 248 => case 249 => case 250 => case 251 => case 252 => case 253 => case 254 => case 255 =>
    case _ =>
  }

  /** Each table entry is its index divided by eight bits. */
  lemma TableIsBitwise(i: bv8)
    ensures Table(i) == EightShifts(i as bv32)
  {
    hide Row0, Row1, Row2, Row3, Row4, Row5, Row6, Row7, EightShifts;
    if i < 32 { Row0IsBitwise(i); }
    else if i < 64 { Row1IsBitwise(i); }
    else if i < 96 { Row2IsBitwise(i); }
    else if i < 128 { Row3IsBitwise(i); }
    else if i < 160 { Row4IsBitwise(i); }
    else if i < 192 { Row5IsBitwise(i); }
    else if i < 224 { Row6IsBitwise(i); }
    else { Row7IsBitwise(i); }
  }

  lemma XorLeft(p: bv32, a: bv32, b: bv32)
    ensures Xor(Xor(p, a), b) == Xor(p, Xor(a, b))
  {
  }

  lemma XorRight(p: bv32, a: bv32, b: bv32)
    ensures Xor(a, Xor(p, b)) == Xor(p, Xor(a, b))
  {
  }

  lemma XorBoth(p: bv32, a: bv32, b: bv32)
    ensures Xor(Xor(p, a), Xor(p, b)) == Xor(a, b)
  {
    hide Xor;
    XorLeft(p, a, Xor(p, b));
    XorRight(p, a, b);
    XorCancel(p, Xor(a, b));
  }

  lemma XorCancel(p: bv32, a: bv32)
    ensures Xor(p, Xor(p, a)) == a
  {
  }

  lemma HalfLinear(a: bv32, b: bv32)
    ensures Half(Xor(a, b)) == Xor(Half(a), Half(b))
  {
  }

  lemma OddLinear(a: bv32, b: bv32)
    ensures Odd(Xor(a, b)) <==> (Odd(a) <==> !Odd(b))
  {
  }

  /** The division is linear. */
  lemma ShiftLinear(a: bv32, b: bv32)
    ensures Shift(Xor(a, b)) == Xor(Shift(a), Shift(b))
  {
    hide Xor, Half, Odd;
    HalfLinear(a, b);
    OddLinear(a, b);
    XorLeft(POLYNOMIAL, Half(a), Half(b));
    XorRight(POLYNOMIAL, Half(a), Half(b));
    XorBoth(POLYNOMIAL, Half(a), Half(b));
  }

  lemma EightShiftsLinear(a: bv32, b: bv32)
    ensures EightShifts(Xor(a, b)) == Xor(EightShifts(a), EightShifts(b))
  {
    hide Shift, Xor;
    ShiftLinear(a, b);
    var a1, b1 := Shift(a), Shift(b);
    ShiftLinear(a1, b1);
    var a2, b2 := Shift(a1), Shift(b1);
    ShiftLinear(a2, b2);
    var a3, b3 := Shift(a2), Shift(b2);
    ShiftLinear(a3, b3);
    var a4, b4 := Shift(a3), Shift(b3);
    ShiftLinear(a4, b4);
    var a5, b5 := Shift(a4), Shift(b4);
    ShiftLinear(a5, b5);
    var a6, b6 := Shift(a5), Shift(b5);
    ShiftLinear(a6, b6);
    var a7, b7 := Shift(a6), Shift(b6);
    ShiftLinear(a7, b7);
  }

  /** Without a low byte the register only moves. */
  lemma EightShiftsOfHigh(h: bv32)
    requires h & 0xff == 0
    ensures EightShifts(h) == h >> 8
  {
    assert Shift(h) == h >> 1;
    assert Shift(h >> 1) == h >> 2;
    assert Shift(h >> 2) == h >> 3;
    assert Shift(h >> 3) == h >> 4;
    assert Shift(h >> 4) == h >> 5;
    assert Shift(h >> 5) == h >> 6;
    assert Shift(h >> 6) == h >> 7;
    assert Shift(h >> 7) == h >> 8;
  }

  function Low(c: bv32): bv32 {
    c & 0xff
  }

  function High(c: bv32): bv32 {
    c & 0xffffff00
  }

  function Down(c: bv32): bv32 {
    c >> 8
  }

  function Index(c: bv32, b: bv8): bv8 {
    (((c & 0xff) ^ (b as bv32)) & 0xff) as bv8
  }

  /** One round of the loop of calc_crc32. */
  function Step(c: bv32, b: bv8): bv32 {
    Xor(Down(c), Table(Index(c, b)))
  }

  lemma HighAndLow(x: bv32)
    ensures x == Xor(High(x), Low(x))
  {
  }

  lemma HighMasked(x: bv32)
    ensures High(x) & 0xff == 0
  {
  }

  lemma HighDown(c: bv32, b: bv8)
    ensures Down(High(Xor(c, b as bv32))) == Down(c)
  {
  }

  lemma HighShifted(h: bv32)
    requires h & 0xff == 0
    ensures EightShifts(h) == Down(h)
  {
    hide EightShifts;
    EightShiftsOfHigh(h);
  }

  lemma HighOnly(c: bv32, b: bv8)
    ensures EightShifts(High(Xor(c, b as bv32))) == Down(c)
  {
    hide EightShifts, High, Xor, Down;
    var h := High(Xor(c, b as bv32));
    HighMasked(Xor(c, b as bv32));
    HighShifted(h);
    HighDown(c, b);
  }

  lemma LowIsIndex(c: bv32, b: bv8)
    ensures Index(c, b) as bv32 == Low(Xor(c, b as bv32))
  {
  }

  /** One table lookup divides by a whole byte. */
  lemma StepIsBitwise(c: bv32, b: bv8)
    ensures Step(c, b) == EightShifts(Xor(c, b as bv32))
  {
    hide Table, EightShifts, Xor, Low, High, Down, Index;
    var x := Xor(c, b as bv32);
    HighAndLow(x);
    EightShiftsLinear(High(x), Low(x));
    HighOnly(c, b);
    LowIsIndex(c, b);
    TableIsBitwise(Index(c, b));
  }

  /** calc_crc32 on a buffer of `len` bytes; a missing buffer or a negative length gives 0. */
  method CalcCrc32(origin: bv32, buf: array?<bv8>, len: int) returns (crc: bv32)
    requires buf != null ==> len <= buf.Length
    ensures buf == null || len < 0 ==> crc == 0
    ensures buf != null && len >= 0 ==> crc == Crc(origin, buf[..len])
  {
    hide Step, EightShifts, Xor, Complement;
    if buf == null || len < 0 {
      return 0;
    }
    crc := Complement(origin);
    var i := 0;
    while i < len
      invariant 0 <= i <= len
      invariant Bitwise(Complement(origin), buf[..len]) == Bitwise(crc, buf[..len][i..])
    {
      assert buf[..len][i..][1..] == buf[..len][i + 1..];
      StepIsBitwise(crc, buf[i]);
      crc := Step(crc, buf[i]);
      i := i + 1;
    }
    crc := Complement(crc);
  }

  lemma {:induction false} BitwiseConcat(c: bv32, s: seq<bv8>, t: seq<bv8>)
    ensures Bitwise(c, s + t) == Bitwise(Bitwise(c, s), t)
    decreases |s|
  {
    hide EightShifts, Xor;
    if s == [] {
      assert s + t == t;
    } else {
      assert (s + t)[1..] == s[1..] + t;
      BitwiseConcat(EightShifts(Xor(c, s[0] as bv32)), s[1..], t);
    }
  }

  /** The CRC of a message fed in chunks, each continued from the one before. */
  function Chunked(origin: bv32, chunks: seq<seq<bv8>>): bv32
    decreases |chunks|
  {
    if chunks == [] then origin else Chunked(Crc(origin, chunks[0]), chunks[1..])
  }

  function Flatten(chunks: seq<seq<bv8>>): seq<bv8> {
    if chunks == [] then [] else chunks[0] + Flatten(chunks[1..])
  }

  lemma ComplementTwice(c: bv32)
    ensures Complement(Complement(c)) == c
  {
  }

  /** However a message is cut into chunks, feeding them through `origin` is feeding it at once. */
  lemma {:induction false} ChunksAgree(origin: bv32, chunks: seq<seq<bv8>>)
    ensures Chunked(origin, chunks) == Crc(origin, Flatten(chunks))
    decreases |chunks|
  {
    hide Complement, EightShifts;
    if chunks == [] {
      ComplementTwice(origin);
    } else {
      ChunksAgree(Crc(origin, chunks[0]), chunks[1..]);
      BitwiseConcat(Complement(origin), chunks[0], Flatten(chunks[1..]));
      ComplementTwice(Bitwise(Complement(origin), chunks[0]));
    }
  }

  // ---- the check value ----

  lemma CheckBytes()
    ensures EightShifts(Xor(0xffffffff, 0x31)) == 0x7c231048
    ensures EightShifts(Xor(0x7c231048, 0x32)) == 0xb0acbb32
    ensures EightShifts(Xor(0xb0acbb32, 0x33)) == 0x77b79c2d
    ensures EightShifts(Xor(0x77b79c2d, 0x34)) == 0x641c1f5c
    ensures EightShifts(Xor(0x641c1f5c, 0x35)) == 0x340ac5e3
    ensures EightShifts(Xor(0x340ac5e3, 0x36)) == 0xf68d2c9e
    ensures EightShifts(Xor(0xf68d2c9e, 0x37)) == 0xaffc9660
    ensures EightShifts(Xor(0xaffc9660, 0x38)) == 0x651f2550
    ensures EightShifts(Xor(0x651f2550, 0x39)) == 0x340bc6d9
  {
  }

  /** The CRC of the nine digits from 1 to 9 is the check value of this CRC. */
  lemma CheckValue()
    ensures Crc(0, [0x31, 0x32, 0x33, 0x34, 0x35, 0x36, 0x37, 0x38, 0x39]) == 0xcbf43926
  {
    hide EightShifts, Xor;
    CheckBytes();
    var s: seq<bv8> := [0x31, 0x32, 0x33, 0x34, 0x35, 0x36, 0x37, 0x38, 0x39];
    assert Bitwise(0x340bc6d9, s[9..]) == 0x340bc6d9;
    assert Bitwise(0x651f2550, s[8..]) == 0x340bc6d9 by { assert s[8..][1..] == s[9..]; }
    assert Bitwise(0xaffc9660, s[7..]) == 0x340bc6d9 by { assert s[7..][1..] == s[8..]; }
    assert Bitwise(0xf68d2c9e, s[6..]) == 0x340bc6d9 by { assert s[6..][1..] == s[7..]; }
    assert Bitwise(0x340ac5e3, s[5..]) == 0x340bc6d9 by { assert s[5..][1..] == s[6..]; }
    assert Bitwise(0x641c1f5c, s[4..]) == 0x340bc6d9 by { assert s[4..][1..] == s[5..]; }
    assert Bitwise(0x77b79c2d, s[3..]) == 0x340bc6d9 by { assert s[3..][1..] == s[4..]; }
    assert Bitwise(0xb0acbb32, s[2..]) == 0x340bc6d9 by { assert s[2..][1..] == s[3..]; }
    assert Bitwise(0x7c231048, s[1..]) == 0x340bc6d9 by { assert s[1..][1..] == s[2..]; }
    assert Bitwise(0xffffffff, s[0..]) == 0x340bc6d9 by { assert s[0..][1..] == s[1..]; }
    assert s[0..] == s && Complement(0) == 0xffffffff;
  }
}
