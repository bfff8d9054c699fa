/** Bytes as bit vectors, put together from their two hexadecimal digits. */
module ByteBits {
  import opened Bytes

  function NibbleBits(n: nat): bv8 {
    match n
    case 0 => 0 case 1 => 1 case 2 => 2 case 3 => 3 case 4 => 4 case 5 => 5 case 6 => 6 case 7 => 7
    case 8 => 8 case 9 => 9 case 10 => 10 case 11 => 11 case 12 => 12 case 13 => 13 case 14 => 14
    case _ => 15
  }

  function NibbleValue(v: bv8): (n: nat)
    ensures n < 16
  {
    match v
    case 0 => 0 case 1 => 1 case 2 => 2 case 3 => 3 case 4 => 4 case 5 => 5 case 6 => 6 case 7 => 7
    case 8 => 8 case 9 => 9 case 10 => 10 case 11 => 11 case 12 => 12 case 13 => 13 case 14 => 14
    case _ => 15
  }

  function Join(high: bv8, low: bv8): bv8 {
    (high << 4) | low
  }

  function HighNibble(v: bv8): bv8 {
    v >> 4
  }

  function LowNibble(v: bv8): bv8 {
    v & 0x0f
  }

  function Bits(b: byte): bv8 {
    Join(NibbleBits(b / 16), NibbleBits(b % 16))
  }

  function FromBits(v: bv8): byte {
    16 * NibbleValue(HighNibble(v)) + NibbleValue(LowNibble(v))
  }

  function Xor(a: bv8, b: bv8): bv8 {
    a ^ b
  }

  lemma NibbleBack(n: nat)
    requires n < 16
    ensures NibbleValue(NibbleBits(n)) == n && NibbleBits(n) < 16
  {
  }

  lemma NibbleBitsBack(v: bv8)
    requires v < 16
    ensures NibbleBits(NibbleValue(v)) == v
  {
  }

  lemma JoinSplits(high: bv8, low: bv8)
    requires high < 16 && low < 16
    ensures HighNibble(Join(high, low)) == high && LowNibble(Join(high, low)) == low
  {
  }

  lemma SplitJoins(v: bv8)
    ensures Join(HighNibble(v), LowNibble(v)) == v && HighNibble(v) < 16 && LowNibble(v) < 16
  {
  }

  lemma BitsBack(b: byte)
    ensures FromBits(Bits(b)) == b
  {
    hide NibbleBits, NibbleValue, Join, HighNibble, LowNibble;
    NibbleBack(b / 16);
    NibbleBack(b % 16);
    JoinSplits(NibbleBits(b / 16), NibbleBits(b % 16));
  }

  lemma FromBitsBack(v: bv8)
    ensures Bits(FromBits(v)) == v
  {
    hide NibbleBits, NibbleValue, Join, HighNibble, LowNibble;
    SplitJoins(v);
    NibbleBitsBack(HighNibble(v));
    NibbleBitsBack(LowNibble(v));
  }

  lemma XorCancel(a: bv8, b: bv8)
    ensures Xor(a, Xor(a, b)) == b && Xor(Xor(a, b), b) == a
  {
  }
}
