/** Unsigned LEB128 (WebAssembly Core Specification, section 5.2.2): the encoder loop, the
    decoder loop, and the reference reading of a byte string that ties them together. */
module Leb128 {
  import opened Common
  import opened Powers

  // ----- 64-bit operations on naturals

  /** Bitwise or. */
  function BitOr(a: nat, b: nat): nat
    decreases a + b
  {
    if a == 0 then b
    else if b == 0 then a
    else (if a % 2 == 1 || b % 2 == 1 then 1 else 0) + 2 * BitOr(a / 2, b / 2)
  }

  /** Left shift of a 64-bit word: bits shifted past the top are lost. */
  function ShiftLeft64(a: nat, shift: nat): nat {
    (a * Pow2(shift)) % TWO_TO_THE_64
  }

  /** Or-ing in a word whose low bits are all above the other's is addition. */
  lemma {:induction false} OrDisjoint(a: nat, b: nat, s: nat)
    requires a < Pow2(s)
    ensures BitOr(a, b * Pow2(s)) == a + b * Pow2(s)
  {
    if s > 0 && a > 0 && b > 0 {
      var w := b * Pow2(s - 1);
      assert b * Pow2(s) == 2 * w;
      OrDisjoint(a / 2, b, s - 1);
      hide Pow2;
      OrEven(a, w);
    }
  }

  /** Or-ing in an even number leaves the lowest bit alone. */
  lemma OrEven(a: nat, w: nat)
    requires a > 0 && w > 0
    ensures BitOr(a, 2 * w) == a % 2 + 2 * BitOr(a / 2, w)
  {
  }

  // ----- the reference reading

  /** The number a byte string denotes: seven bits a byte, least significant group first. */
  function Value(bs: seq<byte>): nat {
    if bs == [] then 0 else bs[0] as nat % 128 + 128 * Value(bs[1..])
  }

  /** How many bytes one number takes: up to and including the first byte without the
      continuation bit, but never more than ten, nor more than there are. */
  function Length(bs: seq<byte>): (n: nat)
    ensures n <= 10 && n <= |bs| && (bs != [] ==> n > 0)
    ensures forall i | 0 <= i < n - 1 :: bs[i] >= 128
    ensures n < 10 && n < |bs| ==> n > 0 && bs[n - 1] < 128
  {
    LengthFrom(bs, 0)
  }

  function LengthFrom(bs: seq<byte>, i: nat): (n: nat)
    requires i <= |bs| && i <= 10
    ensures i <= n <= 10 && n <= |bs| && (i < |bs| && i < 10 ==> n > i)
    ensures forall k | i <= k < n - 1 :: bs[k] >= 128
    ensures n < 10 && n < |bs| ==> n > i && bs[n - 1] < 128
    decreases 10 - i
  {
    if i == |bs| || i == 10 then i
    else if bs[i] < 128 then i + 1
    else LengthFrom(bs, i + 1)
  }

  /** The reader stops at the first byte without the continuation bit. */
  lemma LengthUnique(bs: seq<byte>, n: nat)
    requires 0 < n <= 10 && n <= |bs|
    requires forall i | 0 <= i < n - 1 :: bs[i] >= 128
    requires bs[n - 1] < 128
    ensures Length(bs) == n
  {
    var m := Length(bs);
  }

  lemma {:induction false} ValueAppend(bs: seq<byte>, b: byte)
    ensures Value(bs + [b]) == Value(bs) + (b as nat % 128) * Pow2(7 * |bs|)
  {
    if bs == [] {
      assert Value([b]) == b as nat % 128 + 128 * Value([b][1..]);
    } else {
      assert (bs + [b])[1..] == bs[1..] + [b];
      ValueAppend(bs[1..], b);
      Pow2Seven(7 * |bs[1..]|);
      assert 7 * |bs| == 7 * |bs[1..]| + 7;
      var low, p := b as nat % 128, Pow2(7 * |bs[1..]|);
      assert 128 * (low * p) == low * (128 * p);
    }
  }

  lemma {:induction false} ValueBound(bs: seq<byte>)
    ensures Value(bs) < Pow2(7 * |bs|)
  {
    if bs != [] {
      ValueBound(bs[1..]);
      Pow2Seven(7 * |bs[1..]|);
      assert 7 * |bs| == 7 * |bs[1..]| + 7;
    }
  }

  // ----- the decoder

  lemma SixtyFourBits()
    ensures Pow2(64) == TWO_TO_THE_64
  {
    assert Pow2(8) == 256;
    Pow2Seven(1);
    Pow2Seven(8);
    Pow2Seven(15);
    Pow2Seven(22);
    Pow2Seven(29);
    Pow2Seven(36);
    Pow2Seven(43);
    Pow2Seven(50);
    Pow2Seven(57);
  }

  lemma SmallModulo(x: nat, k: nat)
    requires x < TWO_TO_THE_64
    ensures (x + k * TWO_TO_THE_64) % TWO_TO_THE_64 == x
  {
  }

  lemma FullGroup(v: nat, low: nat, s: nat)
    requires v < Pow2(s) && low < 128 && 128 * Pow2(s) <= TWO_TO_THE_64
    ensures ShiftLeft64(low, s) == low * Pow2(s)
    ensures v + low * Pow2(s) < TWO_TO_THE_64
  {
    MulAtMost(low, 127, Pow2(s));
    SmallModulo(low * Pow2(s), 0);
  }

  lemma LastBit(v: nat, low: nat, s: nat)
    requires v < Pow2(s) && 2 * Pow2(s) == TWO_TO_THE_64
    ensures ShiftLeft64(low, s) == (low % 2) * Pow2(s)
    ensures v + (low % 2) * Pow2(s) == (v + low * Pow2(s)) % TWO_TO_THE_64
  {
    var p := Pow2(s);
    var bit, lost := low % 2, low / 2;
    assert low * p == bit * p + lost * TWO_TO_THE_64;
    assert bit * p <= p;
    SmallModulo(bit * p, lost);
    SmallModulo(v + bit * p, lost);
  }

  lemma OrGroup(v: nat, low: nat, s: nat)
    requires v < Pow2(s) && low < 128
    requires 128 * Pow2(s) <= TWO_TO_THE_64 || 2 * Pow2(s) == TWO_TO_THE_64
    ensures BitOr(v, ShiftLeft64(low, s)) == (v + low * Pow2(s)) % TWO_TO_THE_64
  {
    if 2 * Pow2(s) == TWO_TO_THE_64 {
      LastBit(v, low, s);
      OrDisjoint(v, low % 2, s);
    } else {
      FullGroup(v, low, s);
      SmallModulo(v + low * Pow2(s), 0);
      OrDisjoint(v, low, s);
    }
  }

  lemma GroupCapacity(k: nat)
    requires k <= 9
    ensures k <= 8 ==> 128 * Pow2(7 * k) <= TWO_TO_THE_64
    ensures k == 9 ==> 2 * Pow2(7 * k) == TWO_TO_THE_64
  {
    SixtyFourBits();
    Pow2Seven(7 * k);
    if k <= 8 {
      Pow2Monotone(7 * k + 7, 64);
    } else {
      assert 7 * k == 63;
    }
  }

  /** Or-ing the next group in at its shift adds it; of a tenth group only one bit is left. */
  lemma NextGroup(bs: seq<byte>, b: byte)
    requires |bs| <= 9
    ensures BitOr(Value(bs), ShiftLeft64(b as nat % 128, 7 * |bs|)) == Value(bs + [b]) % TWO_TO_THE_64
    ensures |bs| <= 8 ==> Value(bs + [b]) < TWO_TO_THE_64
  {
    hide Value, Pow2, BitOr, ShiftLeft64;
    var s, low := 7 * |bs|, b as nat % 128;
    ValueBound(bs);
    ValueAppend(bs, b);
    GroupCapacity(|bs|);
    OrGroup(Value(bs), low, s);
    if |bs| <= 8 {
      FullGroup(Value(bs), low, s);
    }
  }

  /** What the reader returns: the number modulo 2^64, and how many bytes it took. */
  function Read(bs: seq<byte>): (nat, nat) {
    (Value(bs[..Length(bs)]) % TWO_TO_THE_64, Length(bs))
  }

  lemma NextByte(bytes: seq<byte>, pos: nat)
    requires pos < |bytes| && pos <= 9
    ensures BitOr(Value(bytes[..pos]), ShiftLeft64(bytes[pos] as nat % 128, 7 * pos))
         == Value(bytes[..pos + 1]) % TWO_TO_THE_64
    ensures pos <= 8 ==> Value(bytes[..pos + 1]) % TWO_TO_THE_64 == Value(bytes[..pos + 1])
  {
    hide Value, Pow2, BitOr, ShiftLeft64;
    assert bytes[..pos + 1] == bytes[..pos] + [bytes[pos]];
    NextGroup(bytes[..pos], bytes[pos]);
  }

  /** A number that never ends takes all the bytes there are, or ten. */
  lemma LengthUnended(bs: seq<byte>, n: nat)
    requires n <= |bs| && n <= 10 && (n == |bs| || n == 10)
    requires forall i | 0 <= i < n :: bs[i] >= 128
    ensures Length(bs) == n
  {
    var m := Length(bs);
  }

  method ReadLeb128(bytes: seq<byte>) returns (result: nat, pos: nat)
    ensures (result, pos) == Read(bytes)
    ensures pos <= 10 && pos <= |bytes|
  {
    hide Pow2, BitOr, ShiftLeft64;
    result, pos := 0, 0;
    var shift := 0;
    while pos < |bytes|
      invariant pos <= |bytes| && pos <= 9 && shift == 7 * pos
      invariant result == Value(bytes[..pos]) == Value(bytes[..pos]) % TWO_TO_THE_64
      invariant forall i | 0 <= i < pos :: bytes[i] >= 128
    {
      var b := bytes[pos];
      NextByte(bytes, pos);
      result := BitOr(result, ShiftLeft64(b as nat % 128, shift));
      pos := pos + 1;
      if b < 128 {
        LengthUnique(bytes, pos);
        return;
      }
      shift := shift + 7;
      if shift >= 64 {
        LengthUnended(bytes, pos);
        return;
      }
    }
    LengthUnended(bytes, pos);
  }

  // ----- the encoder

  function Encode(n: nat): seq<byte> {
    if n < 128 then [n as byte] else [(n % 128 + 128) as byte] + Encode(n / 128)
  }

  method EncodeSize(n: nat) returns (sizeBytes: seq<byte>)
    ensures sizeBytes == Encode(n)
  {
    sizeBytes := [];
    var size := n;
    while true
      invariant sizeBytes + Encode(size) == Encode(n)
      decreases size
    {
      var b: nat := size % 128;
      var rest := size / 128;
      if rest != 0 {
        b := b + 128;
      }
      sizeBytes := sizeBytes + [b as byte];
      if rest == 0 {
        return;
      }
      size := rest;
    }
  }

  /** The encoding denotes the number, and only its last byte has no continuation bit. */
  lemma {:induction false} EncodeMeaning(n: nat)
    ensures Value(Encode(n)) == n
    ensures |Encode(n)| > 0 && Encode(n)[|Encode(n)| - 1] < 128
    ensures forall i | 0 <= i < |Encode(n)| - 1 :: Encode(n)[i] >= 128
  {
    if n >= 128 {
      EncodeMeaning(n / 128);
      assert Encode(n)[1..] == Encode(n / 128);
    } else {
      assert Encode(n)[1..] == [];
    }
  }

  lemma {:induction false} EncodeLength(n: nat, k: nat)
    requires k > 0 && n < Pow2(7 * k)
    ensures |Encode(n)| <= k
  {
    if n >= 128 {
      assert k > 1 by {
        if k == 1 {
          Pow2Seven(0);
        }
      }
      Pow2Seven(7 * (k - 1));
      assert 7 * k == 7 * (k - 1) + 7;
      EncodeLength(n / 128, k - 1);
    }
  }

  /** Reading undoes encoding, whatever bytes follow: the number comes back, and exactly
      its encoding is consumed. */
  lemma ReadEncode(n: nat, tail: seq<byte>)
    requires n < TWO_TO_THE_64
    ensures Read(Encode(n) + tail) == (n, |Encode(n)|)
    ensures 1 <= |Encode(n)| <= 10
  {
    hide Encode, Pow2, Value, LengthFrom;
    EncodeMeaning(n);
    SixtyFourBits();
    Pow2Monotone(64, 70);
    EncodeLength(n, 10);
    var bs := Encode(n) + tail;
    LengthUnique(bs, |Encode(n)|);
    assert bs[..|Encode(n)|] == Encode(n);
  }
}
