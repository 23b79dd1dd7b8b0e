/** UTF-8, as far as truncating a text at a character boundary needs it. */
module Utf8 {
  import opened Common

  /** The encoding of one scalar value: one to four bytes. */
  function Encode(c: char): (bs: seq<byte>)
    ensures 1 <= |bs| <= 4
  {
    var n := c as int;
    if n < 0x80 then [n as byte]
    else if n < 0x800 then [(0xC0 + n / 0x40) as byte, (0x80 + n % 0x40) as byte]
    else if n < 0x1_0000 then
      [(0xE0 + n / 0x1000) as byte, (0x80 + n / 0x40 % 0x40) as byte, (0x80 + n % 0x40) as byte]
    else
      [(0xF0 + n / 0x4_0000) as byte, (0x80 + n / 0x1000 % 0x40) as byte,
       (0x80 + n / 0x40 % 0x40) as byte, (0x80 + n % 0x40) as byte]
  }

  /** A byte that continues a character rather than starting one. */
  predicate Continues(b: byte) {
    0x80 <= b < 0xC0
  }

  lemma OnlyFirstByteStarts(c: char)
    ensures !Continues(Encode(c)[0])
    ensures forall k | 1 <= k < |Encode(c)| :: Continues(Encode(c)[k])
  {
  }

  function Bytes(s: string): seq<byte> {
    if s == [] then [] else Encode(s[0]) + Bytes(s[1..])
  }

  lemma {:induction false} BytesConcat(s: string, t: string)
    ensures Bytes(s + t) == Bytes(s) + Bytes(t)
  {
    if s == [] {
      assert s + t == t;
    } else {
      assert (s + t)[1..] == s[1..] + t;
      BytesConcat(s[1..], t);
    }
  }

  /** ASCII characters are encoded as their codes. */
  lemma {:induction false} AsciiBytes(s: string)
    requires forall k | 0 <= k < |s| :: s[k] as int < 0x80
    ensures |Bytes(s)| == |s| && forall k | 0 <= k < |s| :: Bytes(s)[k] as int == s[k] as int
  {
    if s != [] {
      AsciiBytes(s[1..]);
      assert Encode(s[0]) == [s[0] as int as byte];
    }
  }

  lemma SixBits(n: nat)
    ensures n == n / 0x40 * 0x40 + n % 0x40
    ensures n / 0x40 / 0x40 == n / 0x1000 && n / 0x1000 / 0x40 == n / 0x4_0000
  {
  }

  lemma FirstOf(lead: nat, bits: nat, n: nat)
    requires (bits == 0x20 && lead == 6) || (bits == 0x10 && lead == 14) || (bits == 0x08 && lead == 30)
    requires n < bits
    ensures (lead * bits + n) / bits == lead && (lead * bits + n) % bits == n
  {
  }

  lemma NextOf(n: nat)
    requires n < 0x40
    ensures (0x80 + n) % 0x40 == n
  {
  }

  lemma TwoBytes(c: char)
    requires 0x80 <= c as int < 0x800
    ensures |Encode(c)| == 2 && Encode(c)[0] as int / 0x20 == 6
    ensures Encode(c)[0] as int % 0x20 == c as int / 0x40 && Encode(c)[1] as int % 0x40 == c as int % 0x40
  {
    var n := c as int;
    FirstOf(6, 0x20, n / 0x40);
    NextOf(n % 0x40);
  }

  lemma ThreeBytes(c: char)
    requires 0x800 <= c as int < 0x1_0000
    ensures |Encode(c)| == 3 && Encode(c)[0] as int / 0x10 == 14
    ensures Encode(c)[0] as int % 0x10 == c as int / 0x1000
    ensures Encode(c)[1] as int % 0x40 == c as int / 0x40 % 0x40 && Encode(c)[2] as int % 0x40 == c as int % 0x40
  {
    var n := c as int;
    FirstOf(14, 0x10, n / 0x1000);
    NextOf(n % 0x40);
    NextOf(n / 0x40 % 0x40);
  }

  lemma FourBytes(c: char)
    requires c as int >= 0x1_0000
    ensures |Encode(c)| == 4 && Encode(c)[0] as int / 0x08 == 30
    ensures Encode(c)[0] as int % 0x08 == c as int / 0x4_0000
    ensures Encode(c)[1] as int % 0x40 == c as int / 0x1000 % 0x40
    ensures Encode(c)[2] as int % 0x40 == c as int / 0x40 % 0x40 && Encode(c)[3] as int % 0x40 == c as int % 0x40
  {
    var n := c as int;
    FirstOf(30, 0x08, n / 0x4_0000);
    NextOf(n % 0x40);
    NextOf(n / 0x40 % 0x40);
    NextOf(n / 0x1000 % 0x40);
  }

  /** The encoding is that of the standard: its length goes by the ranges of code points, its first byte
      announces it, and the low bits of its bytes are the code point in groups of six. */
  lemma EncodeDenotes(c: char)
    ensures c as int < 0x80 ==> Encode(c) == [c as int as byte]
    ensures 0x80 <= c as int < 0x800 ==>
      |Encode(c)| == 2 && Encode(c)[0] as int / 0x20 == 6
      && c as int == Encode(c)[0] as int % 0x20 * 0x40 + Encode(c)[1] as int % 0x40
    ensures 0x800 <= c as int < 0x1_0000 ==>
      |Encode(c)| == 3 && Encode(c)[0] as int / 0x10 == 14
      && c as int == (Encode(c)[0] as int % 0x10 * 0x40 + Encode(c)[1] as int % 0x40) * 0x40 + Encode(c)[2] as int % 0x40
    ensures c as int >= 0x1_0000 ==>
      |Encode(c)| == 4 && Encode(c)[0] as int / 0x08 == 30
      && c as int == ((Encode(c)[0] as int % 0x08 * 0x40 + Encode(c)[1] as int % 0x40) * 0x40
                      + Encode(c)[2] as int % 0x40) * 0x40 + Encode(c)[3] as int % 0x40
  {
    var n := c as int;
    assert n < 0x80 ==> Encode(c) == [n as byte];
    hide Encode;
    SixBits(n);
    SixBits(n / 0x40);
    SixBits(n / 0x1000);
    if 0x80 <= n < 0x800 {
      TwoBytes(c);
    } else if 0x800 <= n < 0x1_0000 {
      ThreeBytes(c);
    } else if n >= 0x1_0000 {
      FourBytes(c);
    }
  }

  /** Where a text may be cut: at either end, or before a byte that starts a character. */
  predicate IsCharBoundary(bytes: seq<byte>, end: nat) {
    end == 0 || end == |bytes| || (end < |bytes| && !Continues(bytes[end]))
  }

  /** The longest prefix of whole characters that fits in n bytes. */
  function Take(s: string, n: nat): (r: string)
    ensures r <= s
  {
    if s == [] || |Encode(s[0])| > n then [] else [s[0]] + Take(s[1..], n - |Encode(s[0])|)
  }

  lemma {:induction false} TakeFits(s: string, n: nat)
    ensures |Bytes(Take(s, n))| <= n
    ensures |Bytes(s)| <= n ==> Take(s, n) == s
    ensures forall k | |Take(s, n)| < k <= |s| :: |Bytes(s[..k])| > n
  {
    if s != [] {
      var size := |Encode(s[0])|;
      if size <= n {
        TakeFits(s[1..], n - size);
      }
      forall k | |Take(s, n)| < k <= |s|
        ensures |Bytes(s[..k])| > n
      {
        assert s[..k][1..] == s[1..][..k - 1];
      }
    }
  }

  lemma TakeFirst(s: string, n: nat)
    requires s != []
    ensures |Encode(s[0])| > n ==> Bytes(Take(s, n)) == []
    ensures |Encode(s[0])| <= n ==> Bytes(Take(s, n)) == Encode(s[0]) + Bytes(Take(s[1..], n - |Encode(s[0])|))
  {
    hide Encode;
    var rest := Take(s[1..], if |Encode(s[0])| <= n then n - |Encode(s[0])| else 0);
    assert ([s[0]] + rest)[1..] == rest;
  }

  /** Looking at one byte decides whether a cut leaves whole characters. */
  lemma {:induction false} BoundaryIffWholeCharacters(s: string, end: nat)
    requires end <= |Bytes(s)|
    ensures IsCharBoundary(Bytes(s), end) <==> |Bytes(Take(s, end))| == end
    ensures IsCharBoundary(Bytes(s), end) ==> Bytes(Take(s, end)) == Bytes(s)[..end]
  {
    hide Encode, Continues;
    if s != [] {
      OnlyFirstByteStarts(s[0]);
      TakeFirst(s, end);
      hide Take;
      var size := |Encode(s[0])|;
      if end >= size {
        BoundaryIffWholeCharacters(s[1..], end - size);
        assert Bytes(s)[..end] == Encode(s[0]) + Bytes(s[1..])[..end - size];
        if |s| > 1 {
          OnlyFirstByteStarts(s[1]);
        }
      }
    }
  }
}
