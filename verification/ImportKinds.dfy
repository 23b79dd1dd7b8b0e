/** What the reader does with descriptors and counts in any module, not only in printed ones. */
module ImportKinds {
  import opened Common
  import opened Powers
  import opened Leb128
  import opened WasmImports
  import opened TableImports

  /** A memory's flags may hold more than whether there is a maximum, for example that it is shared: only
      the lowest bit decides how many numbers are stepped over. */
  lemma MemoryByLowestBit(bytes: seq<byte>, pos: nat, end: nat, flags: byte, min: nat, max: nat)
    requires At(bytes, pos, [2, flags] + (Encode(min) + if flags % 2 == 1 then Encode(max) else []))
    requires pos < end && min < TWO_TO_THE_64 && max < TWO_TO_THE_64
    ensures SkipDescriptor(bytes, pos, end)
         == Some(pos + 2 + |Encode(min)| + if flags % 2 == 1 then |Encode(max)| else 0)
  {
    hide Read, Encode, At;
    var rest := if flags % 2 == 1 then Encode(max) else [];
    AtParts(bytes, pos, [2, flags], Encode(min) + rest);
    AtParts(bytes, pos + 2, Encode(min), rest);
    TwoBytesAt(bytes, pos, 2, flags);
    ReadAt(bytes, pos + 2, min);
    if flags % 2 == 1 {
      ReadAt(bytes, pos + 2 + |Encode(min)|, max);
    }
  }

  lemma TwoBytesAt(bytes: seq<byte>, pos: nat, a: byte, b: byte)
    requires At(bytes, pos, [a, b])
    ensures pos + 2 <= |bytes| && bytes[pos] == a && bytes[pos + 1] == b
  {
    assert bytes[pos] == bytes[pos..pos + 2][0] && bytes[pos + 1] == bytes[pos..pos + 2][1];
  }

  /** Of a function the type index is stepped over, of a global always two bytes, of a table three, of an
      unknown kind nothing; and a descriptor at the section's end is not read at all. */
  lemma OtherKinds(bytes: seq<byte>, pos: nat, end: nat, typeIndex: nat)
    requires pos < |bytes| && typeIndex < TWO_TO_THE_64
    ensures pos < end && At(bytes, pos, [0] + Encode(typeIndex)) ==>
      SkipDescriptor(bytes, pos, end) == Some(pos + 1 + |Encode(typeIndex)|)
    ensures pos < end && bytes[pos] == 1 ==> SkipDescriptor(bytes, pos, end) == Some(pos + 4)
    ensures pos < end && bytes[pos] == 3 ==> SkipDescriptor(bytes, pos, end) == Some(pos + 3)
    ensures pos < end && bytes[pos] >= 4 ==> SkipDescriptor(bytes, pos, end) == Some(pos + 1)
    ensures pos >= end ==> SkipDescriptor(bytes, pos, end) == Some(pos)
  {
    hide Read, Encode, At;
    if At(bytes, pos, [0] + Encode(typeIndex)) {
      AtParts(bytes, pos, [0], Encode(typeIndex));
      ByteAt(bytes, pos, 0);
      ReadAt(bytes, pos + 1, typeIndex);
    }
  }

  /** The reader stops at the declared count or at the end of the section, whichever comes first. */
  lemma CountOrEnd(bytes: seq<byte>, pos: nat, decls: seq<ImportDecl>, count: nat)
    requires At(bytes, pos, PrintImports(decls)) && |bytes| < TWO_TO_THE_64 && AllFit(decls)
    ensures count >= |decls| ==>
      ReadImports(bytes, pos, pos + |PrintImports(decls)|, count) == Parsed(Detected(decls), pos + |PrintImports(decls)|)
    ensures count < |decls| ==>
      ReadImports(bytes, pos, pos + |PrintImports(decls)|, count)
        == Parsed(Detected(decls[..count]), pos + |PrintImports(decls[..count])|)
  {
    hide At, PrintImports, ReadImport, Detected;
    var end := pos + |PrintImports(decls)|;
    if count >= |decls| {
      PrefixRead(bytes, pos, end, decls, count - |decls|);
    } else {
      var a, b := decls[..count], decls[count..];
      assert decls == a + b;
      PrintConcat(a, b);
      AtParts(bytes, pos, PrintImports(a), PrintImports(b));
      PrefixRead(bytes, pos, end, a, 0);
    }
  }

  // ----- a module with a function, a shared memory, a global and a table

  const A_FUNCTION: seq<byte> := [1, 97, 1, 102] + [0, 3]
  const A_MEMORY: seq<byte> := [1, 97, 1, 109] + [2, 3, 1, 2]
  const A_GLOBAL: seq<byte> := [1, 97, 1, 103] + [3, 0x7f, 1]
  const A_TABLE: seq<byte> := [1, 97, 1, 116] + [1, 0x70, 0, 1]

  const FOUR_KINDS: seq<byte> :=
    HEADER + [2, 30, 4] + (A_FUNCTION + (A_MEMORY + (A_GLOBAL + A_TABLE)))

  /** An import with one-byte names, at its place. */
  lemma ShortImportAt(bytes: seq<byte>, pos: nat, end: nat, m: byte, n: byte, descriptor: seq<byte>)
    requires At(bytes, pos, [1, m, 1, n] + descriptor)
    requires SkipDescriptor(bytes, pos + 4, end) == Some(pos + 4 + |descriptor|)
    ensures ReadImport(bytes, pos, end) == Some((Import([m], [n], IsWasi([m])), pos + 4 + |descriptor|))
  {
    hide SkipDescriptor, ReadImport, IsWasi, At;
    AtParts(bytes, pos, [1, m, 1, n], descriptor);
    NamesAt(bytes, pos, m, n);
    ShortImport(bytes, pos, end, pos + 4 + |descriptor|);
  }

  lemma NamesAt(bytes: seq<byte>, pos: nat, m: byte, n: byte)
    requires At(bytes, pos, [1, m, 1, n])
    ensures pos + 4 <= |bytes|
    ensures bytes[pos] == 1 && bytes[pos + 1] == m && bytes[pos + 2] == 1 && bytes[pos + 3] == n
  {
    var names := bytes[pos..pos + 4];
    assert names[0] == bytes[pos] && names[1] == bytes[pos + 1] && names[2] == bytes[pos + 2] && names[3] == bytes[pos + 3];
  }

  lemma AFunctionAt(bytes: seq<byte>, pos: nat, end: nat)
    requires At(bytes, pos, A_FUNCTION) && pos + 6 <= end
    ensures ReadImport(bytes, pos, end) == Some((Import([97], [102], IsWasi([97])), pos + 6))
  {
    EncodeShort(3);
    hide Encode, SkipDescriptor, ReadImport, IsWasi, At;
    AtParts(bytes, pos, [1, 97, 1, 102], [0, 3]);
    assert [0, 3] == [0] + Encode(3);
    AtInside(bytes, pos + 4, [0, 3]);
    OtherKinds(bytes, pos + 4, end, 3);
    ShortImportAt(bytes, pos, end, 97, 102, [0, 3]);
  }

  lemma AMemoryAt(bytes: seq<byte>, pos: nat, end: nat)
    requires At(bytes, pos, A_MEMORY) && pos + 8 <= end
    ensures ReadImport(bytes, pos, end) == Some((Import([97], [109], IsWasi([97])), pos + 8))
  {
    EncodeShort(1);
    EncodeShort(2);
    hide Encode, SkipDescriptor, ReadImport, IsWasi, At;
    AtParts(bytes, pos, [1, 97, 1, 109], [2, 3, 1, 2]);
    assert [2, 3, 1, 2] == [2, 3] + (Encode(1) + Encode(2));
    MemoryByLowestBit(bytes, pos + 4, end, 3, 1, 2);
    ShortImportAt(bytes, pos, end, 97, 109, [2, 3, 1, 2]);
  }

  lemma AtInside(bytes: seq<byte>, pos: nat, part: seq<byte>)
    requires At(bytes, pos, part) && part != []
    ensures pos < |bytes| && bytes[pos] == part[0]
  {
    assert bytes[pos..pos + |part|][0] == bytes[pos];
  }

  lemma AGlobalAt(bytes: seq<byte>, pos: nat, end: nat)
    requires At(bytes, pos, A_GLOBAL) && pos + 7 <= end
    ensures ReadImport(bytes, pos, end) == Some((Import([97], [103], IsWasi([97])), pos + 7))
  {
    hide SkipDescriptor, ReadImport, IsWasi, At;
    AtParts(bytes, pos, [1, 97, 1, 103], [3, 0x7f, 1]);
    AtInside(bytes, pos + 4, [3, 0x7f, 1]);
    OtherKinds(bytes, pos + 4, end, 0);
    ShortImportAt(bytes, pos, end, 97, 103, [3, 0x7f, 1]);
  }

  lemma ATableAt(bytes: seq<byte>, pos: nat, end: nat)
    requires At(bytes, pos, A_TABLE) && pos + 8 <= end
    ensures ReadImport(bytes, pos, end) == Some((Import([97], [116], IsWasi([97])), pos + 8))
  {
    hide SkipDescriptor, ReadImport, IsWasi, At;
    AtParts(bytes, pos, [1, 97, 1, 116], [1, 0x70, 0, 1]);
    AtInside(bytes, pos + 4, [1, 0x70, 0, 1]);
    OtherKinds(bytes, pos + 4, end, 0);
    ShortImportAt(bytes, pos, end, 97, 116, [1, 0x70, 0, 1]);
  }

  lemma PlaceOfKinds()
    ensures At(FOUR_KINDS, 11, A_FUNCTION) && At(FOUR_KINDS, 17, A_MEMORY)
    ensures At(FOUR_KINDS, 25, A_GLOBAL) && At(FOUR_KINDS, 32, A_TABLE)
  {
    var rest := A_GLOBAL + A_TABLE;
    assert At(FOUR_KINDS, 11, A_FUNCTION + (A_MEMORY + rest));
    hide At;
    AtParts(FOUR_KINDS, 11, A_FUNCTION, A_MEMORY + rest);
    AtParts(FOUR_KINDS, 17, A_MEMORY, rest);
    AtParts(FOUR_KINDS, 25, A_GLOBAL, A_TABLE);
  }

  lemma ShortIsNotWasi(m: byte)
    ensures !IsWasi([m])
  {
  }

  lemma ReadFour(bytes: seq<byte>, pos: nat, end: nat, a: Import, p: nat, b: Import, q: nat, c: Import, r: nat, d: Import, s: nat)
    requires pos < end && p < end && q < end && r < end
    requires ReadImport(bytes, pos, end) == Some((a, p)) && ReadImport(bytes, p, end) == Some((b, q))
    requires ReadImport(bytes, q, end) == Some((c, r)) && ReadImport(bytes, r, end) == Some((d, s))
    ensures ReadImports(bytes, pos, end, 4) == Parsed([a, b, c, d], s)
  {
    hide ReadImport, ReadImports;
    ReadTwo(bytes, q, end, c, r, d, s);
    UnfoldImports(bytes, p, end, 3);
    UnfoldImports(bytes, pos, end, 4);
  }

  /** All four are reported, and the reader stops at the end. */
  lemma FourKindsAreRead()
    ensures Extract(FOUR_KINDS) == Parsed(
      [Import([97], [102], false), Import([97], [109], false), Import([97], [103], false), Import([97], [116], false)], 40)
  {
    hide Read, IsWasi, ReadImport, ReadImports, Extract, SkipDescriptor, At;
    ShortIsNotWasi(97);
    PlaceOfKinds();
    AFunctionAt(FOUR_KINDS, 11, 40);
    AMemoryAt(FOUR_KINDS, 17, 40);
    AGlobalAt(FOUR_KINDS, 25, 40);
    ATableAt(FOUR_KINDS, 32, 40);
    OneSection(FOUR_KINDS, 4);
    ReadFour(FOUR_KINDS, 11, 40, Import([97], [102], false), 17, Import([97], [109], false), 25,
             Import([97], [103], false), 32, Import([97], [116], false), 40);
  }

  /** The number 624485, which takes three bytes. */
  lemma ThreeByteNumber(tail: seq<byte>)
    ensures Encode(624485) == [0xE5, 0x8E, 0x26] && Read([0xE5, 0x8E, 0x26] + tail) == (624485, 3)
  {
    assert Encode(38) == [0x26];
    assert Encode(4878) == [0x8E] + Encode(38);
    assert Encode(624485) == [0xE5] + Encode(4878);
    ReadEncode(624485, tail);
  }
}
