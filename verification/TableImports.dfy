/** What the reader's fixed skip over table imports does to whole modules.

    A table with a maximum, or with a minimum of more than one byte, is longer than the skip.
    Its own names are still reported, and so is everything if it comes last; but the reader
    goes on inside its limits, and takes a number left over there for the length of the next
    module name. */
module TableImports {
  import opened Common
  import opened Powers
  import opened Leb128
  import opened WasmImports

  /** The module that consists of these imports. */
  function ModuleOf(decls: seq<ImportDecl>): seq<byte> {
    HEADER + PrintSection(ImportSection(decls))
  }

  ghost predicate Addressable(decls: seq<ImportDecl>) {
    |ModuleOf(decls)| < TWO_TO_THE_64
  }

  ghost predicate ReportedRight(decls: seq<ImportDecl>) {
    Extract(ModuleOf(decls)).Parsed? && Extract(ModuleOf(decls)).imports == Detected(decls)
  }

  /** Whatever import comes next, all of them are reported right. */
  ghost predicate ContinuesRight(decls: seq<ImportDecl>) {
    forall next: ImportDecl | Encodable(next.descriptor) && Addressable(decls + [next]) :: ReportedRight(decls + [next])
  }

  ghost predicate AllFit(decls: seq<ImportDecl>) {
    forall k | 0 <= k < |decls| :: Encodable(decls[k].descriptor) && FixedSkipFits(decls[k].descriptor)
  }

  // ----- lists in two parts

  lemma {:induction false} PrintConcat(a: seq<ImportDecl>, b: seq<ImportDecl>)
    ensures PrintImports(a + b) == PrintImports(a) + PrintImports(b)
  {
    hide PrintImport;
    if a == [] {
      assert a + b == b;
    } else {
      assert (a + b)[1..] == a[1..] + b;
      PrintConcat(a[1..], b);
    }
  }

  lemma {:induction false} DetectedConcat(a: seq<ImportDecl>, b: seq<ImportDecl>)
    ensures Detected(a + b) == Detected(a) + Detected(b)
  {
    hide IsWasi;
    if a == [] {
      assert a + b == b;
    } else {
      assert (a + b)[1..] == a[1..] + b;
      DetectedConcat(a[1..], b);
    }
  }

  /** Imports whose descriptors fit are read, and the rest is read from where they end. */
  lemma {:induction false} PrefixRead(bytes: seq<byte>, pos: nat, end: nat, decls: seq<ImportDecl>, count: nat)
    requires At(bytes, pos, PrintImports(decls)) && pos + |PrintImports(decls)| <= end
    requires |bytes| < TWO_TO_THE_64 && AllFit(decls)
    ensures ReadImports(bytes, pos, end, |decls| + count)
         == Prepend(Detected(decls), ReadImports(bytes, pos + |PrintImports(decls)|, end, count))
    decreases |decls|
  {
    hide Read, Encode, At, ReadImport, ReadImports, PrintImport, IsWasi, Detected, Prepend;
    var rest := ReadImports(bytes, pos + |PrintImports(decls)|, end, count);
    if decls == [] {
      PrependNothing(rest);
    } else {
      var first := decls[0];
      AtParts(bytes, pos, PrintImport(first), PrintImports(decls[1..]));
      ImportAt(bytes, pos, end, first);
      PrintedImportNotEmpty(first);
      UnfoldImports(bytes, pos, end, |decls| + count);
      PrefixRead(bytes, pos + |PrintImport(first)|, end, decls[1..], count);
      DetectedFirst(decls);
      PrependConcat([Import(first.moduleName, first.name, IsWasi(first.moduleName))], Detected(decls[1..]), rest);
    }
  }

  lemma PrependNothing(p: Parse)
    ensures Prepend(Detected([]), p) == p
  {
  }

  lemma DetectedFirst(decls: seq<ImportDecl>)
    requires decls != []
    ensures Detected(decls) ==
      [Import(decls[0].moduleName, decls[0].name, IsWasi(decls[0].moduleName))] + Detected(decls[1..])
  {
    hide IsWasi;
  }

  lemma PrependConcat(a: seq<Import>, b: seq<Import>, p: Parse)
    ensures Prepend(a + b, p) == Prepend(a, Prepend(b, p))
  {
    if p.Parsed? {
      assert a + b + p.imports == a + (b + p.imports);
    }
  }

  /** The reader enters the section of a module of imports. */
  lemma Entered(decls: seq<ImportDecl>) returns (start: nat, end: nat)
    requires Addressable(decls)
    ensures At(ModuleOf(decls), start, PrintImports(decls)) && end == start + |PrintImports(decls)| == |ModuleOf(decls)|
    ensures Extract(ModuleOf(decls)) == ReadImports(ModuleOf(decls), start, end, |decls|)
  {
    hide Read, Encode, ReadImports, PrintSection;
    assert At(ModuleOf(decls), 8, PrintSection(ImportSection(decls)));
    start, end := ImportSectionEntered(ModuleOf(decls), 8, decls);
  }

  // ----- a table the skip does not fit

  /** The first number inside the limits behind the four bytes that the reader steps over. */
  function Leftover(l: Limits): nat {
    if l.min >= 128 || l.max.None? then l.min / 128 else l.max.value
  }

  lemma EncodeLong(n: nat)
    requires n >= 128
    ensures Encode(n) == [(n % 128 + 128) as byte] + Encode(n / 128)
  {
  }

  lemma EncodeShort(n: nat)
    requires n < 128
    ensures Encode(n) == [n as byte]
  {
  }

  /** The printed descriptor: four bytes, the left-over number, and perhaps a maximum. */
  lemma PrintLongTable(refType: byte, l: Limits) returns (head: seq<byte>, rest: seq<byte>)
    requires !FixedSkipFits(Table(refType, l))
    ensures |head| == 4 && PrintDescriptor(Table(refType, l)) == head + (Encode(Leftover(l)) + rest)
  {
    hide Encode;
    var flag: byte := if l.max.Some? then 1 else 0;
    if l.min >= 128 {
      EncodeLong(l.min);
      rest := if l.max.Some? then Encode(l.max.value) else [];
      head := [1, refType, flag, (l.min % 128 + 128) as byte];
      assert PrintLimits(l) == [flag] + ([(l.min % 128 + 128) as byte] + Encode(l.min / 128)) + rest;
    } else {
      EncodeShort(l.min);
      rest, head := [], [1, refType, flag, l.min as byte];
      assert PrintLimits(l) == [flag] + [l.min as byte] + Encode(l.max.value);
    }
  }

  lemma LeftoverAt(bytes: seq<byte>, pos: nat, refType: byte, l: Limits)
    requires At(bytes, pos, PrintDescriptor(Table(refType, l))) && !FixedSkipFits(Table(refType, l))
    ensures At(bytes, pos + 4, Encode(Leftover(l)))
    ensures 4 + |Encode(Leftover(l))| <= |PrintDescriptor(Table(refType, l))|
  {
    hide Encode, At, PrintDescriptor, Leftover;
    var head, rest := PrintLongTable(refType, l);
    AtParts(bytes, pos, head, Encode(Leftover(l)) + rest);
    AtParts(bytes, pos + 4, Encode(Leftover(l)), rest);
  }

  /** A module name whose length the reader finds at pos has that length. */
  lemma NameOfLength(bytes: seq<byte>, pos: nat, end: nat, n: nat)
    requires At(bytes, pos, Encode(n)) && n < TWO_TO_THE_64
    ensures ReadImport(bytes, pos, end).Some? ==> |ReadImport(bytes, pos, end).value.0.moduleName| == n
  {
    hide Read, Encode, SkipDescriptor;
    ReadAt(bytes, pos, n);
  }

  /** Behind such a table the reader goes on at the left-over number. */
  lemma CursorInLimits(bytes: seq<byte>, pos: nat, end: nat, last: ImportDecl) returns (c: nat)
    requires At(bytes, pos, PrintImport(last)) && pos + |PrintImport(last)| <= end && |bytes| < TWO_TO_THE_64
    requires Encodable(last.descriptor) && !FixedSkipFits(last.descriptor)
    ensures c + |PrintDescriptor(last.descriptor)| == pos + |PrintImport(last)| + 4
    ensures pos < end && c < end && At(bytes, c, Encode(Leftover(last.descriptor.limits)))
    ensures ReadImport(bytes, pos, end).Some? && ReadImport(bytes, pos, end).value.1 == c
  {
    hide Read, Encode, At, ReadImport, PrintImport, PrintDescriptor;
    var l := last.descriptor.limits;
    var afterName := ImportCursor(bytes, pos, end, last);
    TagAt(bytes, afterName, last.descriptor);
    LeftoverAt(bytes, afterName, last.descriptor.refType, l);
    EncodeMeaning(Leftover(l));
    PrintedImportNotEmpty(last);
    c := afterName + 4;
  }

  /** The import after such a table is reported right only if its module name happens to be as long
      as the left-over number says. */
  lemma NextIsMisread(bytes: seq<byte>, pos: nat, end: nat, last: ImportDecl, next: ImportDecl)
    requires At(bytes, pos, PrintImport(last)) && pos + |PrintImport(last)| <= end && |bytes| < TWO_TO_THE_64
    requires Encodable(last.descriptor) && !FixedSkipFits(last.descriptor)
    requires |next.moduleName| != Leftover(last.descriptor.limits)
    ensures var r := ReadImports(bytes, pos, end, 2);
      r.Parsed? ==> |r.imports| == 2 && r.imports[1].moduleName != next.moduleName
  {
    hide Read, Encode, At, ReadImport, PrintImport, PrintDescriptor;
    var c := CursorInLimits(bytes, pos, end, last);
    NameOfLength(bytes, c, end, Leftover(last.descriptor.limits));
    UnfoldImports(bytes, pos, end, 2);
    if ReadImport(bytes, c, end).Some? {
      UnfoldImports(bytes, c, end, 1);
    }
  }

  /** If the left-over number exceeds the bytes behind it, the reader runs out of the module. */
  lemma NextTraps(bytes: seq<byte>, pos: nat, end: nat, last: ImportDecl)
    requires At(bytes, pos, PrintImport(last)) && pos + |PrintImport(last)| <= end && |bytes| < TWO_TO_THE_64
    requires Encodable(last.descriptor) && !FixedSkipFits(last.descriptor)
    requires var x := Leftover(last.descriptor.limits);
      x > |bytes| - (pos + |PrintImport(last)|) + |PrintDescriptor(last.descriptor)| - 4 - |Encode(x)|
    ensures ReadImports(bytes, pos, end, 2) == Trap
  {
    hide Read, Encode, At, PrintImport, PrintDescriptor, SkipDescriptor;
    var c := CursorInLimits(bytes, pos, end, last);
    ReadAt(bytes, c, Leftover(last.descriptor.limits));
    assert ReadName(bytes, c) == None;
    assert ReadImport(bytes, c, end) == None;
    hide ReadImport;
    UnfoldImports(bytes, pos, end, 2);
  }

  /** A next import that is misreported: its module name is empty if the left-over number is
      positive, and not empty if it is zero. */
  function Victim(l: Limits): ImportDecl {
    if Leftover(l) > 0 then ImportDecl([], [0], Func(0)) else SMALL_IMPORT
  }

  const SMALL_IMPORT := ImportDecl([0], [], Func(0))

  lemma VictimName(l: Limits)
    ensures |Victim(l).moduleName| != Leftover(l)
  {
  }

  lemma VictimIsSmall(l: Limits)
    ensures |PrintImport(Victim(l))| == |PrintImport(SMALL_IMPORT)|
  {
  }

  /** The module's length depends only on how many imports there are and how long they are. */
  lemma SameLength(decls: seq<ImportDecl>, a: ImportDecl, b: ImportDecl)
    requires |PrintImport(a)| == |PrintImport(b)|
    ensures |ModuleOf(decls + [a])| == |ModuleOf(decls + [b])|
  {
    hide Encode, PrintImport;
    PrintConcat(decls, [a]);
    PrintConcat(decls, [b]);
    assert [a][1..] == [] && [b][1..] == [];
    assert |PrintImports([a])| == |PrintImports([b])|;
  }

  /** The reader gets through the imports that fit, and on to the last two. */
  lemma LastTwo(before: seq<ImportDecl>, last: ImportDecl, next: ImportDecl) returns (pos: nat, end: nat)
    requires AllFit(before) && Addressable(before + [last] + [next])
    ensures var bytes := ModuleOf(before + [last] + [next]);
      && At(bytes, pos, PrintImport(last))
      && pos + |PrintImport(last)| + |PrintImport(next)| == end == |bytes|
      && Extract(bytes) == Prepend(Detected(before), ReadImports(bytes, pos, end, 2))
  {
    hide Read, Encode, PrintImport, ReadImports, Extract, At, Detected;
    var decls := before + [last] + [next];
    var bytes := ModuleOf(decls);
    var start;
    start, end := Entered(decls);
    assert decls == before + [last, next];
    PrintConcat(before, [last, next]);
    PrintTwo(last, next);
    AtParts(bytes, start, PrintImports(before), PrintImports([last, next]));
    pos := start + |PrintImports(before)|;
    AtParts(bytes, pos, PrintImport(last), PrintImport(next));
    hide ModuleOf;
    PrefixRead(bytes, start, end, before, 2);
  }

  lemma VictimIsMisread(before: seq<ImportDecl>, last: ImportDecl)
    requires AllFit(before) && Encodable(last.descriptor) && !FixedSkipFits(last.descriptor)
    requires Addressable(before + [last] + [Victim(last.descriptor.limits)])
    ensures !ReportedRight(before + [last] + [Victim(last.descriptor.limits)])
  {
    hide Read, Encode, PrintImport, ReadImports, Extract, At, Leftover, ModuleOf, IsWasi;
    var next := Victim(last.descriptor.limits);
    var decls := before + [last] + [next];
    VictimName(last.descriptor.limits);
    var pos, end := LastTwo(before, last, next);
    NextIsMisread(ModuleOf(decls), pos, end, last, next);
    assert Detected(decls)[|before| + 1].moduleName == next.moduleName;
  }

  /** A table whose left-over number exceeds what follows it makes the reader panic on a valid module. */
  lemma LongTableTraps(before: seq<ImportDecl>, last: ImportDecl, next: ImportDecl)
    requires AllFit(before) && Encodable(last.descriptor) && !FixedSkipFits(last.descriptor)
    requires Addressable(before + [last] + [next])
    requires var x := Leftover(last.descriptor.limits);
      x > |PrintDescriptor(last.descriptor)| - 4 - |Encode(x)| + |PrintImport(next)|
    ensures Extract(ModuleOf(before + [last] + [next])).Trap?
  {
    hide Read, Encode, PrintImport, ReadImports, Extract, At, Leftover, ModuleOf, PrintDescriptor, Detected;
    var pos, end := LastTwo(before, last, next);
    NextTraps(ModuleOf(before + [last] + [next]), pos, end, last);
  }

  /** After imports that the skip fits, one more import keeps every continuation right exactly if the
      skip fits it too.  (There must be room in the address space for some continuation.) */
  lemma ContinuesRightIffSkipFits(before: seq<ImportDecl>, last: ImportDecl)
    requires AllFit(before) && Encodable(last.descriptor)
    requires Addressable(before + [last] + [SMALL_IMPORT])
    ensures ContinuesRight(before + [last]) <==> FixedSkipFits(last.descriptor)
  {
    hide ReportedRight, Addressable, Victim;
    if FixedSkipFits(last.descriptor) {
      forall next: ImportDecl | Encodable(next.descriptor) && Addressable(before + [last] + [next])
        ensures ReportedRight(before + [last] + [next])
      {
        FittingIsReported(before + [last] + [next]);
      }
    } else {
      VictimFits(before + [last], last.descriptor.limits);
      VictimIsMisread(before, last);
    }
  }

  lemma VictimFits(decls: seq<ImportDecl>, l: Limits)
    requires Addressable(decls + [SMALL_IMPORT])
    ensures Addressable(decls + [Victim(l)]) && Encodable(Victim(l).descriptor)
  {
    VictimIsSmall(l);
    SameLength(decls, SMALL_IMPORT, Victim(l));
  }

  lemma FittingIsReported(decls: seq<ImportDecl>)
    requires Printable(decls) && Addressable(decls)
    ensures ReportedRight(decls)
  {
    hide Read, Encode, ReadImports, Detected, PrintImports, PrintSection, ReadSections;
    assert HEADER + PrintSections([]) + PrintSection(ImportSection(decls)) + [] == ModuleOf(decls);
    ExtractPrinted(HEADER, [], decls, []);
  }

  // ----- two modules

  /** A byte below 128 is a number by itself. */
  lemma ReadSmall(bytes: seq<byte>, pos: nat)
    requires pos < |bytes| && bytes[pos] < 128
    ensures Read(bytes[pos..]) == (bytes[pos] as nat, 1)
  {
    assert Encode(bytes[pos] as nat) == [bytes[pos]];
    ReadAt(bytes, pos, bytes[pos] as nat);
  }

  /** A table with one-byte limits and a maximum, and two functions that may follow it. */
  function BoundedTable(max: nat): ImportDecl {
    ImportDecl([97], [116], Table(0x70, Limits(1, Some(max))))
  }

  const NEXT_FUNC := ImportDecl([109], [102], Func(0))
  const LUCKY_FUNC := ImportDecl([1], [1], Func(0))

  const MISLEADING: seq<byte> :=
    [0x00, 0x61, 0x73, 0x6d, 0x01, 0x00, 0x00, 0x00, 2, 16, 2, 1, 97, 1, 116, 1, 0x70, 1, 1, 2, 1, 109, 1, 102, 0, 0]

  const LUCKY: seq<byte> :=
    [0x00, 0x61, 0x73, 0x6d, 0x01, 0x00, 0x00, 0x00, 2, 16, 2, 1, 97, 1, 116, 1, 0x70, 1, 1, 1, 1, 1, 1, 1, 0, 0]

  lemma PrintSmall(max: byte, m: byte, n: byte)
    requires max < 128
    ensures PrintImport(BoundedTable(max as nat)) == [1, 97, 1, 116, 1, 0x70, 1, 1, max]
    ensures PrintImport(ImportDecl([m], [n], Func(0))) == [1, m, 1, n, 0, 0]
  {
    assert Encode(1) == [1] && Encode(0) == [0] && Encode(max as nat) == [max];
    hide Encode;
    assert PrintDescriptor(Table(0x70, Limits(1, Some(max as nat)))) == [1, 0x70, 1, 1, max];
    assert PrintDescriptor(Func(0)) == [0, 0];
  }

  lemma PrintTwo(a: ImportDecl, b: ImportDecl)
    ensures PrintImports([a, b]) == PrintImport(a) + PrintImport(b)
  {
    assert [a, b][1..] == [b] && [b][1..] == [];
    assert PrintImports([b]) == PrintImport(b);
  }

  lemma OneByteSizes(decls: seq<ImportDecl>)
    requires |PrintImports(decls)| < 127 && |decls| < 128
    ensures ModuleOf(decls) == HEADER + [2, (|PrintImports(decls)| + 1) as byte, |decls| as byte] + PrintImports(decls)
  {
    hide PrintImports;
    var printed := PrintImports(decls);
    assert Encode(|decls|) == [|decls| as byte] && Encode(|printed| + 1) == [(|printed| + 1) as byte];
    hide Encode;
    assert ImportSection(decls).content == [|decls| as byte] + printed;
  }

  lemma ModuleOfTwo(max: byte, m: byte, n: byte)
    requires max < 128
    ensures ModuleOf([BoundedTable(max as nat), ImportDecl([m], [n], Func(0))])
         == HEADER + [2, 16, 2] + ([1, 97, 1, 116, 1, 0x70, 1, 1, max] + [1, m, 1, n, 0, 0])
  {
    var a, b := BoundedTable(max as nat), ImportDecl([m], [n], Func(0));
    PrintSmall(max, m, n);
    PrintTwo(a, b);
    hide PrintImport, PrintImports, ModuleOf;
    OneByteSizes([a, b]);
  }

  lemma MisleadingIsPrinted()
    ensures ModuleOf([BoundedTable(2), NEXT_FUNC]) == MISLEADING
    ensures ModuleOf([BoundedTable(1), LUCKY_FUNC]) == LUCKY
  {
    hide ModuleOf;
    ModuleOfTwo(2, 109, 102);
    ModuleOfTwo(1, 1, 1);
  }

  lemma OneSection(bytes: seq<byte>, count: byte)
    requires |bytes| >= 11 && bytes[8] == 2 && bytes[9] < 128 && bytes[9] as nat == |bytes| - 10 && bytes[10] == count < 128
    ensures Extract(bytes) == ReadImports(bytes, 11, |bytes|, count as nat)
  {
    hide Read, ReadImports;
    ReadSmall(bytes, 9);
    ReadSmall(bytes, 10);
    UnfoldSections(bytes, 8, bytes[9] as nat, 1);
  }

  /** An import whose two names have one byte each, up to its descriptor. */
  lemma ShortImport(bytes: seq<byte>, pos: nat, end: nat, next: nat)
    requires pos + 4 <= |bytes| && bytes[pos] == 1 && bytes[pos + 2] == 1
    requires SkipDescriptor(bytes, pos + 4, end) == Some(next)
    ensures ReadImport(bytes, pos, end)
         == Some((Import([bytes[pos + 1]], [bytes[pos + 3]], IsWasi([bytes[pos + 1]])), next))
  {
    ReadSmall(bytes, pos);
    ReadSmall(bytes, pos + 2);
    hide Read, SkipDescriptor, ReadImport;
    assert bytes[pos + 1..pos + 2] == [bytes[pos + 1]] && bytes[pos + 3..pos + 4] == [bytes[pos + 3]];
    ReadImportParts(bytes, pos, end, [bytes[pos + 1]], pos + 2, [bytes[pos + 3]], pos + 4);
  }

  lemma DetectedTwo(a: ImportDecl, b: ImportDecl)
    ensures Detected([a, b]) ==
      [Import(a.moduleName, a.name, IsWasi(a.moduleName)), Import(b.moduleName, b.name, IsWasi(b.moduleName))]
  {
    hide IsWasi;
    assert [a, b][1..] == [b] && [b][1..] == [];
    assert Detected([b]) == [Import(b.moduleName, b.name, IsWasi(b.moduleName))];
  }

  lemma ReadTwo(bytes: seq<byte>, pos: nat, end: nat, a: Import, next: nat, b: Import, last: nat)
    requires pos < end && ReadImport(bytes, pos, end) == Some((a, next))
    requires next < end && ReadImport(bytes, next, end) == Some((b, last))
    ensures ReadImports(bytes, pos, end, 2) == Parsed([a, b], last)
  {
    hide ReadImport;
    UnfoldImports(bytes, pos, end, 2);
    UnfoldImports(bytes, next, end, 1);
  }

  /** In this module the import after the table is misread: the left-over maximum is taken for the
      length of its module name. */
  lemma LongTableMisleads()
    ensures var r := Extract(MISLEADING);
      r.Parsed? && |r.imports| == 2 && r.imports[1].moduleName == [1, 109]
    ensures !ReportedRight([BoundedTable(2), NEXT_FUNC])
  {
    hide Read, IsWasi, ReadImport, ReadImports, Extract, ModuleOf;
    MisleadingIsPrinted();
    var bytes := MISLEADING;
    OneSection(bytes, 2);
    ShortImport(bytes, 11, 26, 19);
    ReadSmall(bytes, 19);
    ReadSmall(bytes, 22);
    ReadSmall(bytes, 25);
    assert bytes[20..22] == [1, 109] && bytes[23..24] == [102];
    ReadImportParts(bytes, 19, 26, [1, 109], 22, [102], 24);
    ReadTwo(bytes, 11, 26, Import([97], [116], IsWasi([97])), 19, Import([1, 109], [102], IsWasi([1, 109])), 26);
    DetectedTwo(BoundedTable(2), NEXT_FUNC);
  }

  /** In this one it happens to be reported right, although the table is too long for the skip: the
      condition is about all continuations, not about each. */
  lemma LongTableCanPass()
    ensures ReportedRight([BoundedTable(1), LUCKY_FUNC]) && !FixedSkipFits(BoundedTable(1).descriptor)
  {
    hide Read, IsWasi, ReadImport, ReadImports, Extract, ModuleOf;
    MisleadingIsPrinted();
    var bytes := LUCKY;
    OneSection(bytes, 2);
    ShortImport(bytes, 11, 26, 19);
    ShortImport(bytes, 19, 26, 27);
    ReadTwo(bytes, 11, 26, Import([97], [116], IsWasi([97])), 19, Import([1], [1], IsWasi([1])), 27);
    DetectedTwo(BoundedTable(1), LUCKY_FUNC);
  }

  /** With a large maximum, the function behind the same table makes the reader panic. */
  lemma LargeMaximumTraps()
    ensures Extract(ModuleOf([BoundedTable(127), NEXT_FUNC])).Trap?
  {
    var last := BoundedTable(127);
    assert Encode(127) == [127];
    PrintSmall(127, 109, 102);
    ModuleOfTwo(127, 109, 102);
    assert |PrintDescriptor(last.descriptor)| == 5 by {
      assert Encode(1) == [1];
    }
    hide Encode, PrintImport, PrintDescriptor, ModuleOf, Extract;
    assert [] + [last] + [NEXT_FUNC] == [last, NEXT_FUNC];
    LongTableTraps([], last, NEXT_FUNC);
  }
}
