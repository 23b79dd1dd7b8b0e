/** The import-section reader, and the printer it inverts (WebAssembly Core Specification,
    sections 5.5.2 and 5.5.5).

    Reading outside the slice, or a position that overflows 64 bits, is the outcome Trap.
    Names are kept as bytes; on valid UTF-8 the lossy conversion to text is the identity. */
module WasmImports {
  import opened Common
  import opened Leb128
  import opened Powers
  import Utf8

  type Name = seq<byte>

  datatype Import = Import(moduleName: Name, name: Name, isWasi: bool)

  datatype Parse = Parsed(imports: seq<Import>, end: nat) | Trap

  const IMPORT_SECTION: byte := 2

  /** "wasi_snapshot_preview1" */
  const WASI_PREVIEW1: Name :=
    [119, 97, 115, 105, 95, 115, 110, 97, 112, 115, 104, 111, 116, 95, 112, 114, 101, 118, 105, 101, 119, 49]

  /** "wasi:" */
  const WASI_COLON: Name := [119, 97, 115, 105, 58]

  predicate IsWasi(moduleName: Name) {
    WASI_PREVIEW1 <= moduleName || WASI_COLON <= moduleName
  }

  // ----- reading one import

  function ReadName(bytes: seq<byte>, pos: nat): Option<(Name, nat)> {
    if pos > |bytes| then None
    else
      var (len, taken) := Read(bytes[pos..]);
      var start := pos + taken;
      if start + len > |bytes| then None else Some((bytes[start..start + len], start + len))
  }

  /** The position after the import descriptor at `pos`. */
  function SkipDescriptor(bytes: seq<byte>, pos: nat, end: nat): Option<nat> {
    if pos >= end then Some(pos)
    else if pos >= |bytes| then None
    else
      match bytes[pos] as int
      case 0 => Some(pos + 1 + Read(bytes[pos + 1..]).1)
      case 1 => Some(pos + 4)
      case 2 =>
        var flags: byte := if pos + 1 < |bytes| then bytes[pos + 1] else 0;
        if pos + 2 > |bytes| then None
        else
          var next := pos + 2 + Read(bytes[pos + 2..]).1;
          Some(if flags % 2 == 1 then next + Read(bytes[next..]).1 else next)
      case 3 => Some(pos + 3)
      case _ => Some(pos + 1)
  }

  function ReadImport(bytes: seq<byte>, pos: nat, end: nat): Option<(Import, nat)> {
    match ReadName(bytes, pos)
    case None => None
    case Some((moduleName, afterModule)) =>
      match ReadName(bytes, afterModule)
      case None => None
      case Some((name, afterName)) =>
        match SkipDescriptor(bytes, afterName, end)
        case None => None
        case Some(next) => Some((Import(moduleName, name, IsWasi(moduleName)), next))
  }

  // ----- the whole reader, as a function

  function Prepend(imports: seq<Import>, p: Parse): Parse {
    match p
    case Parsed(rest, end) => Parsed(imports + rest, end)
    case Trap => Trap
  }

  function ReadImports(bytes: seq<byte>, pos: nat, end: nat, count: nat): Parse
    decreases count
  {
    if count == 0 || pos >= end then Parsed([], pos)
    else
      match ReadImport(bytes, pos, end)
      case None => Trap
      case Some((i, next)) => Prepend([i], ReadImports(bytes, next, end, count - 1))
  }

  function ReadSections(bytes: seq<byte>, pos: nat): Parse
    decreases |bytes| - pos
  {
    if pos >= |bytes| then Parsed([], pos)
    else
      var (size, taken) := Read(bytes[pos + 1..]);
      var body := pos + 1 + taken;
      if body + size >= TWO_TO_THE_64 then Trap
      else if bytes[pos] == IMPORT_SECTION then
        ImportSectionAt(bytes, body, body + size)
      else ReadSections(bytes, body + size)
  }

  function Extract(bytes: seq<byte>): Parse {
    if |bytes| < 8 then Parsed([], 0) else ReadSections(bytes, 8)
  }

  /** The loop over the entries of the import section. */
  method ReadEntries(bytes: seq<byte>, start: nat, end: nat, count: nat) returns (r: Parse)
    ensures r == ReadImports(bytes, start, end, count)
  {
    var pos: nat := start;
    var imports: seq<Import> := [];
    var i: nat := 0;
    while i < count && pos < end
      invariant i <= count
      invariant ReadImports(bytes, start, end, count) == Prepend(imports, ReadImports(bytes, pos, end, count - i))
    {
      match ReadImport(bytes, pos, end) {
        case None =>
          return Trap;
        case Some((detected, next)) =>
          PrependTwice(imports, detected, ReadImports(bytes, next, end, count - i - 1));
          imports := imports + [detected];
          pos := next;
      }
      i := i + 1;
    }
    return Parsed(imports, pos);
  }

  lemma PrependTwice(imports: seq<Import>, i: Import, p: Parse)
    ensures Prepend(imports, Prepend([i], p)) == Prepend(imports + [i], p)
  {
    if p.Parsed? {
      assert imports + ([i] + p.imports) == imports + [i] + p.imports;
    }
  }

  function ImportSectionAt(bytes: seq<byte>, body: nat, end: nat): Parse
    requires body <= |bytes|
  {
    var (count, taken) := Read(bytes[body..]);
    ReadImports(bytes, body + taken, end, count)
  }

  method ReadImportSection(bytes: seq<byte>, body: nat, end: nat) returns (r: Parse)
    requires body <= |bytes|
    ensures r == ImportSectionAt(bytes, body, end)
  {
    hide ReadImports, Value, LengthFrom;
    var count, taken := ReadLeb128(bytes[body..]);
    r := ReadEntries(bytes, body + taken, end, count);
  }

  lemma UnfoldSections(bytes: seq<byte>, pos: nat, size: nat, taken: nat)
    requires pos < |bytes| && Read(bytes[pos + 1..]) == (size, taken)
    ensures pos + 1 + taken <= |bytes|
    ensures ReadSections(bytes, pos) ==
      if pos + 1 + taken + size >= TWO_TO_THE_64 then Trap
      else if bytes[pos] == IMPORT_SECTION then ImportSectionAt(bytes, pos + 1 + taken, pos + 1 + taken + size)
      else ReadSections(bytes, pos + 1 + taken + size)
  {
    hide ImportSectionAt, Value, LengthFrom;
  }

  method ExtractImports(bytes: seq<byte>) returns (r: Parse)
    ensures r == Extract(bytes)
  {
    hide Read, Encode, ReadImports, ImportSectionAt;
    if |bytes| < 8 {
      return Parsed([], 0);
    }
    var pos := 8;
    while pos < |bytes|
      invariant Extract(bytes) == ReadSections(bytes, pos)
      decreases |bytes| - pos
    {
      var sectionId := bytes[pos];
      var size, sizeBytes := ReadLeb128(bytes[pos + 1..]);
      UnfoldSections(bytes, pos, size, sizeBytes);
      pos := pos + 1 + sizeBytes;
      if pos + size >= TWO_TO_THE_64 {
        return Trap;
      }
      if sectionId == IMPORT_SECTION {
        r := ReadImportSection(bytes, pos, pos + size);
        return;
      }
      pos := pos + size;
    }
    return Parsed([], pos);
  }

  // ----- the printer

  datatype Limits = Limits(min: nat, max: Option<nat>)

  datatype Descriptor =
    | Func(typeIndex: nat)
    | Table(refType: byte, limits: Limits)
    | Memory(limits: Limits)
    | Global(valType: byte, mutability: byte)

  datatype ImportDecl = ImportDecl(moduleName: Name, name: Name, descriptor: Descriptor)

  datatype Section = Section(id: byte, content: seq<byte>)

  function PrintLimits(l: Limits): seq<byte> {
    match l.max
    case None => [0] + Encode(l.min)
    case Some(max) => [1] + Encode(l.min) + Encode(max)
  }

  function PrintDescriptor(d: Descriptor): seq<byte> {
    match d
    case Func(typeIndex) => [0] + Encode(typeIndex)
    case Table(refType, limits) => [1] + ([refType] + PrintLimits(limits))
    case Memory(limits) => [2] + PrintLimits(limits)
    case Global(valType, mutability) => [3, valType, mutability]
  }

  function PrintName(n: Name): seq<byte> {
    Encode(|n|) + n
  }

  function PrintImport(i: ImportDecl): seq<byte> {
    PrintName(i.moduleName) + (PrintName(i.name) + PrintDescriptor(i.descriptor))
  }

  function PrintImports(decls: seq<ImportDecl>): seq<byte> {
    if decls == [] then [] else PrintImport(decls[0]) + PrintImports(decls[1..])
  }

  function PrintSection(s: Section): seq<byte> {
    [s.id] + (Encode(|s.content|) + s.content)
  }

  function PrintSections(ss: seq<Section>): seq<byte> {
    if ss == [] then [] else PrintSection(ss[0]) + PrintSections(ss[1..])
  }

  function ImportSection(decls: seq<ImportDecl>): Section {
    Section(IMPORT_SECTION, Encode(|decls|) + PrintImports(decls))
  }

  /** What the reader should report for a list of declarations. */
  function Detected(decls: seq<ImportDecl>): (r: seq<Import>)
    ensures |r| == |decls|
    ensures forall k | 0 <= k < |decls| :: r[k].moduleName == decls[k].moduleName && r[k].name == decls[k].name
  {
    if decls == [] then []
    else [Import(decls[0].moduleName, decls[0].name, IsWasi(decls[0].moduleName))] + Detected(decls[1..])
  }

  // ----- positions in a byte string

  ghost predicate At(bytes: seq<byte>, pos: nat, part: seq<byte>) {
    pos + |part| <= |bytes| && bytes[pos..pos + |part|] == part
  }

  lemma AtParts(bytes: seq<byte>, pos: nat, a: seq<byte>, b: seq<byte>)
    ensures At(bytes, pos, a + b) <==> At(bytes, pos, a) && At(bytes, pos + |a|, b)
  {
    if At(bytes, pos, a + b) {
      assert a == (a + b)[..|a|] == bytes[pos..pos + |a + b|][..|a|] == bytes[pos..pos + |a|];
      assert b == (a + b)[|a|..] == bytes[pos..pos + |a + b|][|a|..] == bytes[pos + |a|..pos + |a| + |b|];
    }
    if At(bytes, pos, a) && At(bytes, pos + |a|, b) {
      assert bytes[pos..pos + |a + b|] == bytes[pos..pos + |a|] + bytes[pos + |a|..pos + |a| + |b|];
    }
  }

  lemma ReadAt(bytes: seq<byte>, pos: nat, n: nat)
    requires At(bytes, pos, Encode(n)) && n < TWO_TO_THE_64
    ensures Read(bytes[pos..]) == (n, |Encode(n)|)
  {
    var tail := bytes[pos + |Encode(n)|..];
    assert bytes[pos..] == Encode(n) + tail;
    ReadEncode(n, tail);
  }

  lemma NameAt(bytes: seq<byte>, pos: nat, n: Name)
    requires At(bytes, pos, PrintName(n)) && |bytes| < TWO_TO_THE_64
    ensures ReadName(bytes, pos) == Some((n, pos + |PrintName(n)|))
  {
    hide Read, Encode;
    AtParts(bytes, pos, Encode(|n|), n);
    ReadAt(bytes, pos, |n|);
  }

  // ----- descriptors

  /** The numbers in the descriptor are 64-bit (the format allows only 32-bit ones). */
  predicate Encodable(d: Descriptor) {
    match d
    case Func(typeIndex) => typeIndex < TWO_TO_THE_64
    case Table(_, l) => l.min < TWO_TO_THE_64 && (l.max.Some? ==> l.max.value < TWO_TO_THE_64)
    case Memory(l) => l.min < TWO_TO_THE_64 && (l.max.Some? ==> l.max.value < TWO_TO_THE_64)
    case Global(_, _) => true
  }

  /** A table descriptor the reader's fixed three-byte skip fits: no maximum, one-byte minimum. */
  predicate FixedSkipFits(d: Descriptor) {
    d.Table? ==> d.limits.max.None? && d.limits.min < 128
  }

  /** The first byte of a printed descriptor tells its kind. */
  lemma TagAt(bytes: seq<byte>, pos: nat, d: Descriptor)
    requires At(bytes, pos, PrintDescriptor(d))
    ensures |PrintDescriptor(d)| > 0 && pos < |bytes|
    ensures bytes[pos] == match d case Func(_) => 0 case Table(_, _) => 1 case Memory(_) => 2 case Global(_, _) => 3
  {
    assert bytes[pos] == bytes[pos..pos + |PrintDescriptor(d)|][0];
  }

  lemma TableLength(refType: byte, l: Limits)
    ensures |PrintDescriptor(Table(refType, l))| == 4 <==> l.max.None? && l.min < 128
  {
    EncodeMeaning(l.min);
    if l.min >= 128 {
      EncodeMeaning(l.min / 128);
    }
    if l.max.Some? {
      EncodeMeaning(l.max.value);
    }
  }

  lemma ByteAt(bytes: seq<byte>, pos: nat, b: byte)
    requires At(bytes, pos, [b])
    ensures pos < |bytes| && bytes[pos] == b
  {
    assert bytes[pos] == bytes[pos..pos + 1][0];
  }

  /** Printed limits: a flag, the minimum, and the maximum if there is one. */
  lemma LimitsAt(bytes: seq<byte>, pos: nat, l: Limits)
    requires At(bytes, pos, PrintLimits(l))
    ensures pos < |bytes| && bytes[pos] == (if l.max.Some? then 1 else 0)
    ensures At(bytes, pos + 1, Encode(l.min))
    ensures l.max.None? ==> |PrintLimits(l)| == 1 + |Encode(l.min)|
    ensures l.max.Some? ==>
      && At(bytes, pos + 1 + |Encode(l.min)|, Encode(l.max.value))
      && |PrintLimits(l)| == 1 + |Encode(l.min)| + |Encode(l.max.value)|
  {
    hide Encode, At;
    match l.max {
      case None => FlaggedAt(bytes, pos, 0, Encode(l.min), []);
      case Some(max) => FlaggedAt(bytes, pos, 1, Encode(l.min), Encode(max));
    }
  }

  lemma FlaggedAt(bytes: seq<byte>, pos: nat, flag: byte, a: seq<byte>, b: seq<byte>)
    requires At(bytes, pos, [flag] + a + b) || (b == [] && At(bytes, pos, [flag] + a))
    ensures pos < |bytes| && bytes[pos] == flag && At(bytes, pos + 1, a) && At(bytes, pos + 1 + |a|, b)
  {
    hide At;
    FlaggedConcat(flag, a, b);
    AtParts(bytes, pos, [flag], a + b);
    ByteAt(bytes, pos, flag);
    AtParts(bytes, pos + 1, a, b);
  }

  lemma FlaggedConcat(flag: byte, a: seq<byte>, b: seq<byte>)
    ensures [flag] + a + b == [flag] + (a + b) && (b == [] ==> [flag] + a == [flag] + (a + b))
  {
  }

  lemma MemoryAt(bytes: seq<byte>, pos: nat, l: Limits)
    requires At(bytes, pos, PrintDescriptor(Memory(l))) && Encodable(Memory(l))
    ensures pos + 2 <= |bytes| && bytes[pos + 1] == (if l.max.Some? then 1 else 0)
    ensures var next := pos + 2 + Read(bytes[pos + 2..]).1;
      pos + |PrintDescriptor(Memory(l))| == if l.max.Some? then next + Read(bytes[next..]).1 else next
  {
    hide Read, Encode, At, PrintLimits;
    AtParts(bytes, pos, [2], PrintLimits(l));
    LimitsAt(bytes, pos + 1, l);
    ReadAt(bytes, pos + 2, l.min);
    if l.max.Some? {
      ReadAt(bytes, pos + 2 + |Encode(l.min)|, l.max.value);
    }
  }

  lemma SkipFunc(bytes: seq<byte>, pos: nat, end: nat, typeIndex: nat)
    requires At(bytes, pos, PrintDescriptor(Func(typeIndex))) && pos < end && typeIndex < TWO_TO_THE_64
    requires pos < |bytes| && bytes[pos] == 0
    ensures SkipDescriptor(bytes, pos, end) == Some(pos + |PrintDescriptor(Func(typeIndex))|)
  {
    hide Read, Encode;
    AtParts(bytes, pos, [0], Encode(typeIndex));
    ReadAt(bytes, pos + 1, typeIndex);
  }

  lemma SkipMemory(bytes: seq<byte>, pos: nat, end: nat, l: Limits)
    requires At(bytes, pos, PrintDescriptor(Memory(l))) && pos < end && Encodable(Memory(l))
    requires pos < |bytes| && bytes[pos] == 2
    ensures SkipDescriptor(bytes, pos, end) == Some(pos + |PrintDescriptor(Memory(l))|)
  {
    hide Read, Encode, At, PrintDescriptor, PrintLimits;
    MemoryAt(bytes, pos, l);
  }

  lemma SkipTable(bytes: seq<byte>, pos: nat, end: nat, refType: byte, l: Limits)
    requires pos < end && pos < |bytes| && bytes[pos] == 1
    ensures SkipDescriptor(bytes, pos, end) == Some(pos + 4)
    ensures |PrintDescriptor(Table(refType, l))| == 4 <==> FixedSkipFits(Table(refType, l))
  {
    hide Read, Encode;
    TableLength(refType, l);
  }

  lemma SkipGlobal(bytes: seq<byte>, pos: nat, end: nat, valType: byte, mutability: byte)
    requires pos < end && pos < |bytes| && bytes[pos] == 3
    ensures SkipDescriptor(bytes, pos, end) == Some(pos + |PrintDescriptor(Global(valType, mutability))|)
  {
    hide Read;
  }

  /** The reader steps over a printed descriptor exactly if its fixed skip fits it; every other
      table sends it to the wrong place. */
  lemma SkipIsExact(bytes: seq<byte>, pos: nat, end: nat, d: Descriptor)
    requires At(bytes, pos, PrintDescriptor(d)) && pos + |PrintDescriptor(d)| <= end && Encodable(d)
    ensures SkipDescriptor(bytes, pos, end).Some?
    ensures SkipDescriptor(bytes, pos, end) == Some(pos + |PrintDescriptor(d)|) <==> FixedSkipFits(d)
  {
    hide Read, Encode, At, SkipDescriptor, PrintDescriptor;
    TagAt(bytes, pos, d);
    match d {
      case Func(typeIndex) => SkipFunc(bytes, pos, end, typeIndex);
      case Table(refType, l) => SkipTable(bytes, pos, end, refType, l);
      case Memory(l) => SkipMemory(bytes, pos, end, l);
      case Global(valType, mutability) => SkipGlobal(bytes, pos, end, valType, mutability);
    }
  }

  /** The three parts of an import, put together. */
  lemma ReadImportParts(bytes: seq<byte>, pos: nat, end: nat, m: Name, afterModule: nat, n: Name, afterName: nat)
    requires ReadName(bytes, pos) == Some((m, afterModule))
    requires ReadName(bytes, afterModule) == Some((n, afterName))
    requires SkipDescriptor(bytes, afterName, end).Some?
    ensures ReadImport(bytes, pos, end) == Some((Import(m, n, IsWasi(m)), SkipDescriptor(bytes, afterName, end).value))
  {
  }

  /** The reader gets a printed import's names right, and then steps over what its descriptor's
      first byte announces. */
  lemma ImportCursor(bytes: seq<byte>, pos: nat, end: nat, i: ImportDecl) returns (afterName: nat)
    requires At(bytes, pos, PrintImport(i)) && pos + |PrintImport(i)| <= end
    requires |bytes| < TWO_TO_THE_64 && Encodable(i.descriptor)
    ensures At(bytes, afterName, PrintDescriptor(i.descriptor))
    ensures afterName + |PrintDescriptor(i.descriptor)| == pos + |PrintImport(i)|
    ensures SkipDescriptor(bytes, afterName, end).Some?
    ensures ReadImport(bytes, pos, end) ==
      Some((Import(i.moduleName, i.name, IsWasi(i.moduleName)), SkipDescriptor(bytes, afterName, end).value))
  {
    hide Read, Encode, At, IsWasi, PrintName, PrintDescriptor, SkipDescriptor, ReadName, ReadImport;
    var afterModule := pos + |PrintName(i.moduleName)|;
    afterName := afterModule + |PrintName(i.name)|;
    AtParts(bytes, pos, PrintName(i.moduleName), PrintName(i.name) + PrintDescriptor(i.descriptor));
    AtParts(bytes, afterModule, PrintName(i.name), PrintDescriptor(i.descriptor));
    NameAt(bytes, pos, i.moduleName);
    NameAt(bytes, afterModule, i.name);
    SkipIsExact(bytes, afterName, end, i.descriptor);
    ReadImportParts(bytes, pos, end, i.moduleName, afterModule, i.name, afterName);
  }

  lemma ImportAt(bytes: seq<byte>, pos: nat, end: nat, i: ImportDecl)
    requires At(bytes, pos, PrintImport(i)) && pos + |PrintImport(i)| <= end
    requires |bytes| < TWO_TO_THE_64 && Encodable(i.descriptor)
    ensures ReadImport(bytes, pos, end).Some?
    ensures ReadImport(bytes, pos, end).value.0 == Import(i.moduleName, i.name, IsWasi(i.moduleName))
    ensures ReadImport(bytes, pos, end).value.1 == pos + |PrintImport(i)| <==> FixedSkipFits(i.descriptor)
  {
    hide Read, Encode, At, IsWasi, PrintImport, PrintDescriptor, SkipDescriptor, ReadImport;
    var afterName := ImportCursor(bytes, pos, end, i);
    SkipIsExact(bytes, afterName, end, i.descriptor);
  }

  // ----- round trips

  /** Every descriptor can be encoded, and the fixed skip fits every one but possibly the last. */
  ghost predicate Printable(decls: seq<ImportDecl>) {
    && (forall k | 0 <= k < |decls| :: Encodable(decls[k].descriptor))
    && (forall k | 0 <= k < |decls| - 1 :: FixedSkipFits(decls[k].descriptor))
  }

  lemma {:induction false} ImportsAt(bytes: seq<byte>, pos: nat, end: nat, decls: seq<ImportDecl>)
    requires At(bytes, pos, PrintImports(decls)) && end == pos + |PrintImports(decls)|
    requires |bytes| < TWO_TO_THE_64 && Printable(decls)
    ensures ReadImports(bytes, pos, end, |decls|).Parsed?
    ensures ReadImports(bytes, pos, end, |decls|).imports == Detected(decls)
    ensures (forall k | 0 <= k < |decls| :: FixedSkipFits(decls[k].descriptor)) ==>
      ReadImports(bytes, pos, end, |decls|).end == end
    decreases |decls|
  {
    hide Read, Encode, At, PrintImport, ReadImport, FixedSkipFits, IsWasi;
    if decls != [] {
      var first, rest := decls[0], decls[1..];
      AtParts(bytes, pos, PrintImport(first), PrintImports(rest));
      ImportAt(bytes, pos, end, first);
      PrintedImportNotEmpty(first);
      var next := ReadImport(bytes, pos, end).value.1;
      UnfoldImports(bytes, pos, end, |decls|);
      if rest != [] {
        PrintableRest(decls);
        ImportsAt(bytes, next, end, rest);
      }
    }
  }

  lemma PrintableRest(decls: seq<ImportDecl>)
    requires Printable(decls) && |decls| > 1
    ensures Printable(decls[1..]) && FixedSkipFits(decls[0].descriptor)
  {
  }

  lemma PrintedImportNotEmpty(i: ImportDecl)
    ensures |PrintImport(i)| > 0
  {
    EncodeMeaning(|i.moduleName|);
  }

  lemma UnfoldImports(bytes: seq<byte>, pos: nat, end: nat, count: nat)
    requires count > 0 && pos < end && ReadImport(bytes, pos, end).Some?
    ensures ReadImports(bytes, pos, end, count)
         == Prepend([ReadImport(bytes, pos, end).value.0],
                    ReadImports(bytes, ReadImport(bytes, pos, end).value.1, end, count - 1))
  {
  }

  lemma SectionsFirst(ss: seq<Section>)
    requires ss != []
    ensures PrintSections(ss) == PrintSection(ss[0]) + PrintSections(ss[1..])
  {
  }

  lemma {:induction false} SectionsAt(bytes: seq<byte>, pos: nat, ss: seq<Section>)
    requires At(bytes, pos, PrintSections(ss)) && |bytes| < TWO_TO_THE_64
    requires forall k | 0 <= k < |ss| :: ss[k].id != IMPORT_SECTION
    ensures ReadSections(bytes, pos) == ReadSections(bytes, pos + |PrintSections(ss)|)
    decreases |ss|
  {
    hide At, ReadSections, PrintSection;
    if ss != [] {
      SectionsFirst(ss);
      AtParts(bytes, pos, PrintSection(ss[0]), PrintSections(ss[1..]));
      SectionSkipped(bytes, pos, ss[0]);
      SectionsAt(bytes, pos + |PrintSection(ss[0])|, ss[1..]);
    }
  }

  lemma SectionSkipped(bytes: seq<byte>, pos: nat, s: Section)
    requires At(bytes, pos, PrintSection(s)) && |bytes| < TWO_TO_THE_64 && s.id != IMPORT_SECTION
    ensures ReadSections(bytes, pos) == ReadSections(bytes, pos + |PrintSection(s)|)
  {
    hide Read, Encode, ImportSectionAt;
    SectionAt(bytes, pos, s);
    UnfoldSections(bytes, pos, |s.content|, |Encode(|s.content|)|);
  }

  /** The reader enters a printed import section with the right count and end. */
  lemma ImportSectionEntered(bytes: seq<byte>, pos: nat, decls: seq<ImportDecl>) returns (start: nat, end: nat)
    requires At(bytes, pos, PrintSection(ImportSection(decls))) && |bytes| < TWO_TO_THE_64
    ensures At(bytes, start, PrintImports(decls))
    ensures end == start + |PrintImports(decls)| == pos + |PrintSection(ImportSection(decls))|
    ensures ReadSections(bytes, pos) == ReadImports(bytes, start, end, |decls|)
  {
    hide Read, Encode, At, ReadImports, PrintImports;
    var s := ImportSection(decls);
    SectionAt(bytes, pos, s);
    UnfoldSections(bytes, pos, |s.content|, |Encode(|s.content|)|);
    var body := pos + 1 + |Encode(|s.content|)|;
    CountAtMostLength(decls);
    AtParts(bytes, body, Encode(|decls|), PrintImports(decls));
    ReadAt(bytes, body, |decls|);
    start, end := body + |Encode(|decls|)|, body + |s.content|;
  }

  /** The reader finds a printed section's id, size and content. */
  lemma SectionAt(bytes: seq<byte>, pos: nat, s: Section)
    requires At(bytes, pos, PrintSection(s)) && |bytes| < TWO_TO_THE_64
    ensures pos + |PrintSection(s)| <= |bytes| && pos < |bytes| && bytes[pos] == s.id
    ensures Read(bytes[pos + 1..]) == (|s.content|, |Encode(|s.content|)|)
    ensures At(bytes, pos + 1 + |Encode(|s.content|)|, s.content)
  {
    hide Read, Encode;
    AtParts(bytes, pos, [s.id], Encode(|s.content|) + s.content);
    assert bytes[pos] == bytes[pos..pos + 1][0];
    AtParts(bytes, pos + 1, Encode(|s.content|), s.content);
    ReadAt(bytes, pos + 1, |s.content|);
  }

  /** Parsing undoes printing: after any header, any other sections and before any tail, the
      reader reports exactly the declared imports in order, and stops where they end. */
  lemma ExtractPrinted(header: seq<byte>, ss: seq<Section>, decls: seq<ImportDecl>, tail: seq<byte>)
    requires |header| == 8 && Printable(decls)
    requires forall k | 0 <= k < |ss| :: ss[k].id != IMPORT_SECTION
    requires |header + PrintSections(ss) + PrintSection(ImportSection(decls)) + tail| < TWO_TO_THE_64
    ensures var bytes := header + PrintSections(ss) + PrintSection(ImportSection(decls)) + tail;
      && Extract(bytes).Parsed?
      && Extract(bytes).imports == Detected(decls)
      && ((forall k | 0 <= k < |decls| :: FixedSkipFits(decls[k].descriptor)) ==> Extract(bytes).end == |bytes| - |tail|)
  {
    hide Read, Encode, At, ReadImports, ReadSections, Detected, PrintImports, PrintSection, PrintSections, Printable;
    var sections, section := PrintSections(ss), PrintSection(ImportSection(decls));
    var bytes := header + sections + section + tail;
    PartsAt(header, sections, section, tail);
    SectionsAt(bytes, 8, ss);
    var start, end := ImportSectionEntered(bytes, 8 + |sections|, decls);
    ImportsAt(bytes, start, end, decls);
  }

  lemma PartsAt(header: seq<byte>, a: seq<byte>, b: seq<byte>, tail: seq<byte>)
    ensures At(header + a + b + tail, |header|, a) && At(header + a + b + tail, |header| + |a|, b)
  {
  }

  lemma {:induction false} CountAtMostLength(decls: seq<ImportDecl>)
    ensures |decls| <= |PrintImports(decls)|
  {
    if decls != [] {
      EncodeMeaning(|decls[0].moduleName|);
      CountAtMostLength(decls[1..]);
    }
  }

  // ----- which imports are WASI

  /** The module name begins with one of the two names of WASI. */
  ghost predicate NamedWasi(moduleName: Name) {
    Utf8.Bytes("wasi_snapshot_preview1") <= moduleName || Utf8.Bytes("wasi:") <= moduleName
  }

  lemma BytesOfWasi()
    ensures Utf8.Bytes("wasi_") == [119, 97, 115, 105, 95]
    ensures Utf8.Bytes("wasi:") == [119, 97, 115, 105, 58]
  {
    Utf8.AsciiBytes("wasi_");
    Utf8.AsciiBytes("wasi:");
    hide Utf8.Bytes;
  }

  lemma BytesOfSnapshot()
    ensures Utf8.Bytes("snapshot") == [115, 110, 97, 112, 115, 104, 111, 116]
  {
    Utf8.AsciiBytes("snapshot");
    hide Utf8.Bytes;
  }

  lemma BytesOfPreview()
    ensures Utf8.Bytes("_preview1") == [95, 112, 114, 101, 118, 105, 101, 119, 49]
  {
    Utf8.AsciiBytes("_preview1");
    hide Utf8.Bytes;
  }

  lemma WasiNames()
    ensures WASI_PREVIEW1 == Utf8.Bytes("wasi_snapshot_preview1") && WASI_COLON == Utf8.Bytes("wasi:")
  {
    BytesOfWasi();
    BytesOfSnapshot();
    BytesOfPreview();
    hide Utf8.Bytes;
    Utf8.BytesConcat("wasi_", "snapshot");
    Utf8.BytesConcat("wasi_" + "snapshot", "_preview1");
    assert "wasi_" + "snapshot" + "_preview1" == "wasi_snapshot_preview1";
    assert WASI_PREVIEW1 == WASI_PREVIEW1[..5] + WASI_PREVIEW1[5..13] + WASI_PREVIEW1[13..];
  }

  lemma {:induction false} FlagsOfImports(bytes: seq<byte>, pos: nat, end: nat, count: nat)
    ensures var r := ReadImports(bytes, pos, end, count);
      r.Parsed? ==> forall i | i in r.imports :: i.isWasi <==> NamedWasi(i.moduleName)
    decreases count
  {
    hide Read, SkipDescriptor, ReadName, NamedWasi, IsWasi;
    if count > 0 && pos < end && ReadImport(bytes, pos, end).Some? {
      var (i, next) := ReadImport(bytes, pos, end).value;
      FlagIsName(i.moduleName);
      FlagsOfImports(bytes, next, end, count - 1);
    }
  }

  lemma FlagIsName(moduleName: Name)
    ensures IsWasi(moduleName) <==> NamedWasi(moduleName)
  {
    WasiNames();
    hide Utf8.Bytes;
  }

  lemma {:induction false} FlagsOfSections(bytes: seq<byte>, pos: nat)
    ensures var r := ReadSections(bytes, pos);
      r.Parsed? ==> forall i | i in r.imports :: i.isWasi <==> NamedWasi(i.moduleName)
    decreases |bytes| - pos
  {
    hide Read, ReadImports, NamedWasi;
    if pos < |bytes| {
      var (size, taken) := Read(bytes[pos + 1..]);
      var body := pos + 1 + taken;
      UnfoldSections(bytes, pos, size, taken);
      if body + size < TWO_TO_THE_64 {
        if bytes[pos] == IMPORT_SECTION {
          var (count, skipped) := Read(bytes[body..]);
          FlagsOfImports(bytes, body + skipped, body + size, count);
        } else {
          FlagsOfSections(bytes, body + size);
        }
      }
    }
  }

  /** In every module that is read at all, an import is reported as WASI exactly if its module name
      begins with "wasi_snapshot_preview1" or "wasi:". */
  lemma ReportedWasiIff(bytes: seq<byte>)
    ensures Extract(bytes).Parsed? ==>
      forall i | i in Extract(bytes).imports :: i.isWasi <==>
        Utf8.Bytes("wasi_snapshot_preview1") <= i.moduleName || Utf8.Bytes("wasi:") <= i.moduleName
  {
    hide ReadSections, Utf8.Bytes;
    if |bytes| >= 8 {
      FlagsOfSections(bytes, 8);
    }
  }

  /** So in a printed module, import k is reported as WASI exactly if it was declared under such a name. */
  lemma PrintedWasiIff(header: seq<byte>, ss: seq<Section>, decls: seq<ImportDecl>, tail: seq<byte>, k: nat)
    requires |header| == 8 && Printable(decls) && k < |decls|
    requires forall j | 0 <= j < |ss| :: ss[j].id != IMPORT_SECTION
    requires |header + PrintSections(ss) + PrintSection(ImportSection(decls)) + tail| < TWO_TO_THE_64
    ensures var r := Extract(header + PrintSections(ss) + PrintSection(ImportSection(decls)) + tail);
      && r.Parsed? && |r.imports| == |decls|
      && r.imports[k].moduleName == decls[k].moduleName && r.imports[k].name == decls[k].name
      && (r.imports[k].isWasi <==>
            Utf8.Bytes("wasi_snapshot_preview1") <= decls[k].moduleName || Utf8.Bytes("wasi:") <= decls[k].moduleName)
  {
    hide Extract, Printable, Utf8.Bytes;
    var bytes := header + PrintSections(ss) + PrintSection(ImportSection(decls)) + tail;
    ExtractPrinted(header, ss, decls, tail);
    ReportedWasiIff(bytes);
    assert Extract(bytes).imports[k] in Extract(bytes).imports;
  }

  // ----- the padded module of the engine benchmark

  const HEADER: seq<byte> := [0x00, 0x61, 0x73, 0x6d, 0x01, 0x00, 0x00, 0x00]

  /** The length byte 4 and the name "pad\0". */
  const PAD_NAME: seq<byte> := [4, 112, 97, 100, 0]

  method CreatePaddedWasm(targetSize: nat) returns (wasm: seq<byte>)
    ensures targetSize <= 18 ==> wasm == HEADER
    ensures targetSize > 18 ==>
      wasm == HEADER + PrintSection(Section(0, PAD_NAME + seq(targetSize - 18, i => 0 as byte)))
  {
    wasm := HEADER;
    if targetSize > |wasm| + 10 {
      var paddingSize := targetSize - |wasm| - 10;
      wasm := wasm + [0];
      var sizeBytes := EncodeSize(paddingSize + 5);
      wasm := wasm + sizeBytes + PAD_NAME + seq(paddingSize, i => 0 as byte);
      ghost var content := PAD_NAME + seq(targetSize - 18, i => 0 as byte);
      assert |content| == paddingSize + 5;
      assert wasm == HEADER + ([0] + (Encode(|content|) + content));
    }
  }

  /** It is four bytes short of the target size, but for the bytes that the section size takes. */
  lemma PaddedSize(targetSize: nat)
    requires targetSize > 18
    ensures |HEADER + PrintSection(Section(0, PAD_NAME + seq(targetSize - 18, i => 0 as byte)))|
         == targetSize - 4 + |Encode(targetSize - 13)|
  {
    hide Encode;
    var content := PAD_NAME + seq(targetSize - 18, i => 0 as byte);
    assert |content| == targetSize - 13;
  }

  /** A padded module has no imports, and the reader walks it exactly to its end. */
  lemma PaddedHasNoImports(padding: nat)
    requires |HEADER + PrintSection(Section(0, PAD_NAME + seq(padding, i => 0 as byte)))| < TWO_TO_THE_64
    ensures var wasm := HEADER + PrintSection(Section(0, PAD_NAME + seq(padding, i => 0 as byte)));
      Extract(wasm) == Parsed([], |wasm|)
    ensures Extract(HEADER) == Parsed([], |HEADER|)
  {
    hide Read, Encode, PrintSection, ImportSectionAt;
    var s := Section(0, PAD_NAME + seq(padding, i => 0 as byte));
    var wasm := HEADER + PrintSection(s);
    assert PrintSections([s]) == PrintSection(s) + PrintSections([s][1..]) == PrintSection(s);
    assert At(wasm, 8, PrintSection(s));
    SectionsAt(wasm, 8, [s]);
  }
}
