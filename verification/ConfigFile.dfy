/** Sizes and durations in a configuration file, and applying such a file to a builder. */
module ConfigFile {
  import opened Common
  import opened Powers
  import opened Text

  datatype ConfigError = InvalidSize(text: string) | InvalidDuration(text: string)

  // ----- numbers

  predicate IsDigit(c: char) {
    '0' <= c <= '9'
  }

  predicate AllDigits(s: string) {
    forall k | 0 <= k < |s| :: IsDigit(s[k])
  }

  /** The number that decimal digits denote. */
  function DigitsValue(s: string): nat
    requires AllDigits(s)
  {
    if s == [] then 0 else 10 * DigitsValue(s[..|s| - 1]) + (s[|s| - 1] as int - '0' as int)
  }

  /** Parsing an unsigned 64-bit number: digits with an optional plus sign, and no overflow. */
  function ParseU64(s: string): Option<nat> {
    var digits := if |s| > 1 && s[0] == '+' then s[1..] else s;
    if digits == [] || !AllDigits(digits) then None
    else if DigitsValue(digits) >= TWO_TO_THE_64 then None
    else Some(DigitsValue(digits))
  }

  predicate EndsWith(s: string, c: char) {
    |s| >= 1 && s[|s| - 1] == c
  }

  predicate EndsWithPair(s: string, c: char, d: char) {
    |s| >= 2 && s[|s| - 2] == c && s[|s| - 1] == d
  }

  // ----- sizes and durations

  /** The number part of a trimmed size and its unit. */
  function SplitSize(s: string): (string, nat) {
    if EndsWithPair(s, 'G', 'B') || EndsWithPair(s, 'g', 'b') then (s[..|s| - 2], 1024 * 1024 * 1024)
    else if EndsWithPair(s, 'M', 'B') || EndsWithPair(s, 'm', 'b') then (s[..|s| - 2], 1024 * 1024)
    else if EndsWithPair(s, 'K', 'B') || EndsWithPair(s, 'k', 'b') then (s[..|s| - 2], 1024)
    else if EndsWith(s, 'B') || EndsWith(s, 'b') then (s[..|s| - 1], 1)
    else (s, 1)
  }

  /** The number part of a trimmed duration and its unit in milliseconds. */
  function SplitDuration(s: string): (string, nat) {
    if EndsWithPair(s, 'm', 's') then (s[..|s| - 2], 1)
    else if EndsWith(s, 's') then (s[..|s| - 1], 1000)
    else if EndsWith(s, 'm') then (s[..|s| - 1], 60 * 1000)
    else if EndsWith(s, 'h') then (s[..|s| - 1], 3600 * 1000)
    else (s, 1000)
  }

  /** Number times unit. */
  datatype Scaled = Malformed | TooLarge | Product(n: nat)

  function Scale(number: string, unit: nat): Scaled {
    match ParseU64(Trim(number))
    case None => Malformed
    case Some(n) => if n * unit >= TWO_TO_THE_64 then TooLarge else Product(n * unit)
  }

  function ParseSize(text: string): Result<nat, ConfigError> {
    var s := Trim(text);
    var (number, unit) := SplitSize(s);
    match Scale(number, unit)
    case Malformed => Err(InvalidSize(s))
    case TooLarge => Err(InvalidSize(s + " exceeds maximum representable size"))
    case Product(n) => Ok(n)
  }

  /** In milliseconds. */
  function ParseDuration(text: string): Result<nat, ConfigError> {
    var s := Trim(text);
    var (number, unit) := SplitDuration(s);
    match Scale(number, unit)
    case Malformed => Err(InvalidDuration(s))
    case TooLarge => Err(InvalidDuration(s + " exceeds maximum representable duration"))
    case Product(n) => Ok(n)
  }

  // ----- printed numbers

  function Digit(d: nat): char
    requires d < 10
  {
    ('0' as int + d) as char
  }

  function Decimal(n: nat): string {
    if n < 10 then [Digit(n)] else Decimal(n / 10) + [Digit(n % 10)]
  }

  lemma {:induction false} DecimalDenotes(n: nat)
    ensures Decimal(n) != [] && AllDigits(Decimal(n)) && DigitsValue(Decimal(n)) == n
  {
    if n >= 10 {
      DecimalDenotes(n / 10);
      var init := Decimal(n / 10);
      assert Decimal(n)[..|init|] == init;
    } else {
      assert [Digit(n)][..0] == [];
    }
  }

  lemma {:induction false} TrimEndSpaces(s: string, spaces: string)
    requires s == [] || !IsSpace(s[|s| - 1])
    requires forall k | 0 <= k < |spaces| :: IsSpace(spaces[k])
    ensures TrimEnd(s + spaces) == s
  {
    if spaces == [] {
      assert s + spaces == s;
    } else {
      assert (s + spaces)[..|s + spaces| - 1] == s + spaces[..|spaces| - 1];
      TrimEndSpaces(s, spaces[..|spaces| - 1]);
    }
  }

  lemma TrimPrinted(d: string, spaces: string)
    requires d != [] && !IsSpace(d[0]) && !IsSpace(d[|d| - 1])
    requires forall k | 0 <= k < |spaces| :: IsSpace(spaces[k])
    ensures Trim(d + spaces) == d
  {
    assert TrimStart(d + spaces) == d + spaces;
    TrimEndSpaces(d, spaces);
  }

  lemma ParsePrinted(n: nat)
    ensures ParseU64(Decimal(n)) == if n < TWO_TO_THE_64 then Some(n) else None
  {
    DecimalDenotes(n);
    hide Decimal, DigitsValue;
    assert IsDigit(Decimal(n)[0]);
  }

  lemma FactorAtMostProduct(n: nat, unit: nat)
    requires unit >= 1
    ensures n <= n * unit
  {
  }

  /** What n units come to: a number that does not fit 64 bits itself is malformed. */
  function Units(n: nat, unit: nat): Scaled {
    if n >= TWO_TO_THE_64 then Malformed else if n * unit >= TWO_TO_THE_64 then TooLarge else Product(n * unit)
  }

  /** A printed number followed by spaces scales to the product, or to an error exactly on overflow. */
  lemma ScalePrinted(n: nat, spaces: string, unit: nat)
    requires forall k | 0 <= k < |spaces| :: IsSpace(spaces[k])
    requires unit >= 1
    ensures Scale(Decimal(n) + spaces, unit) == Units(n, unit)
    ensures Units(n, unit).Product? <==> n * unit < TWO_TO_THE_64
  {
    hide Decimal, Trim, ParseU64, DigitsValue;
    DecimalDenotes(n);
    assert IsDigit(Decimal(n)[0]) && IsDigit(Decimal(n)[|Decimal(n)| - 1]);
    TrimPrinted(Decimal(n), spaces);
    ParsePrinted(n);
    FactorAtMostProduct(n, unit);
  }

  /** A text in which a printed number is followed by spaces and a unit name. */
  ghost predicate Printed(text: string, n: nat, spaces: string, suffix: string) {
    && (forall k | 0 <= k < |spaces| :: IsSpace(spaces[k]))
    && (suffix == [] ==> spaces == [])
    && Trim(text) == Decimal(n) + spaces + suffix
  }

  function SizeUnit(suffix: string): Option<nat> {
    if suffix == "GB" || suffix == "gb" then Some(1024 * 1024 * 1024)
    else if suffix == "MB" || suffix == "mb" then Some(1024 * 1024)
    else if suffix == "KB" || suffix == "kb" then Some(1024)
    else if suffix == "B" || suffix == "b" || suffix == "" then Some(1)
    else None
  }

  function DurationUnit(suffix: string): Option<nat> {
    if suffix == "ms" then Some(1)
    else if suffix == "s" || suffix == "" then Some(1000)
    else if suffix == "m" then Some(60 * 1000)
    else if suffix == "h" then Some(3600 * 1000)
    else None
  }

  /** A number part: its last character is a digit or a space, so never part of a unit name. */
  ghost predicate NumberPart(head: string) {
    head != [] && (IsDigit(head[|head| - 1]) || IsSpace(head[|head| - 1]))
  }

  lemma PrintedIsNumberPart(n: nat, spaces: string)
    requires forall k | 0 <= k < |spaces| :: IsSpace(spaces[k])
    ensures NumberPart(Decimal(n) + spaces)
  {
    DecimalDenotes(n);
  }

  lemma SplitSizeAtUnit(head: string, suffix: string)
    requires NumberPart(head) && SizeUnit(suffix).Some?
    ensures SplitSize(head + suffix) == (head, SizeUnit(suffix).value)
  {
    var s := head + suffix;
    assert s[..|head|] == head;
    assert s[|head| - 1] == head[|head| - 1];
    assert forall k | 0 <= k < |suffix| :: s[|head| + k] == suffix[k];
    assert suffix == [] ==> s == head;
  }

  lemma SplitDurationAtUnit(head: string, suffix: string)
    requires NumberPart(head) && DurationUnit(suffix).Some?
    ensures SplitDuration(head + suffix) == (head, DurationUnit(suffix).value)
  {
    var s := head + suffix;
    assert s[..|head|] == head;
    assert s[|head| - 1] == head[|head| - 1];
    assert forall k | 0 <= k < |suffix| :: s[|head| + k] == suffix[k];
    assert suffix == [] ==> s == head;
  }

  /** Parsing undoes printing: n units parse to n times the unit, and to an error exactly when
      that product does not fit 64 bits; the error tells whether already n does not. */
  lemma PrintedSizeParses(text: string, n: nat, spaces: string, suffix: string)
    requires Printed(text, n, spaces, suffix) && SizeUnit(suffix).Some?
    ensures var bytes := n * SizeUnit(suffix).value;
      ParseSize(text) ==
        if bytes < TWO_TO_THE_64 then Ok(bytes)
        else Err(InvalidSize(if n < TWO_TO_THE_64 then Trim(text) + " exceeds maximum representable size" else Trim(text)))
  {
    hide Decimal, Trim, Scale;
    PrintedIsNumberPart(n, spaces);
    SplitSizeAtUnit(Decimal(n) + spaces, suffix);
    ScalePrinted(n, spaces, SizeUnit(suffix).value);
  }

  /** Likewise for durations; "ms" is never taken for "m" or "s". */
  lemma PrintedDurationParses(text: string, n: nat, spaces: string, suffix: string)
    requires Printed(text, n, spaces, suffix) && DurationUnit(suffix).Some?
    ensures var millis := n * DurationUnit(suffix).value;
      ParseDuration(text) ==
        if millis < TWO_TO_THE_64 then Ok(millis)
        else Err(InvalidDuration(if n < TWO_TO_THE_64 then Trim(text) + " exceeds maximum representable duration" else Trim(text)))
  {
    hide Decimal, Trim, Scale;
    PrintedIsNumberPart(n, spaces);
    SplitDurationAtUnit(Decimal(n) + spaces, suffix);
    ScalePrinted(n, spaces, DurationUnit(suffix).value);
  }

  /** The units in numbers: bytes for sizes, milliseconds for durations. */
  lemma UnitsInNumbers()
    ensures SizeUnit("GB") == SizeUnit("gb") == Some(1_073_741_824)
    ensures SizeUnit("MB") == SizeUnit("mb") == Some(1_048_576)
    ensures SizeUnit("KB") == SizeUnit("kb") == Some(1_024)
    ensures SizeUnit("B") == SizeUnit("b") == SizeUnit("") == Some(1)
    ensures DurationUnit("ms") == Some(1) && DurationUnit("s") == DurationUnit("") == Some(1_000)
    ensures DurationUnit("m") == Some(60_000) && DurationUnit("h") == Some(3_600_000)
  {
  }

  lemma DecimalsInDigits()
    ensures Decimal(128) == "128" && Decimal(512) == "512" && Decimal(500) == "500" && Decimal(30) == "30"
  {
    assert Decimal(1) == "1" && Decimal(5) == "5" && Decimal(3) == "3";
    assert Decimal(12) == "12" && Decimal(51) == "51" && Decimal(50) == "50";
  }

  /** Some sizes and durations, spelled out. */
  lemma SizesSpelledOut()
    ensures ParseSize(" 128 MB ") == Ok(134_217_728) && ParseSize("512kb") == Ok(524_288)
  {
    DecimalsInDigits();
    hide Decimal, ParseSize;
    assert Trim(" 128 MB ") == "128" + " " + "MB";
    assert Trim("512kb") == "512" + "" + "kb";
    hide Trim;
    PrintedSizeParses(" 128 MB ", 128, " ", "MB");
    PrintedSizeParses("512kb", 512, "", "kb");
  }

  lemma DurationsSpelledOut()
    ensures ParseDuration("500ms") == Ok(500) && ParseDuration("30s\n") == Ok(30_000)
  {
    DecimalsInDigits();
    hide Decimal, ParseDuration;
    assert Trim("500ms") == "500" + "" + "ms";
    assert Trim("30s\n") == "30" + "" + "s";
    hide Trim;
    PrintedDurationParses("500ms", 500, "", "ms");
    PrintedDurationParses("30s\n", 30, "", "s");
  }

  /** A plus sign may precede a number, but is none. */
  lemma PlusSign(n: nat)
    ensures ParseU64("+" + Decimal(n)) == ParseU64(Decimal(n)) && ParseU64("+") == ParseU64("") == None
  {
    DecimalDenotes(n);
    hide Decimal, DigitsValue;
    var s := "+" + Decimal(n);
    assert s[1..] == Decimal(n);
    assert IsDigit(Decimal(n)[0]);
  }

  /** A two-letter unit name in mixed case. */
  predicate MixedCase(suffix: string) {
    suffix in {"Gb", "gB", "Mb", "mB", "Kb", "kB"}
  }

  /** Unit names are accepted in upper case and in lower case, but never in mixed case. */
  lemma MixedCaseIsRejected(text: string, n: nat, spaces: string, suffix: string)
    requires Printed(text, n, spaces, suffix) && MixedCase(suffix)
    ensures ParseSize(text) == Err(InvalidSize(Trim(text)))
  {
    var number := Decimal(n) + spaces + [suffix[0]];
    assert Decimal(n) + spaces + suffix == number + [suffix[1]];
    SplitMixedCase(number, suffix[1]);
    DecimalDenotes(n);
    assert IsDigit(number[0]);
    NotANumber(number);
  }

  lemma SplitMixedCase(number: string, last: char)
    requires number != [] && number[|number| - 1] in {'G', 'g', 'M', 'm', 'K', 'k'} && last in {'B', 'b'}
    requires number[|number| - 1] in {'G', 'M', 'K'} <==> last == 'b'
    ensures SplitSize(number + [last]) == (number, 1)
  {
    var s := number + [last];
    assert s[..|s| - 1] == number;
  }

  lemma NotANumber(number: string)
    requires |number| > 1 && IsDigit(number[0])
    requires !IsSpace(number[|number| - 1]) && !IsDigit(number[|number| - 1])
    ensures Scale(number, 1) == Malformed
  {
    assert Trim(number) == number;
    assert !AllDigits(number);
  }

  // ----- the file and the builder

  datatype Memory = Memory(heapMax: Option<string>, stackMax: Option<string>)
  datatype Cpu = Cpu(fuel: Option<nat>, timeLimit: Option<string>)
  datatype Io = Io(readLimit: Option<string>, writeLimit: Option<string>)

  datatype Resources = Resources(memory: Option<Memory>, cpu: Option<Cpu>, io: Option<Io>, timeout: Option<string>)

  datatype Limits = Limits(
    heap: Option<nat>, stack: Option<nat>, fuel: Option<nat>, cpuTime: Option<nat>,
    ioRead: Option<nat>, ioWrite: Option<nat>, wallTime: Option<nat>)

  function Field<T, U>(section: Option<T>, get: T -> Option<U>): Option<U> {
    match section
    case None => None
    case Some(t) => get(t)
  }

  function HeapText(r: Resources): Option<string> { Field(r.memory, (m: Memory) => m.heapMax) }
  function StackText(r: Resources): Option<string> { Field(r.memory, (m: Memory) => m.stackMax) }
  function Fuel(r: Resources): Option<nat> { Field(r.cpu, (c: Cpu) => c.fuel) }
  function CpuTimeText(r: Resources): Option<string> { Field(r.cpu, (c: Cpu) => c.timeLimit) }
  function ReadText(r: Resources): Option<string> { Field(r.io, (i: Io) => i.readLimit) }
  function WriteText(r: Resources): Option<string> { Field(r.io, (i: Io) => i.writeLimit) }

  /** The error of an optional text, if it is there and malformed. */
  function ErrorIn(text: Option<string>, parse: string -> Result<nat, ConfigError>): Option<ConfigError> {
    if text.Some? && parse(text.value).Err? then Some(parse(text.value).error) else None
  }

  function Or(a: Option<ConfigError>, b: Option<ConfigError>): Option<ConfigError> {
    if a.Some? then a else b
  }

  /** The first malformed text, in the order of the file's sections. */
  function Validate(r: Resources): Option<ConfigError> {
    Or(ErrorIn(HeapText(r), ParseSize),
    Or(ErrorIn(StackText(r), ParseSize),
    Or(ErrorIn(CpuTimeText(r), ParseDuration),
    Or(ErrorIn(ReadText(r), ParseSize),
    Or(ErrorIn(WriteText(r), ParseSize),
       ErrorIn(r.timeout, ParseDuration))))))
  }

  /** Which text is which. */
  lemma TextsInPlainTerms(r: Resources, text: string, n: nat)
    ensures HeapText(r) == Some(text) <==> r.memory.Some? && r.memory.value.heapMax == Some(text)
    ensures StackText(r) == Some(text) <==> r.memory.Some? && r.memory.value.stackMax == Some(text)
    ensures Fuel(r) == Some(n) <==> r.cpu.Some? && r.cpu.value.fuel == Some(n)
    ensures CpuTimeText(r) == Some(text) <==> r.cpu.Some? && r.cpu.value.timeLimit == Some(text)
    ensures ReadText(r) == Some(text) <==> r.io.Some? && r.io.value.readLimit == Some(text)
    ensures WriteText(r) == Some(text) <==> r.io.Some? && r.io.value.writeLimit == Some(text)
  {
  }

  /** A text that is there and malformed. */
  predicate BadSize(text: Option<string>) {
    text.Some? && ParseSize(text.value).Err?
  }

  predicate BadDuration(text: Option<string>) {
    text.Some? && ParseDuration(text.value).Err?
  }

  /** Validation reports the first malformed text: heap, stack, CPU time, reading, writing, timeout. */
  lemma ValidateInPlainTerms(r: Resources)
    ensures var heap, stack, cpu, read, write := HeapText(r), StackText(r), CpuTimeText(r), ReadText(r), WriteText(r);
      Validate(r) ==
        if BadSize(heap) then Some(ParseSize(heap.value).error)
        else if BadSize(stack) then Some(ParseSize(stack.value).error)
        else if BadDuration(cpu) then Some(ParseDuration(cpu.value).error)
        else if BadSize(read) then Some(ParseSize(read.value).error)
        else if BadSize(write) then Some(ParseSize(write.value).error)
        else if BadDuration(r.timeout) then Some(ParseDuration(r.timeout.value).error)
        else None
  {
    hide ParseSize, ParseDuration, HeapText, StackText, CpuTimeText, ReadText, WriteText;
  }

  /** A limit becomes what the text says, or stays what it was if there is no text. */
  function Updated(before: Option<nat>, text: Option<string>, parse: string -> Result<nat, ConfigError>)
    : Result<Option<nat>, ConfigError>
  {
    match text
    case None => Ok(before)
    case Some(s) =>
      match parse(s)
      case Err(e) => Err(e)
      case Ok(n) => Ok(Some(n))
  }

  lemma UpdatedInPlainTerms(before: Option<nat>, after: Option<nat>, text: Option<string>,
                            parse: string -> Result<nat, ConfigError>)
    ensures Ok(after) == Updated(before, text, parse) <==>
      if text.None? then after == before else after.Some? && parse(text.value) == Ok(after.value)
  {
  }

  /** Applying a file succeeds exactly if validating it does, fails with the same error, and sets
      exactly the limits the file mentions. */
  method ApplyConfigFile(builder: Limits, r: Resources) returns (applied: Result<Limits, ConfigError>)
    ensures applied.Ok? <==> Validate(r).None?
    ensures applied.Err? ==> Validate(r) == Some(applied.error)
    ensures applied.Ok? ==>
      var b := applied.value;
      && Ok(b.heap) == Updated(builder.heap, HeapText(r), ParseSize)
      && Ok(b.stack) == Updated(builder.stack, StackText(r), ParseSize)
      && b.fuel == (if Fuel(r).Some? then Fuel(r) else builder.fuel)
      && Ok(b.cpuTime) == Updated(builder.cpuTime, CpuTimeText(r), ParseDuration)
      && Ok(b.ioRead) == Updated(builder.ioRead, ReadText(r), ParseSize)
      && Ok(b.ioWrite) == Updated(builder.ioWrite, WriteText(r), ParseSize)
      && Ok(b.wallTime) == Updated(builder.wallTime, r.timeout, ParseDuration)
  {
    hide ParseSize, ParseDuration, HeapText, StackText, Fuel, CpuTimeText, ReadText, WriteText;
    var b := builder;
    var heap := Updated(b.heap, HeapText(r), ParseSize);
    if heap.Err? {
      return Err(heap.error);
    }
    b := b.(heap := heap.value);
    var stack := Updated(b.stack, StackText(r), ParseSize);
    if stack.Err? {
      return Err(stack.error);
    }
    b := b.(stack := stack.value);
    if Fuel(r).Some? {
      b := b.(fuel := Fuel(r));
    }
    var cpuTime := Updated(b.cpuTime, CpuTimeText(r), ParseDuration);
    if cpuTime.Err? {
      return Err(cpuTime.error);
    }
    b := b.(cpuTime := cpuTime.value);
    var ioRead := Updated(b.ioRead, ReadText(r), ParseSize);
    if ioRead.Err? {
      return Err(ioRead.error);
    }
    b := b.(ioRead := ioRead.value);
    var ioWrite := Updated(b.ioWrite, WriteText(r), ParseSize);
    if ioWrite.Err? {
      return Err(ioWrite.error);
    }
    b := b.(ioWrite := ioWrite.value);
    var wallTime := Updated(b.wallTime, r.timeout, ParseDuration);
    if wallTime.Err? {
      return Err(wallTime.error);
    }
    b := b.(wallTime := wallTime.value);
    return Ok(b);
  }
}
