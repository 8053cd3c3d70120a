/**
 * The driver of `load_terminfo.c`: reads a compiled terminfo file (the
 * legacy and the extended storage formats of the ncurses term(5) manual
 * page), picks the key capabilities out of it and files each one in an
 * `info_base` through `info_base_add_input`.
 *
 * The file is a byte sequence. Offsets are `size_t` values, so the model
 * wraps every sum modulo 2^64 just as the C does when a header count is
 * negative. Messages printed along the way are left out; the outcome
 * says how the program ends.
 */
module Loader {
  import opened Basics
  import opened RecordStore
  import opened Matcher
  import opened Classifier

  // ---------------------------------------------------------------------------
  // size_t and int16_t arithmetic
  // ---------------------------------------------------------------------------

  /** A C `int16_t`. */
  type I16 = x: int | -0x8000 <= x < 0x8000

  /** Conversion to `size_t`: the value modulo 2^64. */
  function W(x: int): (r: nat)
    ensures r < SizeModulus
  {
    x % SizeModulus
  }

  /** `basics_align(value, sizeof(int16_t))` on `size_t` values. */
  function AlignW(value: nat): nat
  {
    W(value + 1) / 2 * 2
  }

  /** A stored 16-bit word read as an `int16_t`. */
  function Int16(w: U16): I16
  {
    if w < 0x8000 then w else w - 0x1_0000
  }

  /** The `int16_t` reading of a word is that word again modulo 2^16, as a `size_t` too. */
  lemma Int16Wraps(w: U16)
    ensures Int16(w) % 0x1_0000 == w
    ensures W(Int16(w)) % 0x1_0000 == w
  {
    if w >= 0x8000 {
      assert W(Int16(w)) == SizeModulus + w - 0x1_0000;
    }
  }

  /** The little-endian `int16_t` at `position`. */
  function I16At(content: seq<Byte>, position: nat): I16
    requires position + 2 <= |content|
  {
    Int16(Word16Le(content[position], content[position + 1]))
  }

  // ---------------------------------------------------------------------------
  // Headers and offsets
  // ---------------------------------------------------------------------------

  /** The six-word header at the start of the file. */
  datatype Header = Header(magic: I16, namesSize: I16, booleansCount: I16, numbersCount: I16,
                           stringTableEntries: I16, stringTableSize: I16)

  /** The five-word header of the extended section. */
  datatype ExtHeader = ExtHeader(booleansCount: I16, numbersCount: I16, stringsCount: I16,
                                 stringTableEntries: I16, stringTableSize: I16)

  /** The magic number of the legacy format (octal 0432): numbers are 16 bits wide. */
  const LegacyMagic: int := 0x11a
  /** The magic number of the 32-bit number format (octal 01036). */
  const ExtendedMagic: int := 0x21e
  /** The size of the header, in bytes. */
  const HeaderBytes: nat := 12
  /** The size of the extended header, in bytes. */
  const ExtHeaderBytes: nat := 10

  function HeaderOf(content: seq<Byte>): Header
    requires HeaderBytes <= |content|
  {
    Header(I16At(content, 0), I16At(content, 2), I16At(content, 4),
           I16At(content, 6), I16At(content, 8), I16At(content, 10))
  }

  function ExtHeaderOf(content: seq<Byte>, position: nat): ExtHeader
    requires position + ExtHeaderBytes <= |content|
  {
    ExtHeader(I16At(content, position), I16At(content, position + 2), I16At(content, position + 4),
              I16At(content, position + 6), I16At(content, position + 8))
  }

  /** `number_size`: numbers are two or four bytes wide. */
  datatype NumberSize = TwoBytes | FourBytes

  /** `number_size * count`: the bytes taken by `count` numbers. */
  function NumbersBytes(size: NumberSize, count: int): int
  {
    match size
    case TwoBytes => 2 * count
    case FourBytes => 4 * count
  }

  /** The width of a number by magic number; none for an unknown magic. */
  function NumberWidth(magic: int): (size: Option<NumberSize>)
    ensures size == Some(TwoBytes) <==> magic == LegacyMagic
    ensures size == Some(FourBytes) <==> magic == ExtendedMagic
    ensures size == None <==> magic != LegacyMagic && magic != ExtendedMagic
  {
    if magic == LegacyMagic then Some(TwoBytes) else if magic == ExtendedMagic then Some(FourBytes) else None
  }

  /** Where the index of the legacy string table starts: after the names, booleans (aligned) and numbers. */
  function IndexTableOffset(h: Header, size: NumberSize): nat
  {
    W(AlignW(W(W(HeaderBytes + h.namesSize) + h.booleansCount)) + NumbersBytes(size, h.numbersCount))
  }

  /** Where the legacy string table starts: after the index of two-byte entries. */
  function StringTableOffset(h: Header, indexTable: nat): nat
  {
    W(indexTable + 2 * h.stringTableEntries)
  }

  /** Where the extended string table starts, for an extended header at `position`. */
  function ExtStringTableOffset(position: nat, e: ExtHeader, size: NumberSize): nat
  {
    W(W(AlignW(W(W(position + ExtHeaderBytes) + e.booleansCount)) + NumbersBytes(size, e.numbersCount)) +
      2 * e.stringTableEntries)
  }

  // ---------------------------------------------------------------------------
  // The capability maps
  // ---------------------------------------------------------------------------

  /** A legacy string capability, by its position in the string index, and the key it means. */
  datatype IndexKeyMod = IndexKeyMod(index: nat, key: Byte, mod: Byte)

  /** An extended string capability, by name, and the key it means. */
  datatype NameKeyMod = NameKeyMod(name: string, key: Byte, mod: Byte)

  /** The legacy capabilities `load_terminfo` reads. */
  const IndexKeyModMap: seq<IndexKeyMod> := [
    IndexKeyMod(55, KeyBackspace, 0),  // BACKSPACE
    IndexKeyMod(59, KeyDelete, 0),  // DC
    IndexKeyMod(61, KeyDown, 0),  // DOWN
    IndexKeyMod(66, KeyF1, 0),  // F1
    IndexKeyMod(67, KeyF10, 0),  // F10
    IndexKeyMod(68, KeyF2, 0),  // F2
    IndexKeyMod(69, KeyF3, 0),  // F3
    IndexKeyMod(70, KeyF4, 0),  // F4
    IndexKeyMod(71, KeyF5, 0),  // F5
    IndexKeyMod(72, KeyF6, 0),  // F6
    IndexKeyMod(73, KeyF7, 0),  // F7
    IndexKeyMod(74, KeyF8, 0),  // F8
    IndexKeyMod(75, KeyF9, 0),  // F9
    IndexKeyMod(76, KeyHome, 0),  // HOME
    IndexKeyMod(77, KeyInsert, 0),  // IC
    IndexKeyMod(79, KeyLeft, 0),  // LEFT
    IndexKeyMod(81, KeyPageDown, 0),  // NPAGE
    IndexKeyMod(82, KeyPageUp, 0),  // PPAGE
    IndexKeyMod(83, KeyRight, 0),  // RIGHT
    IndexKeyMod(87, KeyUp, 0),  // UP
    IndexKeyMod(141, KeyCenter, 0),  // B2
    IndexKeyMod(148, KeyTab, ModShift),  // BTAB
    IndexKeyMod(164, KeyEnd, 0),  // END
    IndexKeyMod(165, KeyEnter, 0),  // ENTER
    IndexKeyMod(216, KeyF11, 0),  // F11
    IndexKeyMod(217, KeyF12, 0),  // F12
    IndexKeyMod(218, KeyF1, ModShift),  // S-F1
    IndexKeyMod(219, KeyF2, ModShift),  // S-F2
    IndexKeyMod(220, KeyF3, ModShift),  // S-F3
    IndexKeyMod(221, KeyF4, ModShift),  // S-F4
    IndexKeyMod(222, KeyF5, ModShift),  // S-F5
    IndexKeyMod(223, KeyF6, ModShift),  // S-F6
    IndexKeyMod(224, KeyF7, ModShift),  // S-F7
    IndexKeyMod(225, KeyF8, ModShift),  // S-F8
    IndexKeyMod(226, KeyF9, ModShift),  // S-F9
    IndexKeyMod(227, KeyF10, ModShift),  // S-F10
    IndexKeyMod(228, KeyF11, ModShift),  // S-F11
    IndexKeyMod(229, KeyF12, ModShift),  // S-F12
    IndexKeyMod(230, KeyF1, ModControl),  // C-F1
    IndexKeyMod(231, KeyF2, ModControl),  // C-F2
    IndexKeyMod(232, KeyF3, ModControl),  // C-F3
    IndexKeyMod(233, KeyF4, ModControl),  // C-F4
    IndexKeyMod(234, KeyF5, ModControl),  // C-F5
    IndexKeyMod(235, KeyF6, ModControl),  // C-F6
    IndexKeyMod(236, KeyF7, ModControl),  // C-F7
    IndexKeyMod(237, KeyF8, ModControl),  // C-F8
    IndexKeyMod(238, KeyF9, ModControl),  // C-F9
    IndexKeyMod(239, KeyF10, ModControl),  // C-F10
    IndexKeyMod(240, KeyF11, ModControl),  // C-F11
    IndexKeyMod(241, KeyF12, ModControl),  // C-F12
    IndexKeyMod(242, KeyF1, ModControl + ModShift),  // C-S-F1
    IndexKeyMod(243, KeyF2, ModControl + ModShift),  // C-S-F2
    IndexKeyMod(244, KeyF3, ModControl + ModShift),  // C-S-F3
    IndexKeyMod(245, KeyF4, ModControl + ModShift),  // C-S-F4
    IndexKeyMod(246, KeyF5, ModControl + ModShift),  // C-S-F5
    IndexKeyMod(247, KeyF6, ModControl + ModShift),  // C-S-F6
    IndexKeyMod(248, KeyF7, ModControl + ModShift),  // C-S-F7
    IndexKeyMod(249, KeyF8, ModControl + ModShift),  // C-S-F8
    IndexKeyMod(250, KeyF9, ModControl + ModShift),  // C-S-F9
    IndexKeyMod(251, KeyF10, ModControl + ModShift),  // C-S-F10
    IndexKeyMod(252, KeyF11, ModControl + ModShift),  // C-S-F11
    IndexKeyMod(253, KeyF12, ModControl + ModShift),  // C-S-F12
    IndexKeyMod(254, KeyF1, ModAlt),  // A-F1
    IndexKeyMod(255, KeyF2, ModAlt),  // A-F2
    IndexKeyMod(256, KeyF3, ModAlt),  // A-F3
    IndexKeyMod(257, KeyF4, ModAlt),  // A-F4
    IndexKeyMod(258, KeyF5, ModAlt),  // A-F5
    IndexKeyMod(259, KeyF6, ModAlt),  // A-F6
    IndexKeyMod(260, KeyF7, ModAlt),  // A-F7
    IndexKeyMod(261, KeyF8, ModAlt),  // A-F8
    IndexKeyMod(262, KeyF9, ModAlt),  // A-F9
    IndexKeyMod(263, KeyF10, ModAlt),  // A-F10
    IndexKeyMod(264, KeyF11, ModAlt),  // A-F11
    IndexKeyMod(265, KeyF12, ModAlt),  // A-F12
    IndexKeyMod(266, KeyF1, ModAlt + ModShift),  // A-S-F1
    IndexKeyMod(267, KeyF2, ModAlt + ModShift),  // A-S-F2
    IndexKeyMod(268, KeyF3, ModAlt + ModShift)  // A-S-F3
  ]

  /** The stems of the extended capability names. */
  const NameStems: seq<string> := ["kDC", "kDN", "kEND", "kHOM", "kIC", "kLFT", "kNXT", "kPRV", "kRIT", "kUP"]

  /** The key each stem means. */
  const StemKeys: seq<Byte> :=
    [KeyDelete, KeyDown, KeyEnd, KeyHome, KeyInsert, KeyLeft, KeyPageDown, KeyPageUp, KeyRight, KeyUp]

  /** The suffixes of every stem, in order: none, then the xterm modifier parameters 3 to 7. */
  const NameSuffixes: seq<string> := ["", "3", "4", "5", "6", "7"]

  /** How many suffixes each stem has. */
  const SuffixCount: nat := 6

  /**
   * The extended capabilities `load_terminfo` reads: for each stem in order,
   * one entry per suffix, suffix `i` giving modifier `i + 1`. A suffix is the
   * xterm modifier parameter and no suffix stands for 2 (shift), so the
   * modifier is always that parameter minus one.
   */
  function NameKeyModMap(): (m: seq<NameKeyMod>)
    ensures |m| == 60
  {
    seq(60, j requires 0 <= j < 60 =>
      NameKeyMod(NameStems[j / SuffixCount] + NameSuffixes[j % SuffixCount], StemKeys[j / SuffixCount],
                 (j % SuffixCount + 1) as Byte))
  }

  /** A name as the bytes `strcmp` compares. */
  function NameBytes(name: string): (b: seq<Byte>)
    ensures |b| == |name|
  {
    seq(|name|, i requires 0 <= i < |name| => (name[i] as int) % 256)
  }

  // ---------------------------------------------------------------------------
  // How a run ends
  // ---------------------------------------------------------------------------

  datatype ExitCode = ExitOk | ExitBad

  /**
   * `Completed`: the walk reached `epilogue` (the tables are dumped, exit 0).
   * `Stopped`: a `goto done` with the exit code set so far.
   * `AssertionFailure`: an `assert` of the driver or of `info_base_add_input` fails.
   */
  datatype Outcome = Completed | Stopped(code: ExitCode) | AssertionFailure

  /** One call of `info_base_add_input`: the string and the key and modifier it is filed under. */
  datatype Filing = Filing(text: seq<Byte>, key: Byte, mod: Byte)

  /**
   * What a walk does: the filings it makes, in order, and the outcome it
   * leaves the program with when it does not run to its end. The status a
   * filing returns is only printed, so what is filed depends on the file alone.
   */
  datatype Walk = Walk(filings: seq<Filing>, halt: Option<Outcome>)

  /** A walk that files `f`, then goes on as `rest`. */
  function FilingThen(f: Filing, rest: Walk): Walk
  {
    Walk([f] + rest.filings, rest.halt)
  }

  /** The walk `first`, then, unless it halted, the walk `second`. */
  function Then(first: Walk, second: Walk): Walk
  {
    if first.halt.Some? then first else Walk(first.filings + second.filings, second.halt)
  }

  /** The outcome of a whole run. */
  function OutcomeOf(w: Walk): Outcome
  {
    if w.halt.Some? then w.halt.value else Completed
  }

  /** The state after `info_base_add_input` has filed `filings` in order from `st`. */
  function Replay(st: BaseState, filings: seq<Filing>, limit: nat): (r: BaseState)
    requires |st.keys| == KeyTableSize
    ensures |r.keys| == KeyTableSize
    decreases |filings|
  {
    if filings == [] then st
    else
      var last := filings[|filings| - 1];
      Step(Replay(st, filings[..|filings| - 1], limit), last.text, last.key, last.mod, limit).1
  }

  // ---------------------------------------------------------------------------
  // The legacy walk
  // ---------------------------------------------------------------------------

  /** The NUL-terminated string at `position`, without its NUL; none when no NUL follows. */
  function StringAt(content: seq<Byte>, position: nat): Option<seq<Byte>>
  {
    var n := NulSkip(content, position);
    if n == 0 then None else Some(content[position..position + n - 1])
  }

  /** What the legacy walk finds for one capability. */
  datatype Lookup = Skipped | Unterminated | Found(text: seq<Byte>)

  /**
   * The checks of the legacy loop for one map entry: the index within the
   * header's count and the file, a non-negative string index within the
   * table size, and a NUL-terminated string at the string's position.
   */
  function LegacyLookup(content: seq<Byte>, h: Header, indexTable: nat, stringTable: nat, m: IndexKeyMod): Lookup
  {
    if h.stringTableEntries <= m.index then Skipped
    else
      var position := W(indexTable + 2 * m.index);
      if |content| < position + 2 then Skipped
      else
        var stringIndex := I16At(content, position);
        if stringIndex < 0 || h.stringTableSize <= stringIndex then Skipped
        else
          match StringAt(content, W(stringTable + stringIndex))
          case None => Unterminated
          case Some(text) => Found(text)
  }

  /**
   * The legacy loop from map entry `i` on: a skipped entry files nothing, an
   * unterminated string ends the program with exit code 0, a string failing
   * the assertions of `info_base_add_input` aborts it.
   */
  function LegacyFrom(content: seq<Byte>, h: Header, indexTable: nat, stringTable: nat, i: nat): Walk
    requires i <= |IndexKeyModMap|
    decreases |IndexKeyModMap| - i
  {
    if i == |IndexKeyModMap| then Walk([], None)
    else
      var m := IndexKeyModMap[i];
      match LegacyLookup(content, h, indexTable, stringTable, m)
      case Skipped => LegacyFrom(content, h, indexTable, stringTable, i + 1)
      case Unterminated => Walk([], Some(Stopped(ExitOk)))
      case Found(text) =>
        if !AssertsHold(text) then Walk([], Some(AssertionFailure))
        else FilingThen(Filing(text, m.key, m.mod), LegacyFrom(content, h, indexTable, stringTable, i + 1))
  }

  // ---------------------------------------------------------------------------
  // The extended walk
  // ---------------------------------------------------------------------------

  /** Where the `count` NUL-terminated strings from `position` end (a missing NUL skips nothing). */
  function SkipStrings(content: seq<Byte>, position: nat, count: nat): nat
    decreases count
  {
    if count == 0 then position
    else SkipStrings(content, position + NulSkip(content, position), count - 1)
  }

  /** The inner loop of the extended walk from name map entry `j` on: every entry named `name` files `text`. */
  function NamesFrom(text: seq<Byte>, name: seq<Byte>, j: nat): Walk
    requires j <= |NameKeyModMap()|
    decreases |NameKeyModMap()| - j
  {
    if j == |NameKeyModMap()| then Walk([], None)
    else
      var m := NameKeyModMap()[j];
      if NameBytes(m.name) != name then NamesFrom(text, name, j + 1)
      else if !AssertsHold(text) then Walk([], Some(AssertionFailure))
      else FilingThen(Filing(text, m.key, m.mod), NamesFrom(text, name, j + 1))
  }

  /** An extended string capability: its value and its name, both without the NUL. */
  datatype Capability = Capability(text: seq<Byte>, name: seq<Byte>)

  /**
   * What the extended loop reads: the capabilities in order, and whether the
   * value strings ran out (no NUL) before `count` of them or the names did.
   */
  datatype ExtendedStrings = ExtendedStrings(capabilities: seq<Capability>, truncated: bool)

  /**
   * The extended loop's reading from string `k` of `count` on, with the string
   * and name cursors at `strings` and `names`: an unterminated value string
   * truncates the section, an unterminated name ends it quietly.
   */
  function ExtendedStringsFrom(content: seq<Byte>, k: nat, count: int, strings: nat, names: nat): ExtendedStrings
    decreases count - k
  {
    if count <= k then ExtendedStrings([], false)
    else
      match StringAt(content, strings)
      case None => ExtendedStrings([], true)
      case Some(text) =>
        match StringAt(content, names)
        case None => ExtendedStrings([], false)
        case Some(name) =>
          Prepend(Capability(text, name),
                  ExtendedStringsFrom(content, k + 1, count, strings + |text| + 1, names + |name| + 1))
  }

  /** A capability read before the rest. */
  function Prepend(c: Capability, rest: ExtendedStrings): ExtendedStrings
  {
    ExtendedStrings([c] + rest.capabilities, rest.truncated)
  }

  /** Filing capabilities in order, each under every map entry of its name. */
  function FileCapabilities(capabilities: seq<Capability>): Walk
  {
    if capabilities == [] then Walk([], None)
    else Then(NamesFrom(capabilities[0].text, capabilities[0].name, 0), FileCapabilities(capabilities[1..]))
  }

  /**
   * The extended loop from string `k` on: the capabilities read are filed in
   * order; a truncated section then exits with an error.
   */
  function ExtendedFrom(content: seq<Byte>, k: nat, count: int, strings: nat, names: nat): Walk
  {
    var read := ExtendedStringsFrom(content, k, count, strings, names);
    Then(FileCapabilities(read.capabilities), Walk([], if read.truncated then Some(Stopped(ExitBad)) else None))
  }

  /** Everything after the legacy walk, which ended its string table at `legacyEnd`. */
  function ExtendedPhase(content: seq<Byte>, size: NumberSize, legacyEnd: nat): Walk
  {
    if legacyEnd == 0 then Walk([], Some(AssertionFailure))
    else
      var position := AlignW(legacyEnd);
      if |content| <= position then Walk([], None)
      else if |content| < position + ExtHeaderBytes then Walk([], Some(Stopped(ExitBad)))
      else
        var e := ExtHeaderOf(content, position);
        var strings := ExtStringTableOffset(position, e, size);
        ExtendedSection(content, e.stringsCount, strings,
                        SkipStrings(content, strings, W(e.stringsCount + e.booleansCount + e.numbersCount)))
  }

  /**
   * The extended section once the cursors are placed: the value strings at
   * `strings`, the names at `names`, after the value strings, the booleans
   * and the numbers, each counted as one NUL-terminated string. A names
   * cursor of `-1` trips the driver's assertion.
   */
  function ExtendedSection(content: seq<Byte>, count: int, strings: nat, names: nat): Walk
  {
    if names == SizeModulus - 1 then Walk([], Some(AssertionFailure))
    else ExtendedFrom(content, 0, count, strings, names)
  }

  /** Where the legacy string table ends. */
  function LegacyEnd(h: Header, size: NumberSize): nat
  {
    W(StringTableOffset(h, IndexTableOffset(h, size)) + h.stringTableSize)
  }

  /** Everything after the header: the legacy walk, then the extended phase. */
  function TablesPhase(content: seq<Byte>, h: Header, size: NumberSize): Walk
  {
    var indexTable := IndexTableOffset(h, size);
    Then(LegacyFrom(content, h, indexTable, StringTableOffset(h, indexTable), 0),
         ExtendedPhase(content, size, LegacyEnd(h, size)))
  }

  /** The whole walk over `content`. */
  function LoadWalk(content: seq<Byte>): Walk
  {
    if |content| < HeaderBytes then Walk([], Some(Stopped(ExitBad)))
    else
      var h := HeaderOf(content);
      match NumberWidth(h.magic)
      case None => Walk([], Some(Stopped(ExitBad)))
      case Some(size) => TablesPhase(content, h, size)
  }

  /** The whole load of `content`: how it ends, and the base it fills from a freshly initialised one. */
  function LoadSpec(content: seq<Byte>, limit: nat): (Outcome, BaseState)
  {
    var w := LoadWalk(content);
    (OutcomeOf(w), Replay(InitialBase(), w.filings, limit))
  }

  // ---------------------------------------------------------------------------
  // The driver
  // ---------------------------------------------------------------------------

  /**
   * `main` from the moment the file is loaded: the header, the legacy walk
   * and the extended walk, filing capabilities in a new base.
   */
  method Load(content: seq<Byte>, limit: nat) returns (outcome: Outcome, base: InfoBase)
    ensures base.Valid()
    ensures (outcome, base.State()) == LoadSpec(content, limit)
  {
    base := new InfoBase();
    var header := ReadHeader(content);
    if header.None? {
      return Stopped(ExitBad), base;
    }
    var h := header.value;
    var size: NumberSize;
    if h.magic == LegacyMagic {
      size := TwoBytes;
    } else if h.magic == ExtendedMagic {
      size := FourBytes;
    } else {
      return Stopped(ExitBad), base;
    }
    var halted := LoadTables(base, content, h, size, limit);
    outcome := if halted.Some? then halted.value else Completed;
  }

  /** The legacy walk, then the extended phase, filing in `base`. */
  method LoadTables(base: InfoBase, content: seq<Byte>, h: Header, size: NumberSize, limit: nat)
    returns (halted: Option<Outcome>)
    requires base.Valid()
    modifies base.strings, base.keyTable
    ensures base.Valid()
    ensures halted == TablesPhase(content, h, size).halt
    ensures base.State() == Replay(old(base.State()), TablesPhase(content, h, size).filings, limit)
  {
    var indexTable := IndexTableOffset(h, size);
    IndexTableOffsetEven(h, size);
    var stringTable := StringTableOffset(h, indexTable);
    halted := LoadLegacy(base, content, h, indexTable, stringTable, limit);
    if halted.Some? {
      return;
    }
    ghost var legacy := LegacyFrom(content, h, indexTable, stringTable, 0).filings;
    halted := LoadExtended(base, content, size, LegacyEnd(h, size), limit);
    ReplayAppend(old(base.State()), legacy, ExtendedPhase(content, size, LegacyEnd(h, size)).filings, limit);
  }


  /** The six header words, when the file holds them. */
  method ReadHeader(content: seq<Byte>) returns (h: Option<Header>)
    ensures h == if |content| < HeaderBytes then None else Some(HeaderOf(content))
  {
    var words := new U16[6];
    var bytes := Read16Le(content, 0, words, 6);
    if |content| < bytes {
      return None;
    }
    h := Some(Header(Int16(words[0]), Int16(words[1]), Int16(words[2]),
                     Int16(words[3]), Int16(words[4]), Int16(words[5])));
  }

  /** The five extended header words at `position`, when the file holds them. */
  method ReadExtHeader(content: seq<Byte>, position: nat) returns (e: Option<ExtHeader>)
    ensures e == if |content| < position + ExtHeaderBytes then None else Some(ExtHeaderOf(content, position))
  {
    var words := new U16[5];
    var bytes := Read16Le(content, position, words, 5);
    if |content| < position + bytes {
      return None;
    }
    e := Some(ExtHeader(Int16(words[0]), Int16(words[1]), Int16(words[2]), Int16(words[3]), Int16(words[4])));
  }

  /** One legacy capability: the index entry and the string it points to. */
  method LookupLegacy(content: seq<Byte>, h: Header, indexTable: nat, stringTable: nat, m: IndexKeyMod)
    returns (l: Lookup)
    ensures l == LegacyLookup(content, h, indexTable, stringTable, m)
  {
    if h.stringTableEntries <= m.index {
      return Skipped;
    }
    var position := W(indexTable + 2 * m.index);
    var word := new U16[1];
    word[0] := 0xffff;
    var bytes := Read16Le(content, position, word, 1);
    if |content| < position + bytes {
      return Skipped;
    }
    var stringIndex := Int16(word[0]);
    if stringIndex < 0 {
      return Skipped;
    }
    if h.stringTableSize <= stringIndex {
      return Skipped;
    }
    var text := ReadString(content, W(stringTable + stringIndex));
    if text.None? {
      return Unterminated;
    }
    return Found(text.value);
  }

  /** The string at `position`, found with `basics_memory_skip_string`. */
  method ReadString(content: seq<Byte>, position: nat) returns (text: Option<seq<Byte>>)
    ensures text == StringAt(content, position)
  {
    var n := SkipString(content, position);
    if n == 0 {
      return None;
    }
    return Some(content[position..position + n - 1]);
  }
  /** The legacy loop over `IndexKeyModMap`. */
  method LoadLegacy(base: InfoBase, content: seq<Byte>, h: Header, indexTable: nat, stringTable: nat, limit: nat)
    returns (halted: Option<Outcome>)
    requires base.Valid()
    modifies base.strings, base.keyTable
    ensures base.Valid()
    ensures halted == LegacyFrom(content, h, indexTable, stringTable, 0).halt
    ensures base.State() == Replay(old(base.State()), LegacyFrom(content, h, indexTable, stringTable, 0).filings, limit)
  {
    halted := LegacyLoop(base, content, h, indexTable, stringTable, 0, limit);
  }

  /** The legacy loop from map entry `from` on. */
  method LegacyLoop(base: InfoBase, content: seq<Byte>, h: Header, indexTable: nat, stringTable: nat, from: nat,
                    limit: nat)
    returns (halted: Option<Outcome>)
    requires base.Valid() && from <= |IndexKeyModMap|
    modifies base.strings, base.keyTable
    ensures base.Valid()
    ensures halted == LegacyFrom(content, h, indexTable, stringTable, from).halt
    ensures base.State() == Replay(old(base.State()), LegacyFrom(content, h, indexTable, stringTable, from).filings, limit)
  {
    ghost var start := base.State();
    ghost var filed: seq<Filing> := [];
    assert filed + [] == filed;
    var i := from;
    while i < |IndexKeyModMap|
      invariant from <= i <= |IndexKeyModMap| && base.Valid()
      invariant LegacyFrom(content, h, indexTable, stringTable, from) ==
                Then(Walk(filed, None), LegacyFrom(content, h, indexTable, stringTable, i))
      invariant base.State() == Replay(start, filed, limit)
    {
      halted, filed := LegacyEntry(base, content, h, indexTable, stringTable, i, limit, start, filed);
      if halted.Some? {
        return;
      }
      i := i + 1;
    }
    ThenNothing(filed, None);
    return None;
  }

  /**
   * One pass of the legacy loop, for map entry `i`, after `filed` has been
   * filed since `start`: whether it leaves the program, and the filings so far.
   */
  method LegacyEntry(base: InfoBase, content: seq<Byte>, h: Header, indexTable: nat, stringTable: nat, i: nat,
                     limit: nat, ghost start: BaseState, ghost filed: seq<Filing>)
    returns (halted: Option<Outcome>, ghost filedNext: seq<Filing>)
    requires i < |IndexKeyModMap| && base.Valid() && |start.keys| == KeyTableSize
    requires base.State() == Replay(start, filed, limit)
    modifies base.strings, base.keyTable
    ensures base.Valid()
    ensures base.State() == Replay(start, filedNext, limit)
    ensures Then(Walk(filed, None), LegacyFrom(content, h, indexTable, stringTable, i)) ==
            if halted.Some? then Walk(filedNext, halted)
            else Then(Walk(filedNext, None), LegacyFrom(content, h, indexTable, stringTable, i + 1))
  {
    var m := IndexKeyModMap[i];
    var l := LookupLegacy(content, h, indexTable, stringTable, m);
    match l {
      case Skipped =>
        return None, filed;
      case Unterminated =>
        ThenNothing(filed, Some(Stopped(ExitOk)));
        return Some(Stopped(ExitOk)), filed;
      case Found(text) =>
        if !AssertsHold(text) {
          ThenNothing(filed, Some(AssertionFailure));
          return Some(AssertionFailure), filed;
        }
        var status := base.AddInput(text, m.key, m.mod, limit);
        ReplaySnoc(start, filed, Filing(text, m.key, m.mod), limit);
        ThenFiling(filed, Filing(text, m.key, m.mod), LegacyFrom(content, h, indexTable, stringTable, i + 1));
        return None, filed + [Filing(text, m.key, m.mod)];
    }
  }

  /** Everything after the legacy walk: the extended header, the skip to the names, the extended loop. */
  method LoadExtended(base: InfoBase, content: seq<Byte>, size: NumberSize, legacyEnd: nat, limit: nat)
    returns (halted: Option<Outcome>)
    requires base.Valid()
    modifies base.strings, base.keyTable
    ensures base.Valid()
    ensures halted == ExtendedPhase(content, size, legacyEnd).halt
    ensures base.State() == Replay(old(base.State()), ExtendedPhase(content, size, legacyEnd).filings, limit)
  {
    if legacyEnd == 0 {
      return Some(AssertionFailure);
    }
    var position := AlignW(legacyEnd);
    if |content| <= position {
      return None;
    }
    var header := ReadExtHeader(content, position);
    if header.None? {
      return Some(Stopped(ExitBad));
    }
    var e := header.value;
    var strings := ExtStringTableOffset(position, e, size);
    ExtStringTableOffsetEven(position, e, size);
    var names := SkipStringsLoop(content, strings, W(e.stringsCount + e.booleansCount + e.numbersCount));
    if names == SizeModulus - 1 {
      return Some(AssertionFailure);
    }
    halted := WalkExtended(base, content, e.stringsCount, strings, names, limit);
  }

  /** The skip over the strings that precede the capability names. */
  method SkipStringsLoop(content: seq<Byte>, position: nat, count: nat) returns (i: nat)
    ensures i == SkipStrings(content, position, count)
  {
    i := position;
    var j := 0;
    while j < count
      invariant j <= count
      invariant SkipStrings(content, i, count - j) == SkipStrings(content, position, count)
    {
      var n := SkipString(content, i);
      i := i + n;
      j := j + 1;
    }
  }

  /** The extended loop over the value strings and their names. */
  method WalkExtended(base: InfoBase, content: seq<Byte>, count: int, strings: nat, names: nat, limit: nat)
    returns (halted: Option<Outcome>)
    requires base.Valid()
    modifies base.strings, base.keyTable
    ensures base.Valid()
    ensures halted == ExtendedFrom(content, 0, count, strings, names).halt
    ensures base.State() == Replay(old(base.State()), ExtendedFrom(content, 0, count, strings, names).filings, limit)
  {
    ghost var start := base.State();
    ghost var filed: seq<Filing> := [];
    assert filed + [] == filed;
    var k := 0;
    var stringCursor: nat, nameCursor: nat := strings, names;
    while k < count
      invariant base.Valid()
      invariant ExtendedFrom(content, 0, count, strings, names) ==
                Then(Walk(filed, None), ExtendedFrom(content, k, count, stringCursor, nameCursor))
      invariant base.State() == Replay(start, filed, limit)
      decreases count - k
    {
      var next, truncated, nextStrings, nextNames := ReadCapability(content, k, count, stringCursor, nameCursor);
      if next.None? {
        ExtendedFromEnd(content, k, count, stringCursor, nameCursor, truncated);
        ThenNothing(filed, if truncated then Some(Stopped(ExitBad)) else None);
        return if truncated then Some(Stopped(ExitBad)) else None;
      }
      ExtendedFromStep(content, k, count, stringCursor, nameCursor, next.value, nextStrings, nextNames);
      ghost var before := filed;
      halted, filed := MatchNames(base, next.value.text, next.value.name, limit, start, filed);
      ThenThen(before, NamesFrom(next.value.text, next.value.name, 0),
               ExtendedFrom(content, k + 1, count, nextStrings, nextNames));
      if halted.Some? {
        return;
      }
      k, stringCursor, nameCursor := k + 1, nextStrings, nextNames;
    }
    ExtendedFromEnd(content, k, count, stringCursor, nameCursor, false);
    ThenNothing(filed, None);
    return None;
  }

  /**
   * One read of the extended loop, for string `k`: the value string and the
   * name at the cursors, without the NUL, or `truncated` when the value
   * string has none, or nothing when the name has none.
   */
  method ReadCapability(content: seq<Byte>, k: nat, count: int, strings: nat, names: nat)
    returns (next: Option<Capability>, truncated: bool, strings': nat, names': nat)
    requires k < count
    ensures truncated ==> next.None?
    ensures ExtendedStringsFrom(content, k, count, strings, names) ==
      if next.Some? then Prepend(next.value, ExtendedStringsFrom(content, k + 1, count, strings', names'))
      else ExtendedStrings([], truncated)
  {
    var text := ReadString(content, strings);
    if text.None? {
      return None, true, strings, names;
    }
    var name := ReadString(content, names);
    if name.None? {
      return None, false, strings, names;
    }
    return Some(Capability(text.value, name.value)), false, strings + |text.value| + 1, names + |name.value| + 1;
  }


  /**
   * The inner loop of the extended walk, after `filed` has been filed since
   * `start`: every map entry named `name` files `text`.
   */
  method MatchNames(base: InfoBase, text: seq<Byte>, name: seq<Byte>, limit: nat,
                    ghost start: BaseState, ghost filed: seq<Filing>)
    returns (halted: Option<Outcome>, ghost filedNext: seq<Filing>)
    requires base.Valid() && |start.keys| == KeyTableSize
    requires base.State() == Replay(start, filed, limit)
    modifies base.strings, base.keyTable
    ensures base.Valid()
    ensures halted == NamesFrom(text, name, 0).halt
    ensures filedNext == filed + NamesFrom(text, name, 0).filings
    ensures base.State() == Replay(start, filedNext, limit)
  {
    filedNext := filed;
    assert filed + [] == filed;
    var j := 0;
    while j < |NameKeyModMap()|
      invariant j <= |NameKeyModMap()| && base.Valid()
      invariant Then(Walk(filed, None), NamesFrom(text, name, 0)) == Then(Walk(filedNext, None), NamesFrom(text, name, j))
      invariant base.State() == Replay(start, filedNext, limit)
    {
      halted, filedNext := MatchEntry(base, text, name, j, limit, start, filedNext);
      if halted.Some? {
        return;
      }
      j := j + 1;
    }
    ThenNothing(filedNext, None);
    return None, filedNext;
  }

  /** One pass of the inner loop, for name map entry `j`. */
  method MatchEntry(base: InfoBase, text: seq<Byte>, name: seq<Byte>, j: nat, limit: nat,
                    ghost start: BaseState, ghost filed: seq<Filing>)
    returns (halted: Option<Outcome>, ghost filedNext: seq<Filing>)
    requires j < |NameKeyModMap()| && base.Valid() && |start.keys| == KeyTableSize
    requires base.State() == Replay(start, filed, limit)
    modifies base.strings, base.keyTable
    ensures base.Valid()
    ensures base.State() == Replay(start, filedNext, limit)
    ensures Then(Walk(filed, None), NamesFrom(text, name, j)) ==
            if halted.Some? then Walk(filedNext, halted)
            else Then(Walk(filedNext, None), NamesFrom(text, name, j + 1))
  {
    var m := NameKeyModMap()[j];
    if NameBytes(m.name) != name {
      return None, filed;
    }
    if !AssertsHold(text) {
      ThenNothing(filed, Some(AssertionFailure));
      return Some(AssertionFailure), filed;
    }
    var status := base.AddInput(text, m.key, m.mod, limit);
    ReplaySnoc(start, filed, Filing(text, m.key, m.mod), limit);
    ThenFiling(filed, Filing(text, m.key, m.mod), NamesFrom(text, name, j + 1));
    return None, filed + [Filing(text, m.key, m.mod)];
  }

  // ---------------------------------------------------------------------------
  // Walks and replays
  // ---------------------------------------------------------------------------

  /** Filing one more string is one more step. */
  lemma ReplaySnoc(st: BaseState, filings: seq<Filing>, f: Filing, limit: nat)
    requires |st.keys| == KeyTableSize
    ensures Replay(st, filings + [f], limit) == Step(Replay(st, filings, limit), f.text, f.key, f.mod, limit).1
  {
    assert (filings + [f])[..|filings|] == filings;
  }

  /** Filing two sequences one after the other is filing their concatenation. */
  lemma {:induction false} ReplayAppend(st: BaseState, first: seq<Filing>, second: seq<Filing>, limit: nat)
    requires |st.keys| == KeyTableSize
    ensures Replay(st, first + second, limit) == Replay(Replay(st, first, limit), second, limit)
    decreases |second|
  {
    if second == [] {
      assert first + second == first;
    } else {
      var init, last := second[..|second| - 1], second[|second| - 1];
      assert first + second == (first + init) + [last];
      assert second == init + [last];
      ReplayAppend(st, first, init, limit);
      ReplaySnoc(st, first + init, last, limit);
      ReplaySnoc(Replay(st, first, limit), init, last, limit);
    }
  }

  /** A filing after the ones made so far. */
  lemma ThenFiling(filed: seq<Filing>, f: Filing, rest: Walk)
    ensures Then(Walk(filed, None), FilingThen(f, rest)) == Then(Walk(filed + [f], None), rest)
  {
    assert filed + ([f] + rest.filings) == (filed + [f]) + rest.filings;
  }

  /** The filings made so far, then an end. */
  lemma ThenNothing(filed: seq<Filing>, halt: Option<Outcome>)
    ensures Then(Walk(filed, None), Walk([], halt)) == Walk(filed, halt)
  {
    assert filed + [] == filed;
  }

  /** A walk after the filings made so far, then the rest. */
  lemma ThenThen(filed: seq<Filing>, w: Walk, rest: Walk)
    ensures Then(Walk(filed, None), Then(w, rest)) ==
            if w.halt.Some? then Walk(filed + w.filings, w.halt) else Then(Walk(filed + w.filings, None), rest)
  {
    assert filed + (w.filings + rest.filings) == (filed + w.filings) + rest.filings;
  }

  /** `Then` is associative. */
  lemma ThenAssociative(a: Walk, b: Walk, c: Walk)
    ensures Then(Then(a, b), c) == Then(a, Then(b, c))
  {
    assert (a.filings + b.filings) + c.filings == a.filings + (b.filings + c.filings);
  }

  /** The extended walk once a capability has been read: its names are filed, then the rest follows. */
  lemma ExtendedFromStep(content: seq<Byte>, k: nat, count: int, strings: nat, names: nat,
                         c: Capability, nextStrings: nat, nextNames: nat)
    requires ExtendedStringsFrom(content, k, count, strings, names) ==
             Prepend(c, ExtendedStringsFrom(content, k + 1, count, nextStrings, nextNames))
    ensures ExtendedFrom(content, k, count, strings, names) ==
            Then(NamesFrom(c.text, c.name, 0), ExtendedFrom(content, k + 1, count, nextStrings, nextNames))
  {
    var rest := ExtendedStringsFrom(content, k + 1, count, nextStrings, nextNames);
    var capabilities := [c] + rest.capabilities;
    assert capabilities[0] == c && capabilities[1..] == rest.capabilities;
    ThenAssociative(NamesFrom(c.text, c.name, 0), FileCapabilities(rest.capabilities),
                    Walk([], if rest.truncated then Some(Stopped(ExitBad)) else None));
  }

  /** The extended walk once nothing more can be read: a truncation exits with an error. */
  lemma ExtendedFromEnd(content: seq<Byte>, k: nat, count: int, strings: nat, names: nat, truncated: bool)
    requires ExtendedStringsFrom(content, k, count, strings, names) == ExtendedStrings([], truncated)
    ensures ExtendedFrom(content, k, count, strings, names) ==
            Walk([], if truncated then Some(Stopped(ExitBad)) else None)
  {
  }

  // ---------------------------------------------------------------------------
  // Offsets
  // ---------------------------------------------------------------------------

  /** Reducing modulo an even modulus keeps parity. */
  lemma ModParity(x: int, m: nat)
    requires 0 < m && m % 2 == 0
    ensures (x % m) % 2 == x % 2
  {
    var q, r, h := x / m, x % m, m / 2;
    assert x == q * m + r;
    assert q * m == 2 * (q * h) by {
      assert m == 2 * h;
    }
  }

  /** Reducing modulo 2^64 keeps parity. */
  lemma WParity(x: int)
    ensures W(x) % 2 == x % 2
  {
    ModParity(x, SizeModulus);
  }

  /** A value below 2^64 is its own `size_t` conversion. */
  lemma WSmall(x: int)
    requires 0 <= x < SizeModulus
    ensures W(x) == x
  {
  }

  /** The `size_t` sum of an even value and a multiple of two is even. */
  lemma WEvenSum(a: int, k: int, c: int)
    requires a % 2 == 0 && c == 2 * k
    ensures W(a + c) % 2 == 0
  {
    WParity(a + c);
  }

  /** The aligned value is even, and is `Align` whenever the sum does not wrap. */
  lemma AlignWEven(value: nat)
    ensures AlignW(value) % 2 == 0
    ensures value + 1 < SizeModulus ==> AlignW(value) == Align(value, 2)
  {
  }

  /** Adding two- or four-byte numbers to an aligned offset keeps it even. */
  lemma NumbersEndEven(booleansEnd: nat, size: NumberSize, numbersCount: int)
    ensures W(AlignW(booleansEnd) + NumbersBytes(size, numbersCount)) % 2 == 0
  {
    AlignWEven(booleansEnd);
    match size
    case TwoBytes =>
      WEvenSum(AlignW(booleansEnd), numbersCount, NumbersBytes(size, numbersCount));
    case FourBytes =>
      WEvenSum(AlignW(booleansEnd), 2 * numbersCount, NumbersBytes(size, numbersCount));
  }

  /** The C assertion `index_table_offset % 2 == 0` holds for every header. */
  lemma IndexTableOffsetEven(h: Header, size: NumberSize)
    ensures IndexTableOffset(h, size) % 2 == 0
  {
    NumbersEndEven(W(W(HeaderBytes + h.namesSize) + h.booleansCount), size, h.numbersCount);
  }

  /**
   * The extended string table always starts at an even offset, so the C
   * assertion that it is not `(size_t) -1` holds.
   */
  lemma ExtStringTableOffsetEven(position: nat, e: ExtHeader, size: NumberSize)
    ensures ExtStringTableOffset(position, e, size) % 2 == 0
    ensures ExtStringTableOffset(position, e, size) != SizeModulus - 1
  {
    NumbersEndEven(W(W(position + ExtHeaderBytes) + e.booleansCount), size, e.numbersCount);
    WEvenSum(W(AlignW(W(W(position + ExtHeaderBytes) + e.booleansCount)) + NumbersBytes(size, e.numbersCount)),
             e.stringTableEntries, 2 * e.stringTableEntries);
  }

  /** The string table offset without wrap-around. */
  lemma StringTableOffsetPlain(h: Header, indexTable: nat)
    requires 0 <= h.stringTableEntries && indexTable < 0x10_0000
    ensures StringTableOffset(h, indexTable) == indexTable + 2 * h.stringTableEntries
  {
    WSmall(indexTable + 2 * h.stringTableEntries);
  }

  /** The aligned end of the names and booleans without wrap-around. */
  lemma BooleansEndPlain(start: nat, namesSize: I16, booleansCount: I16)
    requires start < 0x10_0000 && 0 <= namesSize && 0 <= booleansCount
    ensures AlignW(W(W(start + namesSize) + booleansCount)) == Align(start + namesSize + booleansCount, 2)
  {
    WSmall(start + namesSize);
    WSmall(start + namesSize + booleansCount);
    AlignWEven(start + namesSize + booleansCount);
  }

  /** Adding a non-negative count of numbers does not wrap. */
  lemma NumbersEndPlain(start: nat, size: NumberSize, numbersCount: I16)
    requires start < 0x10_0000 && 0 <= numbersCount
    ensures W(start + NumbersBytes(size, numbersCount)) == start + NumbersBytes(size, numbersCount)
  {
    WSmall(start + NumbersBytes(size, numbersCount));
  }

  /** The index table offset without wrap-around. */
  lemma IndexTableOffsetPlain(h: Header, size: NumberSize)
    requires 0 <= h.namesSize && 0 <= h.booleansCount && 0 <= h.numbersCount
    ensures IndexTableOffset(h, size) == Align(HeaderBytes + h.namesSize + h.booleansCount, 2) + NumbersBytes(size, h.numbersCount)
  {
    BooleansEndPlain(HeaderBytes, h.namesSize, h.booleansCount);
    NumbersEndPlain(AlignW(W(W(HeaderBytes + h.namesSize) + h.booleansCount)), size, h.numbersCount);
    assert IndexTableOffset(h, size) == W(AlignW(W(W(HeaderBytes + h.namesSize) + h.booleansCount)) + NumbersBytes(size, h.numbersCount));
    assert IndexTableOffset(h, size) == AlignW(W(W(HeaderBytes + h.namesSize) + h.booleansCount)) + NumbersBytes(size, h.numbersCount);
  }

  /**
   * With no negative count in the header, no offset wraps: the index table
   * follows the header, the names and the booleans aligned to two bytes, and
   * the numbers; the string table follows the index.
   */
  lemma PlainOffsets(h: Header, size: NumberSize)
    requires 0 <= h.namesSize && 0 <= h.booleansCount && 0 <= h.numbersCount && 0 <= h.stringTableEntries
    ensures IndexTableOffset(h, size) == Align(HeaderBytes + h.namesSize + h.booleansCount, 2) + NumbersBytes(size, h.numbersCount)
    ensures StringTableOffset(h, IndexTableOffset(h, size)) == IndexTableOffset(h, size) + 2 * h.stringTableEntries
  {
    IndexTableOffsetPlain(h, size);
    StringTableOffsetPlain(h, IndexTableOffset(h, size));
  }
}
