/**
 * Properties of the driver of `load_terminfo.c`, stated on the walk and
 * replay functions that specify `Loader.Load`: how a run can end, what every
 * call of `info_base_add_input` receives, and the invariant the base keeps.
 */
module LoaderFacts {
  import opened Basics
  import opened RecordStore
  import opened Classifier
  import opened Loader

  // ---------------------------------------------------------------------------
  // Early exits
  // ---------------------------------------------------------------------------

  /** A file shorter than the header exits with an error and files nothing. */
  lemma ShortFileExitsBad(content: seq<Byte>, limit: nat)
    requires |content| < HeaderBytes
    ensures LoadSpec(content, limit) == (Stopped(ExitBad), InitialBase())
  {
  }

  /** A magic number that is neither the legacy nor the extended-number one exits with an error. */
  lemma UnknownMagicExitsBad(content: seq<Byte>, limit: nat)
    requires HeaderBytes <= |content|
    requires HeaderOf(content).magic != LegacyMagic && HeaderOf(content).magic != ExtendedMagic
    ensures LoadSpec(content, limit) == (Stopped(ExitBad), InitialBase())
  {
  }

  /** No extended section is read when the aligned end of the legacy strings is at or past the end of the file. */
  lemma NoExtendedSection(content: seq<Byte>, size: NumberSize, legacyEnd: nat)
    requires legacyEnd != 0 && |content| <= AlignW(legacyEnd)
    ensures ExtendedPhase(content, size, legacyEnd) == Walk([], None)
  {
  }

  // ---------------------------------------------------------------------------
  // The invariant of the base
  // ---------------------------------------------------------------------------

  /** Filing any sequence of strings keeps the invariant of the base. */
  lemma {:induction false} ReplayKeepsInvariant(st: BaseState, filings: seq<Filing>, limit: nat)
    requires Invariant(st)
    ensures Invariant(Replay(st, filings, limit))
    decreases |filings|
  {
    if filings != [] {
      var init, last := filings[..|filings| - 1], filings[|filings| - 1];
      ReplayKeepsInvariant(st, init, limit);
      StepPreservesInvariant(Replay(st, init, limit), last.text, last.key, last.mod, limit);
    }
  }

  /** Whatever the file, the base `main` fills keeps its invariant. */
  lemma LoadKeepsInvariant(content: seq<Byte>, limit: nat)
    ensures Invariant(LoadSpec(content, limit).1)
  {
    InitialInvariant();
    ReplayKeepsInvariant(InitialBase(), LoadWalk(content).filings, limit);
  }

  // ---------------------------------------------------------------------------
  // What `info_base_add_input` receives
  // ---------------------------------------------------------------------------

  /** Every string a walk files passes the assertions of `info_base_add_input`. */
  predicate Admissible(w: Walk)
  {
    forall f :: f in w.filings ==> AssertsHold(f.text)
  }

  lemma ThenAdmissible(first: Walk, second: Walk)
    requires Admissible(first) && Admissible(second)
    ensures Admissible(Then(first, second))
  {
    if first.halt.None? {
      forall f | f in first.filings + second.filings
        ensures AssertsHold(f.text)
      {
        if f !in first.filings {
          assert f in second.filings;
        }
      }
    }
  }

  /**
   * One entry of the legacy loop: it is skipped, it ends the walk with
   * nothing filed, or it files one string that passes the assertions.
   */
  lemma LegacyFromStep(content: seq<Byte>, h: Header, indexTable: nat, stringTable: nat, i: nat)
    requires i < |IndexKeyModMap|
    ensures var w := LegacyFrom(content, h, indexTable, stringTable, i);
            var rest := LegacyFrom(content, h, indexTable, stringTable, i + 1);
            w == rest ||
            (w.filings == [] && w.halt in {Some(Stopped(ExitOk)), Some(AssertionFailure)}) ||
            (w.filings != [] && AssertsHold(w.filings[0].text) && w.filings[1..] == rest.filings && w.halt == rest.halt)
  {
    var m := IndexKeyModMap[i];
    var rest := LegacyFrom(content, h, indexTable, stringTable, i + 1);
    match LegacyLookup(content, h, indexTable, stringTable, m)
    case Skipped =>
    case Unterminated =>
    case Found(text) =>
      if AssertsHold(text) {
        var f := Filing(text, m.key, m.mod);
        assert ([f] + rest.filings)[1..] == rest.filings;
      }
  }

  lemma {:induction false} LegacyFromAdmissible(content: seq<Byte>, h: Header, indexTable: nat, stringTable: nat, i: nat)
    requires i <= |IndexKeyModMap|
    ensures Admissible(LegacyFrom(content, h, indexTable, stringTable, i))
    decreases |IndexKeyModMap| - i
  {
    if i < |IndexKeyModMap| {
      var w := LegacyFrom(content, h, indexTable, stringTable, i);
      LegacyFromStep(content, h, indexTable, stringTable, i);
      LegacyFromAdmissible(content, h, indexTable, stringTable, i + 1);
      if w.filings != [] {
        assert w.filings == [w.filings[0]] + w.filings[1..];
      }
    }
  }

  lemma {:induction false} NamesFromAdmissible(text: seq<Byte>, name: seq<Byte>, j: nat)
    requires j <= |NameKeyModMap()|
    ensures Admissible(NamesFrom(text, name, j))
    decreases |NameKeyModMap()| - j
  {
    if j < |NameKeyModMap()| {
      NamesFromAdmissible(text, name, j + 1);
    }
  }

  lemma {:induction false} FileCapabilitiesAdmissible(capabilities: seq<Capability>)
    ensures Admissible(FileCapabilities(capabilities))
    decreases |capabilities|
  {
    if capabilities != [] {
      NamesFromAdmissible(capabilities[0].text, capabilities[0].name, 0);
      FileCapabilitiesAdmissible(capabilities[1..]);
      ThenAdmissible(NamesFrom(capabilities[0].text, capabilities[0].name, 0), FileCapabilities(capabilities[1..]));
    }
  }

  lemma ExtendedFromAdmissible(content: seq<Byte>, k: nat, count: int, strings: nat, names: nat)
    ensures Admissible(ExtendedFrom(content, k, count, strings, names))
  {
    var read := ExtendedStringsFrom(content, k, count, strings, names);
    FileCapabilitiesAdmissible(read.capabilities);
    ThenAdmissible(FileCapabilities(read.capabilities),
                   Walk([], if read.truncated then Some(Stopped(ExitBad)) else None));
  }

  /** The extended phase once a whole extended header has been read. */
  lemma ExtendedPhaseSection(content: seq<Byte>, size: NumberSize, legacyEnd: nat)
    requires legacyEnd != 0 && AlignW(legacyEnd) + ExtHeaderBytes <= |content|
    ensures var e := ExtHeaderOf(content, AlignW(legacyEnd));
            var strings := ExtStringTableOffset(AlignW(legacyEnd), e, size);
            ExtendedPhase(content, size, legacyEnd) ==
            ExtendedSection(content, e.stringsCount, strings,
                            SkipStrings(content, strings, W(e.stringsCount + e.booleansCount + e.numbersCount)))
  {
  }

  lemma ExtendedPhaseAdmissible(content: seq<Byte>, size: NumberSize, legacyEnd: nat)
    ensures Admissible(ExtendedPhase(content, size, legacyEnd))
  {
    if legacyEnd != 0 && AlignW(legacyEnd) + ExtHeaderBytes <= |content| {
      ExtendedPhaseSectionAdmissible(content, size, legacyEnd);
    } else {
      ExtendedPhaseEarly(content, size, legacyEnd);
    }
  }

  /** Without a whole extended header the extended phase files nothing. */
  lemma ExtendedPhaseEarly(content: seq<Byte>, size: NumberSize, legacyEnd: nat)
    requires !(legacyEnd != 0 && AlignW(legacyEnd) + ExtHeaderBytes <= |content|)
    ensures ExtendedPhase(content, size, legacyEnd).filings == []
  {
  }

  lemma ExtendedPhaseSectionAdmissible(content: seq<Byte>, size: NumberSize, legacyEnd: nat)
    requires legacyEnd != 0 && AlignW(legacyEnd) + ExtHeaderBytes <= |content|
    ensures Admissible(ExtendedPhase(content, size, legacyEnd))
  {
    var e := ExtHeaderOf(content, AlignW(legacyEnd));
    var strings := ExtStringTableOffset(AlignW(legacyEnd), e, size);
    ExtendedPhaseSection(content, size, legacyEnd);
    ExtendedSectionAdmissible(content, e.stringsCount, strings,
                              SkipStrings(content, strings, W(e.stringsCount + e.booleansCount + e.numbersCount)),
                              ExtendedPhase(content, size, legacyEnd));
  }

  lemma ExtendedSectionAdmissible(content: seq<Byte>, count: int, strings: nat, names: nat, w: Walk)
    requires w == ExtendedSection(content, count, strings, names)
    ensures Admissible(w)
  {
    ExtendedFromAdmissible(content, 0, count, strings, names);
  }


  lemma TablesPhaseAdmissible(content: seq<Byte>, h: Header, size: NumberSize)
    ensures Admissible(TablesPhase(content, h, size))
  {
    var indexTable := IndexTableOffset(h, size);
    LegacyFromAdmissible(content, h, indexTable, StringTableOffset(h, indexTable), 0);
    ExtendedPhaseAdmissible(content, size, LegacyEnd(h, size));
    ThenAdmissible(LegacyFrom(content, h, indexTable, StringTableOffset(h, indexTable), 0),
                   ExtendedPhase(content, size, LegacyEnd(h, size)));
  }

  /**
   * The driver never hands `info_base_add_input` a string that fails its
   * assertions: such a string aborts the run before the call.
   */
  lemma LoadWalkAdmissible(content: seq<Byte>)
    ensures Admissible(LoadWalk(content))
  {
    if HeaderBytes <= |content| && NumberWidth(HeaderOf(content).magic).Some? {
      TablesPhaseAdmissible(content, HeaderOf(content), NumberWidth(HeaderOf(content).magic).value);
    }
  }

  // ---------------------------------------------------------------------------
  // How each walk can end
  // ---------------------------------------------------------------------------

  /** The legacy walk leaves the program only through an unterminated string (exit code 0) or an assertion. */
  lemma {:induction false} LegacyFromHalts(content: seq<Byte>, h: Header, indexTable: nat, stringTable: nat, i: nat)
    requires i <= |IndexKeyModMap|
    ensures LegacyFrom(content, h, indexTable, stringTable, i).halt in {None, Some(Stopped(ExitOk)), Some(AssertionFailure)}
    decreases |IndexKeyModMap| - i
  {
    if i < |IndexKeyModMap| {
      LegacyFromStep(content, h, indexTable, stringTable, i);
      LegacyFromHalts(content, h, indexTable, stringTable, i + 1);
    }
  }

  /** The name loop leaves the program only through an assertion. */
  lemma {:induction false} NamesFromHalts(text: seq<Byte>, name: seq<Byte>, j: nat)
    requires j <= |NameKeyModMap()|
    ensures NamesFrom(text, name, j).halt in {None, Some(AssertionFailure)}
    decreases |NameKeyModMap()| - j
  {
    if j < |NameKeyModMap()| {
      NamesFromHalts(text, name, j + 1);
    }
  }

  lemma {:induction false} FileCapabilitiesHalts(capabilities: seq<Capability>)
    ensures FileCapabilities(capabilities).halt in {None, Some(AssertionFailure)}
    decreases |capabilities|
  {
    if capabilities != [] {
      NamesFromHalts(capabilities[0].text, capabilities[0].name, 0);
      FileCapabilitiesHalts(capabilities[1..]);
    }
  }

  lemma ExtendedFromHalts(content: seq<Byte>, k: nat, count: int, strings: nat, names: nat)
    ensures ExtendedFrom(content, k, count, strings, names).halt in {None, Some(Stopped(ExitBad)), Some(AssertionFailure)}
  {
    FileCapabilitiesHalts(ExtendedStringsFrom(content, k, count, strings, names).capabilities);
  }

  /**
   * After the legacy walk the program leaves only with an error exit (a
   * short extended header, an unterminated value string) or an assertion.
   */
  lemma ExtendedPhaseHalts(content: seq<Byte>, size: NumberSize, legacyEnd: nat)
    ensures ExtendedPhase(content, size, legacyEnd).halt in {None, Some(Stopped(ExitBad)), Some(AssertionFailure)}
  {
    if legacyEnd != 0 && AlignW(legacyEnd) + ExtHeaderBytes <= |content| {
      var e := ExtHeaderOf(content, AlignW(legacyEnd));
      var strings := ExtStringTableOffset(AlignW(legacyEnd), e, size);
      ExtendedPhaseSection(content, size, legacyEnd);
      ExtendedSectionHalts(content, e.stringsCount, strings,
                           SkipStrings(content, strings, W(e.stringsCount + e.booleansCount + e.numbersCount)),
                           ExtendedPhase(content, size, legacyEnd));
    }
  }

  lemma ExtendedSectionHalts(content: seq<Byte>, count: int, strings: nat, names: nat, w: Walk)
    requires w == ExtendedSection(content, count, strings, names)
    ensures w.halt in {None, Some(Stopped(ExitBad)), Some(AssertionFailure)}
  {
    ExtendedFromHalts(content, 0, count, strings, names);
  }


  // ---------------------------------------------------------------------------
  // The skip rules of the legacy walk
  // ---------------------------------------------------------------------------

  /** A header with no string table entries makes the legacy walk skip every capability. */
  lemma {:induction false} NoEntriesNoLegacyFilings(content: seq<Byte>, h: Header, indexTable: nat, stringTable: nat,
                                                   i: nat)
    requires i <= |IndexKeyModMap| && h.stringTableEntries <= 0
    ensures LegacyFrom(content, h, indexTable, stringTable, i) == Walk([], None)
    decreases |IndexKeyModMap| - i
  {
    if i < |IndexKeyModMap| {
      NoEntriesNoLegacyFilings(content, h, indexTable, stringTable, i + 1);
    }
  }

  /** The legacy walk calls `info_base_add_input` at most once per capability of the map. */
  lemma {:induction false} LegacyFilingsBound(content: seq<Byte>, h: Header, indexTable: nat, stringTable: nat, i: nat)
    requires i <= |IndexKeyModMap|
    ensures |LegacyFrom(content, h, indexTable, stringTable, i).filings| <= |IndexKeyModMap| - i
    decreases |IndexKeyModMap| - i
  {
    if i < |IndexKeyModMap| {
      LegacyFromStep(content, h, indexTable, stringTable, i);
      LegacyFilingsBound(content, h, indexTable, stringTable, i + 1);
    }
  }

  // ---------------------------------------------------------------------------
  // The wrapping bounds check of the index read
  // ---------------------------------------------------------------------------

  /**
   * The C bounds check `size < position + bytes` of `basics_memory_read`,
   * `basics_memory_read_16le` and the legacy loop, with the `size_t` sum
   * wrapping: true when the read is refused.
   */
  function ReadRefusedAsWritten(size: nat, position: nat, bytes: nat): (refused: bool)
    ensures position + bytes < SizeModulus ==> (refused <==> size < position + bytes)
    ensures position + bytes == SizeModulus ==> !refused
  {
    size < W(position + bytes)
  }

  /** A legacy header whose negative `names_size` puts the index table 112 bytes below 2^64. */
  const WrappingHeader: Header := Header(LegacyMagic, -124, 0, 0, 56, 0)

  /**
   * As written: with `WrappingHeader` the index entry 55 (BACKSPACE) sits at
   * 2^64 - 2, so the wrapped check lets the two-byte read through for every
   * buffer size, although the read runs past the end of any buffer.
   */
  lemma WrappedIndexReadPassesCheck(size: nat)
    requires size < SizeModulus
    ensures NumberWidth(WrappingHeader.magic) == Some(TwoBytes)
    ensures 55 < WrappingHeader.stringTableEntries
    ensures W(IndexTableOffset(WrappingHeader, TwoBytes) + 2 * 55) == SizeModulus - 2
    ensures !ReadRefusedAsWritten(size, SizeModulus - 2, 2) && size < SizeModulus - 2 + 2
  {
    var h := WrappingHeader;
    assert W(HeaderBytes + h.namesSize) == SizeModulus - 112;
    assert AlignW(SizeModulus - 112) == SizeModulus - 112 by {
      assert W(SizeModulus - 111) == SizeModulus - 111;
    }
  }

  /**
   * Corrected: the model checks the index read without wrap-around, so a
   * lookup that goes past the skip reads two bytes inside the file ...
   */
  lemma LegacyLookupReadsInBounds(content: seq<Byte>, h: Header, indexTable: nat, stringTable: nat, m: IndexKeyMod)
    ensures LegacyLookup(content, h, indexTable, stringTable, m) != Skipped ==>
              m.index < h.stringTableEntries && W(indexTable + 2 * m.index) + 2 <= |content|
  {
  }

  /** ... and with `WrappingHeader` entry 55 is skipped as out of file bounds. */
  lemma WrappedIndexReadSkipped(content: seq<Byte>, stringTable: nat)
    requires |content| < SizeModulus
    ensures LegacyLookup(content, WrappingHeader, IndexTableOffset(WrappingHeader, TwoBytes), stringTable,
                         IndexKeyMod(55, KeyBackspace, 0)) == Skipped
  {
    WrappedIndexReadPassesCheck(|content|);
  }

  // ---------------------------------------------------------------------------
  // The extended stop rules
  // ---------------------------------------------------------------------------

  /** An unterminated extended value string ends the program with an error. */
  lemma UnterminatedValueExitsBad(content: seq<Byte>, k: nat, count: int, strings: nat, names: nat)
    requires k < count && StringAt(content, strings).None?
    ensures ExtendedFrom(content, k, count, strings, names) == Walk([], Some(Stopped(ExitBad)))
  {
  }

  /** An unterminated extended name only ends the loop. */
  lemma UnterminatedNameEndsLoop(content: seq<Byte>, k: nat, count: int, strings: nat, names: nat)
    requires k < count && StringAt(content, strings).Some? && StringAt(content, names).None?
    ensures ExtendedFrom(content, k, count, strings, names) == Walk([], None)
  {
  }

  // ---------------------------------------------------------------------------
  // The name map
  // ---------------------------------------------------------------------------

  /** Entry `6 * s + i` of the name map is stem `s` with suffix `i`, meaning modifier `i + 1`. */
  lemma NameKeyModEntry(s: nat, i: nat)
    requires s < |NameStems| && i < SuffixCount
    ensures NameKeyModMap()[SuffixCount * s + i] ==
            NameKeyMod(NameStems[s] + NameSuffixes[i], StemKeys[s], (i + 1) as Byte)
  {
    SplitIndex(s, i);
  }

  lemma SplitIndex(s: nat, i: nat)
    requires i < SuffixCount
    ensures (SuffixCount * s + i) / SuffixCount == s && (SuffixCount * s + i) % SuffixCount == i
  {
  }
}
