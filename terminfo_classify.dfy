/**
 * The key classifier of `load_terminfo.c`: `struct info_base`, a 128-slot
 * direct key table next to a record store, and `info_base_add_input`, which
 * decodes an escape sequence with the patterns of section 5.4 of ECMA-48
 * (CSI and SS3 sequences, with the xterm "1 + modifier bitmask" parameter)
 * and files it in one of the two tables.
 */
module Classifier {
  import opened Basics
  import opened RecordStore
  import opened Matcher

  // ---------------------------------------------------------------------------
  // enum key, enum mod
  // ---------------------------------------------------------------------------

  const KeyTab: Byte := 9
  const KeyEnter: Byte := 10
  const KeyEscape: Byte := 27
  const KeyBackspace: Byte := 127
  const KeyUtf8: Byte := 128
  const KeyF1: Byte := 129
  const KeyF2: Byte := 130
  const KeyF3: Byte := 131
  const KeyF4: Byte := 132
  const KeyF5: Byte := 133
  const KeyF6: Byte := 134
  const KeyF7: Byte := 135
  const KeyF8: Byte := 136
  const KeyF9: Byte := 137
  const KeyF10: Byte := 138
  const KeyF11: Byte := 139
  const KeyF12: Byte := 140
  const KeyUp: Byte := 142
  const KeyDown: Byte := 143
  const KeyRight: Byte := 144
  const KeyLeft: Byte := 145
  const KeyHome: Byte := 146
  const KeyInsert: Byte := 147
  const KeyDelete: Byte := 148
  const KeyEnd: Byte := 149
  const KeyPageUp: Byte := 150
  const KeyPageDown: Byte := 151
  const KeyCenter: Byte := 152
  const KeyUnknown: Byte := 255

  const ModShift: Byte := 0x01
  const ModAlt: Byte := 0x02
  const ModControl: Byte := 0x04
  const ModMeta: Byte := 0x08

  /** `(uint8_t) -1`: an empty key-table slot, and "not captured" for a code. */
  const Unset: Byte := 0xff
  /** `basics_length_of(key_table)`. */
  const KeyTableSize: nat := 128

  // ---------------------------------------------------------------------------
  // The seven patterns, in the order `info_base_add_input` tries them
  // ---------------------------------------------------------------------------

  const Esc: Byte := 0x1b
  const LeftBracket: Byte := 0x5b
  const LetterO: Byte := 0x4f
  const Semicolon: Byte := 0x3b
  const Tilde: Byte := 0x7e
  const Digit1: Byte := 0x31

  /** Which outputs a pattern's directives store into, in order. */
  datatype Role = KeyThenMod | KeyOnly | ModThenKey

  /** A format, its outputs, and whether the keycode is a 1-biased CSI parameter. */
  datatype Pattern = Pattern(format: seq<Byte>, role: Role, decrement: bool)

  /** `"\033[%p;%p~"` */
  const CsiTildeModFormat: seq<Byte> := [Esc, LeftBracket, Percent, LetterP, Semicolon, Percent, LetterP, Tilde]
  /** `"\033[%p~"` */
  const CsiTildeFormat: seq<Byte> := [Esc, LeftBracket, Percent, LetterP, Tilde]
  /** `"\033[1;%p%c"` */
  const CsiModCharFormat: seq<Byte> := [Esc, LeftBracket, Digit1, Semicolon, Percent, LetterP, Percent, LetterC]
  /** `"\033O1;%p%c"` */
  const Ss3ModCharFormat: seq<Byte> := [Esc, LetterO, Digit1, Semicolon, Percent, LetterP, Percent, LetterC]
  /** `"\033O%p%c"` */
  const Ss3ParamCharFormat: seq<Byte> := [Esc, LetterO, Percent, LetterP, Percent, LetterC]
  /** `"\033[%c"` */
  const CsiCharFormat: seq<Byte> := [Esc, LeftBracket, Percent, LetterC]
  /** `"\033O%c"` */
  const Ss3CharFormat: seq<Byte> := [Esc, LetterO, Percent, LetterC]

  const Patterns: seq<Pattern> := [
    Pattern(CsiTildeModFormat, KeyThenMod, true),
    Pattern(CsiTildeFormat, KeyOnly, true),
    Pattern(CsiModCharFormat, ModThenKey, false),
    Pattern(Ss3ModCharFormat, ModThenKey, false),
    Pattern(Ss3ParamCharFormat, ModThenKey, false),
    Pattern(CsiCharFormat, KeyOnly, false),
    Pattern(Ss3CharFormat, KeyOnly, false)
  ]

  /** A keycode and a modcode, `Unset` when not captured. */
  datatype Codes = Codes(keycode: Byte, modcode: Byte)

  /** The value left in an output that starts `Unset` and may be stored as capture `i`. */
  function Output(caps: seq<Byte>, i: nat): Byte
  {
    if i < |caps| then caps[i] else Unset
  }

  /** The outputs after one attempt, before any decrement. */
  function Captured(role: Role, caps: seq<Byte>): Codes
  {
    match role
    case KeyThenMod => Codes(Output(caps, 0), Output(caps, 1))
    case KeyOnly => Codes(Output(caps, 0), Unset)
    case ModThenKey => Codes(Output(caps, 1), Output(caps, 0))
  }

  /** `keycode--` on a `uint8_t`. */
  function Decrement(b: Byte): Byte
  {
    (b + 255) % 256
  }

  /** Whether pattern `p` consumes all of `s`: `info__scanf(...) == length`. */
  predicate FullMatch(s: seq<Byte>, p: Pattern)
  {
    Returned(ScanSpec(s, p.format)) == |s|
  }

  /** The codes a fully matching pattern yields. */
  function CodesOf(s: seq<Byte>, p: Pattern): Codes
  {
    var c := Captured(p.role, ScanSpec(s, p.format).captures);
    if p.decrement then c.(keycode := Decrement(c.keycode)) else c
  }

  /** The first of the patterns from `i` on that matches all of `s`. */
  function MatchFrom(s: seq<Byte>, i: nat): Option<Codes>
    decreases |Patterns| - i
  {
    if i >= |Patterns| then None
    else if FullMatch(s, Patterns[i]) then Some(CodesOf(s, Patterns[i]))
    else MatchFrom(s, i + 1)
  }

  function Match(s: seq<Byte>): Option<Codes>
  {
    MatchFrom(s, 0)
  }

  /** The two assertions of `info_base_add_input`: a non-empty sequence, and a captured keycode. */
  predicate AssertsHold(s: seq<Byte>)
  {
    |s| != 0 && (Match(s).Some? ==> Match(s).value.keycode != Unset)
  }

  /** Where a sequence is filed. */
  datatype Route = Direct(slot: nat) | Store

  /** The table `info_base_add_input` files `s` in when asked for modifier `mod`. */
  function RouteOf(s: seq<Byte>, mod: Byte): Route
  {
    match Match(s)
    case None => Store
    case Some(c) =>
      if KeyTableSize <= c.keycode then Store
      else if c.modcode != Unset && c.modcode as int - 1 != mod as int then Store
      else Direct(c.keycode)
  }

  // ---------------------------------------------------------------------------
  // The effect of a call on the abstract state
  // ---------------------------------------------------------------------------

  /** The key table and the record store. */
  datatype BaseState = BaseState(keys: seq<Byte>, table: TableState)

  /** `info_base_initialize`: every slot unset, an empty store. */
  function InitialBase(): BaseState
  {
    BaseState(seq(KeyTableSize, _ => Unset), TableState([], 0))
  }

  /** `info_base_add_input` on the abstract state: the status and the new state. */
  function Step(st: BaseState, s: seq<Byte>, key: Byte, mod: Byte, limit: nat): (r: (InfoStatus, BaseState))
    requires |st.keys| == KeyTableSize
    ensures |r.1.keys| == KeyTableSize
  {
    match RouteOf(s, mod)
    case Direct(k) =>
      var existing := st.keys[k];
      if existing != Unset && existing != key then (KeyCollision, st)
      else (Ok, st.(keys := st.keys[k := key]))
    case Store =>
      var (status, t) := AddSpec(st.table, s, key, mod, limit);
      (status, st.(table := t))
  }

  // ---------------------------------------------------------------------------
  // struct info_base
  // ---------------------------------------------------------------------------

  class InfoBase {
    const strings: InfoTable
    const keyTable: array<Byte>

    ghost predicate Valid()
      reads this, strings, keyTable
    {
      strings.Valid() && keyTable.Length == KeyTableSize
    }

    ghost function State(): BaseState
      reads this, strings, keyTable
    {
      BaseState(keyTable[..], strings.State())
    }

    /** `info_base_initialize`. */
    constructor ()
      ensures Valid() && State() == InitialBase()
      ensures fresh(strings) && fresh(keyTable)
    {
      strings := new InfoTable();
      keyTable := new Byte[KeyTableSize](_ => Unset);
      new;
      assert keyTable[..] == seq(KeyTableSize, _ => Unset);
    }

    /**
     * `info_base_add_input(self, s, |s|, key, mod)`: files `s` in the direct
     * table or the record store.
     */
    method AddInput(s: seq<Byte>, key: Byte, mod: Byte, limit: nat) returns (status: InfoStatus)
      requires Valid() && AssertsHold(s)
      modifies strings, keyTable
      ensures Valid()
      ensures (status, State()) == Step(old(State()), s, key, mod, limit)
    {
      var matched, keycode, modcode := Decode(s);
      if matched && keycode < KeyTableSize && (modcode == Unset || modcode as int - 1 == mod as int) {
        var existing := keyTable[keycode];
        if existing != Unset && existing != key {
          return KeyCollision;
        }
        keyTable[keycode] := key;
        return Ok;
      }
      status := strings.Add(s, key, mod, limit);
    }
  }

  /**
   * The pattern attempts of `info_base_add_input`, in order: the codes of the
   * first full match, with the keycode decremented for the two CSI `~` forms.
   */
  method Decode(s: seq<Byte>) returns (matched: bool, keycode: Byte, modcode: Byte)
    ensures matched <==> Match(s).Some?
    ensures matched ==> Match(s).value == Codes(keycode, modcode)
  {
    matched, keycode, modcode := Attempt(s, Patterns[0]);
    if !matched {
      matched, keycode, modcode := Attempt(s, Patterns[1]);
    }
    if matched {
      keycode := Decrement(keycode);
    } else {
      matched, keycode, modcode := Attempt(s, Patterns[2]);
      if !matched {
        matched, keycode, modcode := Attempt(s, Patterns[3]);
      }
      if !matched {
        matched, keycode, modcode := Attempt(s, Patterns[4]);
      }
      if !matched {
        matched, keycode, modcode := Attempt(s, Patterns[5]);
      }
      if !matched {
        matched, keycode, modcode := Attempt(s, Patterns[6]);
      }
    }
    MatchUnfold(s);
  }

  /**
   * One comma expression of `info_base_add_input`: reset both codes, run the
   * matcher, and report whether it consumed the whole sequence.
   */
  method Attempt(s: seq<Byte>, p: Pattern) returns (matched: bool, keycode: Byte, modcode: Byte)
    ensures matched == FullMatch(s, p)
    ensures matched ==> Codes(keycode, modcode) == Captured(p.role, ScanSpec(s, p.format).captures)
  {
    keycode, modcode := Unset, Unset;
    var n, caps := Scanf(s, p.format);
    match p.role {
      case KeyThenMod =>
        keycode, modcode := Output(caps, 0), Output(caps, 1);
      case KeyOnly =>
        keycode := Output(caps, 0);
      case ModThenKey =>
        modcode, keycode := Output(caps, 0), Output(caps, 1);
    }
    matched := n == |s|;
  }

  /** `Match` spelled out over the seven patterns. */
  lemma MatchUnfold(s: seq<Byte>)
    ensures Match(s) ==
      if FullMatch(s, Patterns[0]) then Some(CodesOf(s, Patterns[0]))
      else if FullMatch(s, Patterns[1]) then Some(CodesOf(s, Patterns[1]))
      else if FullMatch(s, Patterns[2]) then Some(CodesOf(s, Patterns[2]))
      else if FullMatch(s, Patterns[3]) then Some(CodesOf(s, Patterns[3]))
      else if FullMatch(s, Patterns[4]) then Some(CodesOf(s, Patterns[4]))
      else if FullMatch(s, Patterns[5]) then Some(CodesOf(s, Patterns[5]))
      else if FullMatch(s, Patterns[6]) then Some(CodesOf(s, Patterns[6]))
      else None
  {
    assert MatchFrom(s, 7) == None;
    assert MatchFrom(s, 6) == if FullMatch(s, Patterns[6]) then Some(CodesOf(s, Patterns[6])) else None;
  }

  // ---------------------------------------------------------------------------
  // The sequences the patterns are meant for, and what they decode to
  // ---------------------------------------------------------------------------

  /**
   * The seven shapes of escape sequence the patterns are written for: CSI
   * `~` forms with an optional modifier parameter, CSI/SS3 final-character
   * forms with a modifier parameter (xterm, gnome, konsole), and the plain
   * CSI/SS3 final-character forms.
   */
  datatype KeySequence =
    | CsiTildeMod(k: Byte, m: Byte)
    | CsiTilde(k: Byte)
    | CsiModChar(m: Byte, c: Byte)
    | Ss3ModChar(m: Byte, c: Byte)
    | Ss3ParamChar(m: Byte, c: Byte)
    | CsiChar(c: Byte)
    | Ss3Char(c: Byte)

  /** The bytes of a key sequence, parameters spelled in shortest decimal. */
  function Spell(q: KeySequence): seq<Byte>
  {
    match q
    case CsiTildeMod(k, m) => [Esc, LeftBracket] + Decimal(k) + [Semicolon] + Decimal(m) + [Tilde]
    case CsiTilde(k) => [Esc, LeftBracket] + Decimal(k) + [Tilde]
    case CsiModChar(m, c) => [Esc, LeftBracket, Digit1, Semicolon] + Decimal(m) + [c]
    case Ss3ModChar(m, c) => [Esc, LetterO, Digit1, Semicolon] + Decimal(m) + [c]
    case Ss3ParamChar(m, c) => [Esc, LetterO] + Decimal(m) + [c]
    case CsiChar(c) => [Esc, LeftBracket, c]
    case Ss3Char(c) => [Esc, LetterO, c]
  }

  /**
   * Whether the final character of a sequence ends its parameter: it must
   * not be a digit, and a CSI modifier form must not end in `~`, which
   * would make it the first pattern's sequence.
   */
  predicate Unambiguous(q: KeySequence)
  {
    match q
    case CsiModChar(_, c) => !IsDigit(c) && c != Tilde
    case Ss3ModChar(_, c) => !IsDigit(c)
    case Ss3ParamChar(_, c) => !IsDigit(c)
    case _ => true
  }

  /** The codes a key sequence carries: CSI parameters are 1-biased. */
  function Meant(q: KeySequence): Codes
  {
    match q
    case CsiTildeMod(k, m) => Codes(Decrement(k), m)
    case CsiTilde(k) => Codes(Decrement(k), Unset)
    case CsiModChar(m, c) => Codes(c, m)
    case Ss3ModChar(m, c) => Codes(c, m)
    case Ss3ParamChar(m, c) => Codes(c, m)
    case CsiChar(c) => Codes(c, Unset)
    case Ss3Char(c) => Codes(c, Unset)
  }

  /** The patterns decode every unambiguous key sequence to the codes it carries. */
  lemma MatchSpell(q: KeySequence)
    requires Unambiguous(q)
    ensures Match(Spell(q)) == Some(Meant(q))
  {
    match q
    case CsiTildeMod(k, m) => MatchCsiTildeMod(k, m);
    case CsiTilde(k) => MatchCsiTilde(k);
    case CsiModChar(m, c) => MatchCsiModChar(m, c);
    case Ss3ModChar(m, c) => MatchSs3ModChar(m, c);
    case Ss3ParamChar(m, c) => MatchSs3ParamChar(m, c);
    case CsiChar(c) => MatchCsiChar(c);
    case Ss3Char(c) => MatchSs3Char(c);
  }

  lemma MatchCsiTildeMod(k: Byte, m: Byte)
    ensures Match(Spell(CsiTildeMod(k, m))) == Some(Codes(Decrement(k), m))
  {
    var s := Spell(CsiTildeMod(k, m));
    ScanCsiTildeMod(k, m);
    MatchOf(s, 0);
  }

  lemma MatchCsiTilde(k: Byte)
    ensures Match(Spell(CsiTilde(k))) == Some(Codes(Decrement(k), Unset))
  {
    var s := Spell(CsiTilde(k));
    CsiTildeNotMod(k);
    ScanCsiTilde(k);
    MatchOf(s, 1);
  }

  lemma MatchCsiModChar(m: Byte, c: Byte)
    requires !IsDigit(c) && c != Tilde
    ensures Match(Spell(CsiModChar(m, c))) == Some(Codes(c, m))
  {
    var s := Spell(CsiModChar(m, c));
    CsiModCharNotTilde(m, c);
    ScanCsiModChar(m, c);
    MatchOf(s, 2);
  }

  lemma MatchSs3ModChar(m: Byte, c: Byte)
    requires !IsDigit(c)
    ensures Match(Spell(Ss3ModChar(m, c))) == Some(Codes(c, m))
  {
    var s := Spell(Ss3ModChar(m, c));
    Ss3NotCsi(s);
    ScanSs3ModChar(m, c);
    MatchOf(s, 3);
  }

  lemma MatchSs3ParamChar(m: Byte, c: Byte)
    requires !IsDigit(c)
    ensures Match(Spell(Ss3ParamChar(m, c))) == Some(Codes(c, m))
  {
    var s := Spell(Ss3ParamChar(m, c));
    Ss3NotCsi(s);
    Ss3ParamCharNotMod(m, c);
    ScanSs3ParamChar(m, c);
    MatchOf(s, 4);
  }

  lemma MatchCsiChar(c: Byte)
    ensures Match(Spell(CsiChar(c))) == Some(Codes(c, Unset))
  {
    var s := Spell(CsiChar(c));
    CsiCharNotParameter(c);
    CsiNotSs3(s);
    ScanCsiChar(c);
    MatchOf(s, 5);
  }

  lemma MatchSs3Char(c: Byte)
    ensures Match(Spell(Ss3Char(c))) == Some(Codes(c, Unset))
  {
    var s := Spell(Ss3Char(c));
    Ss3NotCsi(s);
    Ss3CharNotParameter(c);
    ScanSs3Char(c);
    MatchOf(s, 6);
  }

  /** The first pattern that matches decides. */
  lemma MatchOf(s: seq<Byte>, i: nat)
    requires i < |Patterns| && FullMatch(s, Patterns[i])
    requires forall j :: 0 <= j < i ==> !FullMatch(s, Patterns[j])
    ensures Match(s) == Some(CodesOf(s, Patterns[i]))
  {
    MatchFromSkip(s, 0, i);
  }

  lemma {:induction false} MatchFromSkip(s: seq<Byte>, j: nat, i: nat)
    requires j <= i < |Patterns|
    requires forall k :: j <= k < i ==> !FullMatch(s, Patterns[k])
    ensures MatchFrom(s, j) == MatchFrom(s, i)
    decreases i - j
  {
    if j < i {
      MatchFromSkip(s, j + 1, i);
    }
  }

  // Single steps of the matcher

  /** Matching a literal format byte. */
  lemma StepVerbatim(str: seq<Byte>, fmt: seq<Byte>, s: nat, f: nat, caps: seq<Byte>)
    requires s < |str| && f < |fmt| && fmt[f] != Percent && str[s] == fmt[f]
    ensures ScanFrom(str, fmt, s, f, caps) == ScanFrom(str, fmt, s + 1, f + 1, caps)
  {
  }

  /** The two introducer bytes `ESC [` or `ESC O`. */
  lemma Introducer(str: seq<Byte>, fmt: seq<Byte>)
    requires 2 <= |str| && 2 <= |fmt| && str[..2] == fmt[..2]
    requires fmt[0] != Percent && fmt[1] != Percent
    ensures ScanSpec(str, fmt) == ScanFrom(str, fmt, 2, 2, [])
  {
    assert str[0] == fmt[0] && str[1] == fmt[1];
    StepVerbatim(str, fmt, 0, 0, []);
  }

  /** A literal format byte that differs from the input. */
  lemma Mismatch(str: seq<Byte>, fmt: seq<Byte>, s: nat, f: nat, caps: seq<Byte>)
    requires s < |str| && f < |fmt| && fmt[f] != Percent && str[s] != fmt[f]
    ensures ScanFrom(str, fmt, s, f, caps).status == BadMatch
  {
  }

  /** Input exhausted before the format. */
  lemma OutOfInput(str: seq<Byte>, fmt: seq<Byte>, s: nat, f: nat, caps: seq<Byte>)
    requires s == |str| && f < |fmt|
    ensures ScanFrom(str, fmt, s, f, caps).status != ScanOk
  {
  }

  /** Matching `%c`. */
  lemma StepCharacter(str: seq<Byte>, fmt: seq<Byte>, s: nat, f: nat, caps: seq<Byte>)
    requires s < |str| && f + 1 < |fmt| && fmt[f] == Percent && fmt[f + 1] == LetterC
    ensures ScanFrom(str, fmt, s, f, caps) == ScanFrom(str, fmt, s + 1, f + 2, caps + [str[s]])
  {
  }

  /** Matching `%p` against the decimal spelling of `v`. */
  lemma StepParameter(str: seq<Byte>, fmt: seq<Byte>, s: nat, f: nat, caps: seq<Byte>, v: Byte)
    requires f + 1 < |fmt| && fmt[f] == Percent && fmt[f + 1] == LetterP
    requires DecimalAt(str, s, v)
    requires s + |Decimal(v)| == |str| || !IsDigit(str[s + |Decimal(v)|])
    ensures ScanFrom(str, fmt, s, f, caps) == ScanFrom(str, fmt, s + |Decimal(v)|, f + 2, caps + [v])
  {
    ScanDecimal(str, s, v);
    assert str[s] == Decimal(v)[0];
  }

  /** `%p` on the last input byte, with more format to come, does not match. */
  lemma LastByteParameter(str: seq<Byte>, fmt: seq<Byte>, s: nat, f: nat, caps: seq<Byte>)
    requires s + 1 == |str| && f + 2 < |fmt| && fmt[f] == Percent && fmt[f + 1] == LetterP
    ensures ScanFrom(str, fmt, s, f, caps).status != ScanOk
  {
    if IsDigit(str[s]) {
      assert ScanDigits(str, s + 1, str[s] - Digit0) == Digits(false, str[s] - Digit0, s + 1);
      OutOfInput(str, fmt, s + 1, f + 2, caps + [str[s] - Digit0]);
    }
  }

  /** A piece of a concatenation, read back. */
  lemma Middle(a: seq<Byte>, b: seq<Byte>, c: seq<Byte>)
    ensures (a + b + c)[|a|..|a| + |b|] == b
  {
  }

  // Which patterns each key sequence passes and fails

  /** SS3 sequences match no CSI pattern. */
  lemma Ss3NotCsi(s: seq<Byte>)
    requires 2 <= |s| && s[0] == Esc && s[1] == LetterO
    ensures !FullMatch(s, Patterns[0]) && !FullMatch(s, Patterns[1])
    ensures !FullMatch(s, Patterns[2]) && !FullMatch(s, Patterns[5])
  {
    StepVerbatim(s, CsiTildeModFormat, 0, 0, []);
    Mismatch(s, CsiTildeModFormat, 1, 1, []);
    StepVerbatim(s, CsiTildeFormat, 0, 0, []);
    Mismatch(s, CsiTildeFormat, 1, 1, []);
    StepVerbatim(s, CsiModCharFormat, 0, 0, []);
    Mismatch(s, CsiModCharFormat, 1, 1, []);
    StepVerbatim(s, CsiCharFormat, 0, 0, []);
    Mismatch(s, CsiCharFormat, 1, 1, []);
  }

  /** CSI sequences match no SS3 pattern. */
  lemma CsiNotSs3(s: seq<Byte>)
    requires 2 <= |s| && s[0] == Esc && s[1] == LeftBracket
    ensures !FullMatch(s, Patterns[3]) && !FullMatch(s, Patterns[4]) && !FullMatch(s, Patterns[6])
  {
    StepVerbatim(s, Ss3ModCharFormat, 0, 0, []);
    Mismatch(s, Ss3ModCharFormat, 1, 1, []);
    StepVerbatim(s, Ss3ParamCharFormat, 0, 0, []);
    Mismatch(s, Ss3ParamCharFormat, 1, 1, []);
    StepVerbatim(s, Ss3CharFormat, 0, 0, []);
    Mismatch(s, Ss3CharFormat, 1, 1, []);
  }

  /** The decimal spelling of `v` at position `i` of `s`. */
  predicate DecimalAt(s: seq<Byte>, i: nat, v: Byte)
  {
    i + |Decimal(v)| <= |s| && s[i..i + |Decimal(v)|] == Decimal(v)
  }

  // CSI k ; m ~

  /** The byte layout of `Spell(CsiTildeMod(k, m))`. */
  predicate CsiTildeModShape(s: seq<Byte>, k: Byte, m: Byte, dk: nat, dm: nat)
  {
    dk == |Decimal(k)| && dm == |Decimal(m)| && |s| == 4 + dk + dm &&
    s[0] == Esc && s[1] == LeftBracket && DecimalAt(s, 2, k) && s[2 + dk] == Semicolon &&
    DecimalAt(s, 3 + dk, m) && s[3 + dk + dm] == Tilde
  }

  lemma SpellCsiTildeMod(k: Byte, m: Byte)
    ensures CsiTildeModShape(Spell(CsiTildeMod(k, m)), k, m, |Decimal(k)|, |Decimal(m)|)
  {
    var s := Spell(CsiTildeMod(k, m));
    Middle([Esc, LeftBracket], Decimal(k), [Semicolon] + Decimal(m) + [Tilde]);
    Middle([Esc, LeftBracket] + Decimal(k) + [Semicolon], Decimal(m), [Tilde]);
    assert s == [Esc, LeftBracket] + Decimal(k) + ([Semicolon] + Decimal(m) + [Tilde]);
  }

  lemma ScanCsiTildeModShape(s: seq<Byte>, k: Byte, m: Byte, dk: nat, dm: nat)
    requires CsiTildeModShape(s, k, m, dk, dm)
    ensures ScanSpec(s, CsiTildeModFormat) == Scan(ScanOk, |s|, [k, m])
  {
    var f := CsiTildeModFormat;
    Introducer(s, f);
    StepParameter(s, f, 2, 2, [], k);
    assert [] + [k] == [k];
    ScanModTilde(s, 2 + dk, k, m, dm);
  }

  /** The `;%p~` tail of the first pattern. */
  lemma ScanModTilde(s: seq<Byte>, i: nat, k: Byte, m: Byte, dm: nat)
    requires dm == |Decimal(m)| && |s| == i + 2 + dm
    requires s[i] == Semicolon && DecimalAt(s, i + 1, m) && s[i + 1 + dm] == Tilde
    ensures ScanFrom(s, CsiTildeModFormat, i, 4, [k]) == Scan(ScanOk, |s|, [k, m])
  {
    var f := CsiTildeModFormat;
    StepVerbatim(s, f, i, 4, [k]);
    StepParameter(s, f, i + 1, 5, [k], m);
    assert [k] + [m] == [k, m];
    StepVerbatim(s, f, i + 1 + dm, 7, [k, m]);
  }

  lemma ScanCsiTildeMod(k: Byte, m: Byte)
    ensures var s := Spell(CsiTildeMod(k, m));
      ScanSpec(s, CsiTildeModFormat) == Scan(ScanOk, |s|, [k, m])
  {
    SpellCsiTildeMod(k, m);
    ScanCsiTildeModShape(Spell(CsiTildeMod(k, m)), k, m, |Decimal(k)|, |Decimal(m)|);
  }

  // CSI k ~

  predicate CsiTildeShape(s: seq<Byte>, k: Byte, d: nat)
  {
    d == |Decimal(k)| && |s| == 3 + d &&
    s[0] == Esc && s[1] == LeftBracket && DecimalAt(s, 2, k) && s[2 + d] == Tilde
  }

  lemma SpellCsiTilde(k: Byte)
    ensures CsiTildeShape(Spell(CsiTilde(k)), k, |Decimal(k)|)
  {
    Middle([Esc, LeftBracket], Decimal(k), [Tilde]);
  }

  lemma CsiTildeNotMod(k: Byte)
    ensures !FullMatch(Spell(CsiTilde(k)), Patterns[0])
  {
    SpellCsiTilde(k);
    CsiTildeShapeNotMod(Spell(CsiTilde(k)), k, |Decimal(k)|);
  }

  lemma CsiTildeShapeNotMod(s: seq<Byte>, k: Byte, d: nat)
    requires CsiTildeShape(s, k, d)
    ensures ScanSpec(s, CsiTildeModFormat).status == BadMatch
  {
    var f := CsiTildeModFormat;
    Introducer(s, f);
    StepParameter(s, f, 2, 2, [], k);
    Mismatch(s, f, 2 + d, 4, [] + [k]);
  }

  lemma ScanCsiTilde(k: Byte)
    ensures var s := Spell(CsiTilde(k));
      ScanSpec(s, CsiTildeFormat) == Scan(ScanOk, |s|, [k])
  {
    SpellCsiTilde(k);
    ScanCsiTildeShape(Spell(CsiTilde(k)), k, |Decimal(k)|);
  }

  lemma ScanCsiTildeShape(s: seq<Byte>, k: Byte, d: nat)
    requires CsiTildeShape(s, k, d)
    ensures ScanSpec(s, CsiTildeFormat) == Scan(ScanOk, |s|, [k])
  {
    var f := CsiTildeFormat;
    Introducer(s, f);
    StepParameter(s, f, 2, 2, [], k);
    assert [] + [k] == [k];
    StepVerbatim(s, f, 2 + d, 4, [k]);
  }

  // CSI 1 ; m c  and  SS3 1 ; m c

  /** The layout of `ESC intro 1 ; m c`. */
  predicate ModCharShape(s: seq<Byte>, intro: Byte, m: Byte, c: Byte, d: nat)
  {
    d == |Decimal(m)| && |s| == 5 + d &&
    s[0] == Esc && s[1] == intro && s[2] == Digit1 && s[3] == Semicolon &&
    DecimalAt(s, 4, m) && s[4 + d] == c
  }

  lemma SpellCsiModChar(m: Byte, c: Byte)
    ensures ModCharShape(Spell(CsiModChar(m, c)), LeftBracket, m, c, |Decimal(m)|)
  {
    Middle([Esc, LeftBracket, Digit1, Semicolon], Decimal(m), [c]);
  }

  lemma SpellSs3ModChar(m: Byte, c: Byte)
    ensures ModCharShape(Spell(Ss3ModChar(m, c)), LetterO, m, c, |Decimal(m)|)
  {
    Middle([Esc, LetterO, Digit1, Semicolon], Decimal(m), [c]);
  }

  /** A CSI modifier form not ending in `~` is not taken for a `~` form. */
  lemma CsiModCharNotTilde(m: Byte, c: Byte)
    requires !IsDigit(c) && c != Tilde
    ensures !FullMatch(Spell(CsiModChar(m, c)), Patterns[0])
    ensures !FullMatch(Spell(CsiModChar(m, c)), Patterns[1])
  {
    var s := Spell(CsiModChar(m, c));
    SpellCsiModChar(m, c);
    ModCharNotTildeMod(s, m, c, |Decimal(m)|);
    ModCharNotTilde(s, m, c, |Decimal(m)|);
  }

  lemma ModCharNotTildeMod(s: seq<Byte>, m: Byte, c: Byte, d: nat)
    requires ModCharShape(s, LeftBracket, m, c, d) && !IsDigit(c) && c != Tilde
    ensures ScanSpec(s, CsiTildeModFormat).status == BadMatch
  {
    var f := CsiTildeModFormat;
    assert DecimalAt(s, 2, 1) by { assert s[2..3] == Decimal(1); }
    Introducer(s, f);
    StepParameter(s, f, 2, 2, [], 1);
    assert [] + [1] == [1];
    StepVerbatim(s, f, 3, 4, [1]);
    StepParameter(s, f, 4, 5, [1], m);
    Mismatch(s, f, 4 + d, 7, [1] + [m]);
  }

  lemma ModCharNotTilde(s: seq<Byte>, m: Byte, c: Byte, d: nat)
    requires ModCharShape(s, LeftBracket, m, c, d)
    ensures ScanSpec(s, CsiTildeFormat).status == BadMatch
  {
    var f := CsiTildeFormat;
    assert DecimalAt(s, 2, 1) by { assert s[2..3] == Decimal(1); }
    Introducer(s, f);
    StepParameter(s, f, 2, 2, [], 1);
    Mismatch(s, f, 3, 4, [] + [1]);
  }

  /** Both modifier-then-character formats read their shape. */
  lemma ScanModCharShape(s: seq<Byte>, f: seq<Byte>, intro: Byte, m: Byte, c: Byte, d: nat)
    requires ModCharShape(s, intro, m, c, d) && !IsDigit(c) && intro != Percent
    requires f == [Esc, intro, Digit1, Semicolon, Percent, LetterP, Percent, LetterC]
    ensures ScanSpec(s, f) == Scan(ScanOk, |s|, [m, c])
  {
    Introducer(s, f);
    StepVerbatim(s, f, 2, 2, []);
    StepVerbatim(s, f, 3, 3, []);
    ScanParamChar(s, f, 4, 4, m, c, d);
  }

  /** The `%p%c` tail shared by the modifier-then-character formats. */
  lemma ScanParamChar(s: seq<Byte>, fmt: seq<Byte>, i: nat, f: nat, m: Byte, c: Byte, d: nat)
    requires |fmt| == f + 4 && fmt[f..] == [Percent, LetterP, Percent, LetterC]
    requires d == |Decimal(m)| && |s| == i + d + 1 && DecimalAt(s, i, m) && s[i + d] == c && !IsDigit(c)
    ensures ScanFrom(s, fmt, i, f, []) == Scan(ScanOk, |s|, [m, c])
  {
    assert fmt[f] == Percent && fmt[f + 1] == LetterP && fmt[f + 2] == Percent && fmt[f + 3] == LetterC;
    StepParameter(s, fmt, i, f, [], m);
    assert [] + [m] == [m];
    StepCharacter(s, fmt, i + d, f + 2, [m]);
    assert [m] + [s[i + d]] == [m, c];
  }

  lemma ScanCsiModChar(m: Byte, c: Byte)
    requires !IsDigit(c)
    ensures var s := Spell(CsiModChar(m, c));
      ScanSpec(s, CsiModCharFormat) == Scan(ScanOk, |s|, [m, c])
  {
    SpellCsiModChar(m, c);
    ScanModCharShape(Spell(CsiModChar(m, c)), CsiModCharFormat, LeftBracket, m, c, |Decimal(m)|);
  }

  lemma ScanSs3ModChar(m: Byte, c: Byte)
    requires !IsDigit(c)
    ensures var s := Spell(Ss3ModChar(m, c));
      ScanSpec(s, Ss3ModCharFormat) == Scan(ScanOk, |s|, [m, c])
  {
    SpellSs3ModChar(m, c);
    ScanModCharShape(Spell(Ss3ModChar(m, c)), Ss3ModCharFormat, LetterO, m, c, |Decimal(m)|);
  }

  // SS3 m c

  predicate ParamCharShape(s: seq<Byte>, m: Byte, c: Byte, d: nat)
  {
    d == |Decimal(m)| && |s| == 3 + d &&
    s[0] == Esc && s[1] == LetterO && DecimalAt(s, 2, m) && s[2 + d] == c
  }

  lemma SpellSs3ParamChar(m: Byte, c: Byte)
    ensures ParamCharShape(Spell(Ss3ParamChar(m, c)), m, c, |Decimal(m)|)
  {
    Middle([Esc, LetterO], Decimal(m), [c]);
  }

  /** Konsole's form is too short for gnome's. */
  lemma Ss3ParamCharNotMod(m: Byte, c: Byte)
    ensures !FullMatch(Spell(Ss3ParamChar(m, c)), Patterns[3])
  {
    var s := Spell(Ss3ParamChar(m, c));
    var f := Ss3ModCharFormat;
    assert |s| >= 4;
    Introducer(s, f);
    if s[2] != Digit1 {
      Mismatch(s, f, 2, 2, []);
    } else {
      StepVerbatim(s, f, 2, 2, []);
      if s[3] != Semicolon {
        Mismatch(s, f, 3, 3, []);
      } else {
        StepVerbatim(s, f, 3, 3, []);
        OutOfInput(s, f, 4, 4, []);
      }
    }
  }

  lemma ScanParamCharShape(s: seq<Byte>, m: Byte, c: Byte, d: nat)
    requires ParamCharShape(s, m, c, d) && !IsDigit(c)
    ensures ScanSpec(s, Ss3ParamCharFormat) == Scan(ScanOk, |s|, [m, c])
  {
    var f := Ss3ParamCharFormat;
    Introducer(s, f);
    ScanParamChar(s, f, 2, 2, m, c, d);
  }

  lemma ScanSs3ParamChar(m: Byte, c: Byte)
    requires !IsDigit(c)
    ensures var s := Spell(Ss3ParamChar(m, c));
      ScanSpec(s, Ss3ParamCharFormat) == Scan(ScanOk, |s|, [m, c])
  {
    SpellSs3ParamChar(m, c);
    ScanParamCharShape(Spell(Ss3ParamChar(m, c)), m, c, |Decimal(m)|);
  }

  /** A lone CSI final character is no parameter form. */
  lemma CsiCharNotParameter(c: Byte)
    ensures !FullMatch(Spell(CsiChar(c)), Patterns[0])
    ensures !FullMatch(Spell(CsiChar(c)), Patterns[1])
    ensures !FullMatch(Spell(CsiChar(c)), Patterns[2])
  {
    var s := Spell(CsiChar(c));
    Introducer(s, CsiTildeModFormat);
    LastByteParameter(s, CsiTildeModFormat, 2, 2, []);
    Introducer(s, CsiTildeFormat);
    LastByteParameter(s, CsiTildeFormat, 2, 2, []);
    Introducer(s, CsiModCharFormat);
    if c == Digit1 {
      StepVerbatim(s, CsiModCharFormat, 2, 2, []);
      OutOfInput(s, CsiModCharFormat, 3, 3, []);
    } else {
      Mismatch(s, CsiModCharFormat, 2, 2, []);
    }
  }

  lemma ScanCsiChar(c: Byte)
    ensures ScanSpec(Spell(CsiChar(c)), CsiCharFormat) == Scan(ScanOk, 3, [c])
  {
    var s := Spell(CsiChar(c));
    Introducer(s, CsiCharFormat);
    StepCharacter(s, CsiCharFormat, 2, 2, []);
    assert [] + [s[2]] == [c];
  }

  /** A lone SS3 final character is no parameter form. */
  lemma Ss3CharNotParameter(c: Byte)
    ensures !FullMatch(Spell(Ss3Char(c)), Patterns[3])
    ensures !FullMatch(Spell(Ss3Char(c)), Patterns[4])
  {
    Ss3CharNotMod([Esc, LetterO, c]);
    Ss3CharNotParam([Esc, LetterO, c]);
  }

  lemma Ss3CharNotMod(s: seq<Byte>)
    requires |s| == 3 && s[0] == Esc && s[1] == LetterO
    ensures ScanSpec(s, Ss3ModCharFormat).status != ScanOk
  {
    Introducer(s, Ss3ModCharFormat);
    if s[2] == Digit1 {
      StepVerbatim(s, Ss3ModCharFormat, 2, 2, []);
      OutOfInput(s, Ss3ModCharFormat, 3, 3, []);
    } else {
      Mismatch(s, Ss3ModCharFormat, 2, 2, []);
    }
  }

  lemma Ss3CharNotParam(s: seq<Byte>)
    requires |s| == 3 && s[0] == Esc && s[1] == LetterO
    ensures ScanSpec(s, Ss3ParamCharFormat).status != ScanOk
  {
    Introducer(s, Ss3ParamCharFormat);
    LastByteParameter(s, Ss3ParamCharFormat, 2, 2, []);
  }

  lemma ScanSs3Char(c: Byte)
    ensures ScanSpec(Spell(Ss3Char(c)), Ss3CharFormat) == Scan(ScanOk, 3, [c])
  {
    var s := Spell(Ss3Char(c));
    Introducer(s, Ss3CharFormat);
    StepCharacter(s, Ss3CharFormat, 2, 2, []);
    assert [] + [s[2]] == [c];
  }

  // ---------------------------------------------------------------------------
  // Where sequences are filed
  // ---------------------------------------------------------------------------

  /** A CSI `~` form goes to slot `k - 1` when that is in the key table, to the store otherwise. */
  lemma RouteCsiTilde(k: Byte, mod: Byte)
    ensures RouteOf(Spell(CsiTilde(k)), mod) == if 1 <= k <= KeyTableSize then Direct(k - 1) else Store
  {
    MatchCsiTilde(k);
  }

  /**
   * A modifier-then-character form goes to the slot of its final character
   * only when asked for the modifier it spells (its parameter less one); a
   * parameter of 255 reads as "no modifier" and matches any request.
   */
  lemma RouteCsiModChar(m: Byte, c: Byte, mod: Byte)
    requires !IsDigit(c) && c != Tilde
    ensures RouteOf(Spell(CsiModChar(m, c)), mod) ==
      if c < KeyTableSize && (m == Unset || m as int - 1 == mod as int) then Direct(c) else Store
  {
    MatchCsiModChar(m, c);
  }

  /** The keycode assertion holds exactly when the decoded keycode is not 255. */
  lemma AssertsHoldSpell(q: KeySequence)
    requires Unambiguous(q)
    ensures AssertsHold(Spell(q)) <==> Meant(q).keycode != Unset
  {
    MatchSpell(q);
  }

  /** xterm's Control+Up, `ESC [ 1 ; 5 A`: slot 'A' for Control, the store for no modifier. */
  lemma ControlUpScenario()
    ensures RouteOf([Esc, LeftBracket, Digit1, Semicolon, 0x35, 0x41], ModControl) == Direct(0x41)
    ensures RouteOf([Esc, LeftBracket, Digit1, Semicolon, 0x35, 0x41], 0) == Store
  {
    assert Spell(CsiModChar(5, 0x41)) == [Esc, LeftBracket, Digit1, Semicolon, 0x35, 0x41];
    RouteCsiModChar(5, 0x41, ModControl);
    RouteCsiModChar(5, 0x41, 0);
  }

  /** `ESC [ 5 ~` (Page Up) goes to slot 4; `ESC [ 200 ~` is past the key table. */
  lemma CsiTildeScenarios()
    ensures RouteOf([Esc, LeftBracket, 0x35, Tilde], 0) == Direct(4)
    ensures RouteOf([Esc, LeftBracket, 0x32, 0x30, 0x30, Tilde], 0) == Store
  {
    assert Spell(CsiTilde(5)) == [Esc, LeftBracket, 0x35, Tilde];
    assert Spell(CsiTilde(200)) == [Esc, LeftBracket, 0x32, 0x30, 0x30, Tilde];
    RouteCsiTilde(5, 0);
    RouteCsiTilde(200, 0);
  }

  /** `ESC [ 0 ~` decodes to keycode 255, which the assertion refuses. */
  lemma ZeroParameterScenario()
    ensures !AssertsHold([Esc, LeftBracket, Digit0, Tilde])
  {
    assert Spell(CsiTilde(0)) == [Esc, LeftBracket, Digit0, Tilde];
    MatchCsiTilde(0);
  }

  /** No pattern matches a sequence of one or two bytes: e.g. "A" goes to the store. */
  lemma ShortSequenceStored(s: seq<Byte>, mod: Byte)
    requires 0 < |s| < 3
    ensures Match(s) == None && RouteOf(s, mod) == Store
  {
    forall i | 0 <= i < |Patterns|
      ensures !FullMatch(s, Patterns[i])
    {
      var p := Patterns[i];
      assert 3 <= |p.format| && p.format[0] != Percent && p.format[1] != Percent;
      ShortNoMatch(s, p.format);
    }
    MatchFromSkip(s, 0, 6);
  }

  lemma ShortNoMatch(s: seq<Byte>, fmt: seq<Byte>)
    requires |s| < 3 && 3 <= |fmt| && fmt[0] != Percent && fmt[1] != Percent
    ensures ScanSpec(s, fmt).status != ScanOk
  {
    if |s| == 0 {
      OutOfInput(s, fmt, 0, 0, []);
    } else if s[0] != fmt[0] {
      Mismatch(s, fmt, 0, 0, []);
    } else {
      StepVerbatim(s, fmt, 0, 0, []);
      if |s| == 1 {
        OutOfInput(s, fmt, 1, 1, []);
      } else if s[1] != fmt[1] {
        Mismatch(s, fmt, 1, 1, []);
      } else {
        StepVerbatim(s, fmt, 1, 1, []);
        OutOfInput(s, fmt, 2, 2, []);
      }
    }
  }

  // ---------------------------------------------------------------------------
  // What a call does to the two tables
  // ---------------------------------------------------------------------------

  /** The invariant of `struct info_base`: a full key table and a consistent store. */
  predicate Invariant(st: BaseState)
  {
    |st.keys| == KeyTableSize && st.table.size % BlockSize == 0 && Used(st.table) <= st.table.size &&
    forall e :: e in st.table.entries ==> WellFormed(e)
  }

  lemma InitialInvariant()
    ensures Invariant(InitialBase())
  {
  }

  lemma StepPreservesInvariant(st: BaseState, s: seq<Byte>, key: Byte, mod: Byte, limit: nat)
    requires Invariant(st)
    ensures Invariant(Step(st, s, key, mod, limit).1)
  {
    if RouteOf(s, mod) == Store {
      AddSpecGrowth(st.table, s, key, mod, limit);
    }
  }

  /**
   * The direct path: a slot holding a different key is a collision and
   * changes nothing; otherwise the slot takes the key and nothing else
   * changes.
   */
  lemma StepDirect(st: BaseState, s: seq<Byte>, key: Byte, mod: Byte, limit: nat, k: nat)
    requires |st.keys| == KeyTableSize && RouteOf(s, mod) == Direct(k)
    ensures k < KeyTableSize
    ensures var (status, st') := Step(st, s, key, mod, limit);
      (status == KeyCollision <==> st.keys[k] != Unset && st.keys[k] != key) &&
      (status == KeyCollision ==> st' == st) &&
      (status != KeyCollision ==> status == Ok && st' == BaseState(st.keys[k := key], st.table))
  {
  }

  /** Filing a sequence again through the direct path, for the same key, changes nothing. */
  lemma StepDirectIdempotent(st: BaseState, s: seq<Byte>, key: Byte, mod: Byte, limit: nat)
    requires |st.keys| == KeyTableSize && RouteOf(s, mod).Direct?
    requires Step(st, s, key, mod, limit).0 == Ok
    ensures var st' := Step(st, s, key, mod, limit).1;
      Step(st', s, key, mod, limit) == (Ok, st')
  {
    var k := RouteOf(s, mod).slot;
    StepDirect(st, s, key, mod, limit, k);
    var st' := Step(st, s, key, mod, limit).1;
    assert st'.keys[k] == key;
    assert st'.keys[k := key] == st'.keys;
  }

  /**
   * The store path leaves the key table alone, never reports a collision,
   * and changes nothing when it fails.
   */
  lemma StepStore(st: BaseState, s: seq<Byte>, key: Byte, mod: Byte, limit: nat)
    requires |st.keys| == KeyTableSize && RouteOf(s, mod) == Store
    ensures var (status, st') := Step(st, s, key, mod, limit);
      st'.keys == st.keys && status != KeyCollision && (status != Ok ==> st' == st)
  {
    AddSpecFailureUnchanged(st.table, s, key, mod, limit);
  }

  /**
   * On success the store path appends the sequence as one more record, even
   * when an equal record is already there.
   */
  lemma StepStoreAppends(st: BaseState, s: seq<Byte>, key: Byte, mod: Byte, limit: nat)
    requires Invariant(st) && RouteOf(s, mod) == Store
    ensures var (status, st') := Step(st, s, key, mod, limit);
      status == Ok ==>
        st'.table.entries == st.table.entries + [Entry(HeaderSize + |s|, key, mod, Strncpy(s))]
  {
    AddSpecGrowth(st.table, s, key, mod, limit);
  }
}
