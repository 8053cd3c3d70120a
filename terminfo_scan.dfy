/**
 * `info__scanf` of `load_terminfo.c`: a matcher for formats made of literal
 * bytes and the directives `%c` (one byte), `%p` (a decimal parameter in
 * [0, 255]) and `%%` (a literal '%').
 *
 * The variadic output pointers become the sequence `captures` of the values
 * stored through them, in the order the directives are met. As in C, a
 * failing match leaves the values captured before the failure in place.
 */
module Matcher {
  import opened Basics

  const Percent: Byte := 0x25
  const LetterC: Byte := 0x63
  const LetterP: Byte := 0x70
  const Digit0: Byte := 0x30
  const Digit9: Byte := 0x39

  predicate IsDigit(b: Byte)
  {
    Digit0 <= b <= Digit9
  }

  /** The internal status of `info__scanf`. */
  datatype ScanStatus = ScanOk | BadFormat | BadMatch | BadParameter | ParameterOverflow | StringTooShort

  /** Where a match stopped, why, and what it stored. */
  datatype Scan = Scan(status: ScanStatus, consumed: nat, captures: seq<Byte>)

  /** What `info__scanf` returns: the bytes consumed, or 0 on any failure. */
  function Returned(r: Scan): nat
  {
    if r.status == ScanOk then r.consumed else 0
  }

  /**
   * One element of a format. `Unknown` is a `%` followed by anything but
   * `c`, `p` or `%`: the source asserts it never happens and, in a build
   * without assertions, fails with `STAT_BAD_FORMAT`, which is what the model
   * does.
   */
  datatype Directive = Verbatim(b: Byte) | Character | Parameter | Unknown

  /** The directive at format position `f` and the position after it. */
  function DirectiveAt(fmt: seq<Byte>, f: nat): (Directive, nat)
    requires f < |fmt|
  {
    if fmt[f] != Percent then (Verbatim(fmt[f]), f + 1)
    else if f + 1 < |fmt| && fmt[f + 1] == LetterC then (Character, f + 2)
    else if f + 1 < |fmt| && fmt[f + 1] == LetterP then (Parameter, f + 2)
    else if f + 1 < |fmt| && fmt[f + 1] == Percent then (Verbatim(Percent), f + 2)
    else (Unknown, f)
  }

  /** The outcome of the greedy digit loop of `%p`. */
  datatype Digits = Digits(overflow: bool, value: nat, end: nat)

  /**
   * The `%p` digit loop from position `s` with accumulator `acc`: digits are
   * taken while they last, and the loop stops at the first one that would
   * take the value past 255.
   */
  function ScanDigits(str: seq<Byte>, s: nat, acc: nat): (r: Digits)
    requires s <= |str| && acc <= 255
    decreases |str| - s
    ensures s <= r.end <= |str|
    ensures forall k :: s <= k < r.end ==> IsDigit(str[k])
    ensures !r.overflow ==> r.value <= 255 && (r.end == |str| || !IsDigit(str[r.end]))
    ensures r.overflow ==> r.end < |str| && IsDigit(str[r.end]) && r.value > 255
  {
    if s < |str| && IsDigit(str[s]) then
      var next := acc * 10 + (str[s] - Digit0);
      if 255 < next then Digits(true, next, s) else ScanDigits(str, s + 1, next)
    else Digits(false, acc, s)
  }

  /** The matcher from input position `s` and format position `f`. */
  function ScanFrom(str: seq<Byte>, fmt: seq<Byte>, s: nat, f: nat, caps: seq<Byte>): (r: Scan)
    requires s <= |str| && f <= |fmt|
    decreases |fmt| - f
    ensures s <= r.consumed <= |str|
    ensures |caps| <= |r.captures| && r.captures[..|caps|] == caps
  {
    if f == |fmt| then Scan(ScanOk, s, caps)
    else
      var (d, f') := DirectiveAt(fmt, f);
      if d.Unknown? then Scan(BadFormat, s, caps)
      else if |str| <= s then Scan(StringTooShort, s, caps)
      else match d
        case Verbatim(b) =>
          if str[s] != b then Scan(BadMatch, s, caps) else ScanFrom(str, fmt, s + 1, f', caps)
        case Character =>
          ScanFrom(str, fmt, s + 1, f', caps + [str[s]])
        case Parameter =>
          if !IsDigit(str[s]) then Scan(BadParameter, s, caps)
          else
            var r := ScanDigits(str, s, 0);
            if r.overflow then Scan(ParameterOverflow, r.end, caps)
            else ScanFrom(str, fmt, r.end, f', caps + [r.value])
  }

  function ScanSpec(str: seq<Byte>, fmt: seq<Byte>): Scan
  {
    ScanFrom(str, fmt, 0, 0, [])
  }

  /** The kind of the directive `info__scanf` is matching. */
  datatype MatchType = MatchVerbatim | MatchCharacter | MatchParameter

  /**
   * `info__scanf(string, length, format, ...)`: the number of bytes consumed
   * when the whole format matched, 0 otherwise, and the stored values.
   */
  method Scanf(str: seq<Byte>, fmt: seq<Byte>) returns (n: nat, captures: seq<Byte>)
    ensures n == Returned(ScanSpec(str, fmt)) && n <= |str|
    ensures captures == ScanSpec(str, fmt).captures
  {
    var s, f := 0, 0;
    captures := [];
    while f < |fmt|
      invariant s <= |str| && f <= |fmt|
      invariant ScanFrom(str, fmt, s, f, captures) == ScanSpec(str, fmt)
      decreases |fmt| - f
    {
      ghost var f0 := f;
      var kind := MatchVerbatim;
      var literal := fmt[f];
      if literal == Percent {
        if f + 1 < |fmt| && fmt[f + 1] == LetterC {
          kind := MatchCharacter;
          f := f + 2;
        } else if f + 1 < |fmt| && fmt[f + 1] == LetterP {
          kind := MatchParameter;
          f := f + 2;
        } else if f + 1 < |fmt| && fmt[f + 1] == Percent {
          kind := MatchVerbatim;
          f := f + 2;
        } else {
          return 0, captures;
        }
      } else {
        f := f + 1;
      }
      assert f == DirectiveAt(fmt, f0).1;
      if |str| <= s {
        return 0, captures;
      }
      var poked := str[s];
      match kind {
        case MatchVerbatim =>
          if poked != literal {
            return 0, captures;
          }
          s := s + 1;
        case MatchCharacter =>
          captures := captures + [str[s]];
          s := s + 1;
        case MatchParameter =>
          if poked < Digit0 || Digit9 < poked {
            return 0, captures;
          }
          ghost var s0 := s;
          var result: nat := 0;
          while s < |str| && Digit0 <= str[s] <= Digit9
            invariant s0 <= s <= |str| && result <= 255
            invariant ScanDigits(str, s, result) == ScanDigits(str, s0, 0)
            decreases |str| - s
          {
            result := result * 10 + (str[s] - Digit0);
            if 255 < result {
              return 0, captures;
            }
            s := s + 1;
          }
          captures := captures + [result];
      }
    }
    n := s;
  }

  // ---------------------------------------------------------------------------
  // Properties of the matcher
  // ---------------------------------------------------------------------------

  /** The shortest decimal spelling of a byte value. */
  function Decimal(v: Byte): (r: seq<Byte>)
    ensures 1 <= |r| <= 3 && forall k :: 0 <= k < |r| ==> IsDigit(r[k])
  {
    if v < 10 then [Digit0 + v]
    else if v < 100 then [Digit0 + v / 10, Digit0 + v % 10]
    else [Digit0 + v / 100, Digit0 + v / 10 % 10, Digit0 + v % 10]
  }

  /** The greedy digit loop reads back the decimal spelling of `v`. */
  lemma ScanDecimal(str: seq<Byte>, s: nat, v: Byte)
    requires s + |Decimal(v)| <= |str| && str[s..s + |Decimal(v)|] == Decimal(v)
    requires s + |Decimal(v)| == |str| || !IsDigit(str[s + |Decimal(v)|])
    ensures ScanDigits(str, s, 0) == Digits(false, v, s + |Decimal(v)|)
  {
    var d := Decimal(v);
    assert str[s] == d[0];
    if v < 10 {
      assert ScanDigits(str, s + 1, v) == Digits(false, v, s + 1);
    } else if v < 100 {
      assert str[s + 1] == d[1];
      ScanTwoDigits(str, s, v);
    } else {
      assert str[s + 1] == d[1];
      assert str[s + 2] == d[2];
      ScanThreeDigits(str, s, v);
    }
  }

  lemma ScanTwoDigits(str: seq<Byte>, s: nat, v: Byte)
    requires 10 <= v < 100 && s + 2 <= |str|
    requires str[s] == Digit0 + v / 10 && str[s + 1] == Digit0 + v % 10
    requires s + 2 == |str| || !IsDigit(str[s + 2])
    ensures ScanDigits(str, s, 0) == Digits(false, v, s + 2)
  {
    assert v / 10 * 10 + v % 10 == v;
    assert ScanDigits(str, s + 2, v) == Digits(false, v, s + 2);
    assert ScanDigits(str, s + 1, v / 10) == ScanDigits(str, s + 2, v);
  }

  lemma ScanThreeDigits(str: seq<Byte>, s: nat, v: Byte)
    requires 100 <= v && s + 3 <= |str|
    requires str[s] == Digit0 + v / 100 && str[s + 1] == Digit0 + v / 10 % 10 && str[s + 2] == Digit0 + v % 10
    requires s + 3 == |str| || !IsDigit(str[s + 3])
    ensures ScanDigits(str, s, 0) == Digits(false, v, s + 3)
  {
    var h, t := v / 100, v / 10;
    assert h * 10 + t % 10 == t;
    assert t * 10 + v % 10 == v;
    assert ScanDigits(str, s + 3, v) == Digits(false, v, s + 3);
    assert ScanDigits(str, s + 2, t) == ScanDigits(str, s + 3, v);
    assert ScanDigits(str, s + 1, h) == ScanDigits(str, s + 2, t);
  }

  /** A format whose last directive is not `%p`. */
  predicate EndsWithoutParameter(fmt: seq<Byte>)
  {
    !(|fmt| >= 2 && fmt[|fmt| - 2] == Percent && fmt[|fmt| - 1] == LetterP)
  }

  /** On a prefix that stops inside a digit run, the digit loop stops at the cut. */
  lemma {:induction false} ScanDigitsPrefix(str: seq<Byte>, j: nat, s: nat, acc: nat)
    requires s <= j <= |str| && acc <= 255
    requires !ScanDigits(str, s, acc).overflow
    ensures var r := ScanDigits(str, s, acc);
      var p := ScanDigits(str[..j], s, acc);
      !p.overflow && (r.end <= j ==> p == r) && (r.end > j ==> p.end == j)
    decreases |str| - s
  {
    var p := str[..j];
    if s < |str| && IsDigit(str[s]) {
      var next := acc * 10 + (str[s] - Digit0);
      if next <= 255 && s < j {
        assert p[s] == str[s];
        ScanDigitsPrefix(str, j, s + 1, next);
      }
    }
  }

  /**
   * A full match cannot be cut short: when `str` matches the format from `s`
   * to its very end, no shorter prefix of it matches, unless the format ends
   * in `%p`.
   */
  lemma {:induction false} PrefixDoesNotMatch(str: seq<Byte>, fmt: seq<Byte>, j: nat, s: nat, f: nat, caps: seq<Byte>)
    requires s <= j < |str| && f <= |fmt| && EndsWithoutParameter(fmt)
    requires ScanFrom(str, fmt, s, f, caps).status == ScanOk
    requires ScanFrom(str, fmt, s, f, caps).consumed == |str|
    ensures ScanFrom(str[..j], fmt, s, f, caps).status != ScanOk
    decreases |fmt| - f
  {
    var p := str[..j];
    if f < |fmt| {
      var (d, f') := DirectiveAt(fmt, f);
      if s < j {
        assert p[s] == str[s];
        match d {
          case Verbatim(b) =>
            PrefixDoesNotMatch(str, fmt, j, s + 1, f', caps);
          case Character =>
            PrefixDoesNotMatch(str, fmt, j, s + 1, f', caps + [str[s]]);
          case Parameter =>
            var r := ScanDigits(str, s, 0);
            ScanDigitsPrefix(str, j, s, 0);
            if r.end <= j {
              PrefixDoesNotMatch(str, fmt, j, r.end, f', caps + [r.value]);
            } else {
              assert f' < |fmt|;
            }
          case Unknown =>
        }
      }
    }
  }

  /** Only a match of the whole sequence counts: a strict prefix of it is refused. */
  lemma FullMatchOnly(str: seq<Byte>, fmt: seq<Byte>, j: nat)
    requires 0 < j < |str| && EndsWithoutParameter(fmt)
    requires Returned(ScanSpec(str, fmt)) == |str|
    ensures Returned(ScanSpec(str[..j], fmt)) != j
  {
    PrefixDoesNotMatch(str, fmt, j, 0, 0, []);
  }
}
