/**
 * The ChaCha stream cipher of `chacha/chacha.h`: the quarter round of
 * section 2.1 of RFC 8439, the state layout and block function of section 2.3
 * (with a configurable number of rounds; the cipher uses 12, not the RFC's 20)
 * and the XOR encryption of section 2.4.
 *
 * `uint32_t` is `bv32` (additions wrap modulo 2^32, as in C), `uint8_t` is `bv8`.
 */
module ChaCha {

  // ---------------------------------------------------------------------------
  // Word helpers
  // ---------------------------------------------------------------------------

  /** `a + b` on `uint32_t`: addition modulo 2^32. */
  function Add32(a: bv32, b: bv32): bv32 { a + b }

  /** `a ^ b` on `uint32_t`. */
  function Xor32(a: bv32, b: bv32): bv32 { a ^ b }

  /** `a ^ b` on `uint8_t`. */
  function Xor8(a: bv8, b: bv8): bv8 { a ^ b }

  /** `rotate_left_32(v, c)`: shift left by `c mod 32`, or in the bits shifted out. */
  function RotateLeft32(v: bv32, c: bv32): (r: bv32)
    ensures c & 31 == 0 ==> r == v
  {
    var d := c & 31;
    (v << d) | (v >> ((-d) & 31))
  }

  /** Only the low five bits of the amount matter. */
  lemma RotateLeft32Masked(v: bv32, c: bv32)
    ensures RotateLeft32(v, c) == RotateLeft32(v, c & 31)
  {
  }

  /**
   * `rotate_left_32(v, d)` for `d < 8` is the 32-bit rotation `v <<< d` of
   * section 2.1 of RFC 8439; the next three lemmas cover `d < 32`, and
   * `RotateLeft32Masked` reduces any amount to one of those.
   */
  lemma RotateLeft32IsRotation0(v: bv32, d: bv32)
    requires d < 8
    ensures RotateLeft32(v, d) == v.RotateLeft(d as nat)
  {
    if d < 4 { if d == 0 {} else if d == 1 {} else if d == 2 {} else {} }
    else { if d == 4 {} else if d == 5 {} else if d == 6 {} else {} }
  }

  lemma RotateLeft32IsRotation8(v: bv32, d: bv32)
    requires 8 <= d < 16
    ensures RotateLeft32(v, d) == v.RotateLeft(d as nat)
  {
    if d < 12 { if d == 8 {} else if d == 9 {} else if d == 10 {} else {} }
    else { if d == 12 {} else if d == 13 {} else if d == 14 {} else {} }
  }

  lemma RotateLeft32IsRotation16(v: bv32, d: bv32)
    requires 16 <= d < 24
    ensures RotateLeft32(v, d) == v.RotateLeft(d as nat)
  {
    if d < 20 { if d == 16 {} else if d == 17 {} else if d == 18 {} else {} }
    else { if d == 20 {} else if d == 21 {} else if d == 22 {} else {} }
  }

  lemma RotateLeft32IsRotation24(v: bv32, d: bv32)
    requires 24 <= d < 32
    ensures RotateLeft32(v, d) == v.RotateLeft(d as nat)
  {
    if d < 28 { if d == 24 {} else if d == 25 {} else if d == 26 {} else {} }
    else { if d == 28 {} else if d == 29 {} else if d == 30 {} else {} }
  }

  /** The word with little-endian bytes `b0`, `b1`, `b2`, `b3`. */
  function Pack(b0: bv8, b1: bv8, b2: bv8, b3: bv8): bv32
  {
    (b0 as bv32) | ((b1 as bv32) << 8) | ((b2 as bv32) << 16) | ((b3 as bv32) << 24)
  }

  /** `u8_to_u32_le(bytes + at)`. */
  function U8ToU32Le(bytes: seq<bv8>, at: nat): bv32
    requires at + 4 <= |bytes|
  {
    Pack(bytes[at], bytes[at + 1], bytes[at + 2], bytes[at + 3])
  }

  /** The four little-endian bytes of `v` that `u32_to_u8_le` writes. */
  function WordBytes(v: bv32): (r: seq<bv8>)
    ensures |r| == 4
  {
    [(v & 0xff) as bv8, ((v >> 8) & 0xff) as bv8, ((v >> 16) & 0xff) as bv8, ((v >> 24) & 0xff) as bv8]
  }

  lemma PackBytes(b0: bv8, b1: bv8, b2: bv8, b3: bv8)
    ensures WordBytes(Pack(b0, b1, b2, b3)) == [b0, b1, b2, b3]
  {
  }

  /** Reading back the bytes of a word gives the word. */
  lemma BytesOfWordRoundTrip(v: bv32)
    ensures U8ToU32Le(WordBytes(v), 0) == v
  {
  }

  /** Writing out the word read from four bytes gives the bytes. */
  lemma WordOfBytesRoundTrip(bytes: seq<bv8>, at: nat)
    requires at + 4 <= |bytes|
    ensures WordBytes(U8ToU32Le(bytes, at)) == bytes[at..at + 4]
  {
    PackBytes(bytes[at], bytes[at + 1], bytes[at + 2], bytes[at + 3]);
  }

  /** `u32_to_u8_le(out + at, v)`: the four bytes of `v` at `at`, nothing else written. */
  method U32ToU8Le(out: array<bv8>, at: nat, v: bv32)
    requires at + 4 <= out.Length
    modifies out
    ensures out[at..at + 4] == WordBytes(v)
    ensures out[..at] == old(out[..at]) && out[at + 4..] == old(out[at + 4..])
  {
    out[at] := (v & 0xff) as bv8;
    out[at + 1] := ((v >> 8) & 0xff) as bv8;
    out[at + 2] := ((v >> 16) & 0xff) as bv8;
    out[at + 3] := ((v >> 24) & 0xff) as bv8;
  }

  // ---------------------------------------------------------------------------
  // Quarter round (section 2.1 of RFC 8439)
  // ---------------------------------------------------------------------------

  datatype Quad = Quad(a: bv32, b: bv32, c: bv32, d: bv32)

  /**
   * The quarter round of section 2.1 of RFC 8439 on four words: `a += b;
   * d ^= a; d <<<= 16; c += d; b ^= c; b <<<= 12;` and the same again with
   * rotations by 8 and 7 (`<<<` is `RotateLeft32`; the lemmas
   * `RotateLeft32IsRotation0` to `RotateLeft32IsRotation24` show it rotates).
   */
  function QuarterRound(q: Quad): Quad
  {
    var a1 := Add32(q.a, q.b);  var d1 := RotateLeft32(Xor32(q.d, a1), 16);
    var c1 := Add32(q.c, d1);   var b1 := RotateLeft32(Xor32(q.b, c1), 12);
    var a2 := Add32(a1, b1);    var d2 := RotateLeft32(Xor32(d1, a2), 8);
    var c2 := Add32(c1, d2);    var b2 := RotateLeft32(Xor32(b1, c2), 7);
    Quad(a2, b2, c2, d2)
  }

  /** The test vector of section 2.1.1 of RFC 8439. */
  lemma QuarterRoundTestVector()
    ensures QuarterRound(Quad(0x11111111, 0x01020304, 0x9b8d6f43, 0x01234567))
         == Quad(0xea2a92f4, 0xcb1cf8ce, 0x4581472e, 0x5881c4bb)
  {
  }

  predicate Distinct4(a: nat, b: nat, c: nat, d: nat)
  {
    a != b && a != c && a != d && b != c && b != d && c != d
  }

  /** The state `x` after the quarter round on words `a`, `b`, `c`, `d`. */
  function QuarterRoundAt(x: seq<bv32>, a: nat, b: nat, c: nat, d: nat): (r: seq<bv32>)
    requires a < |x| && b < |x| && c < |x| && d < |x|
    ensures |r| == |x|
  {
    var q := QuarterRound(Quad(x[a], x[b], x[c], x[d]));
    x[a := q.a][b := q.b][c := q.c][d := q.d]
  }

  /** `QuarterRoundAt` replaces the four named words by their quarter round and keeps the rest. */
  lemma QuarterRoundAtWords(x: seq<bv32>, a: nat, b: nat, c: nat, d: nat)
    requires a < |x| && b < |x| && c < |x| && d < |x|
    requires Distinct4(a, b, c, d)
    ensures var r := QuarterRoundAt(x, a, b, c, d);
      Quad(r[a], r[b], r[c], r[d]) == QuarterRound(Quad(x[a], x[b], x[c], x[d]))
      && forall i :: 0 <= i < |x| && i != a && i != b && i != c && i != d ==> r[i] == x[i]
  {
  }

  /**
   * The eight statements of `chacha_quarter_round` applied in order to the
   * state `x`, one word at a time; the indices need not be distinct.
   */
  function QuarterRoundSteps(x: seq<bv32>, a: nat, b: nat, c: nat, d: nat): (r: seq<bv32>)
    requires a < |x| && b < |x| && c < |x| && d < |x|
    ensures |r| == |x|
  {
    var x1 := x[a := Add32(x[a], x[b])];
    var x2 := x1[d := RotateLeft32(Xor32(x1[d], x1[a]), 16)];
    var x3 := x2[c := Add32(x2[c], x2[d])];
    var x4 := x3[b := RotateLeft32(Xor32(x3[b], x3[c]), 12)];
    var x5 := x4[a := Add32(x4[a], x4[b])];
    var x6 := x5[d := RotateLeft32(Xor32(x5[d], x5[a]), 8)];
    var x7 := x6[c := Add32(x6[c], x6[d])];
    x7[b := RotateLeft32(Xor32(x7[b], x7[c]), 7)]
  }

  /** On four distinct words the in-place steps are the RFC quarter round. */
  lemma QuarterRoundStepsDistinct(x: seq<bv32>, a: nat, b: nat, c: nat, d: nat)
    requires a < |x| && b < |x| && c < |x| && d < |x|
    requires Distinct4(a, b, c, d)
    ensures QuarterRoundSteps(x, a, b, c, d) == QuarterRoundAt(x, a, b, c, d)
  {
    var a1 := Add32(x[a], x[b]);  var d1 := RotateLeft32(Xor32(x[d], a1), 16);
    var c1 := Add32(x[c], d1);    var b1 := RotateLeft32(Xor32(x[b], c1), 12);
    var a2 := Add32(a1, b1);      var d2 := RotateLeft32(Xor32(d1, a2), 8);
    var c2 := Add32(c1, d2);      var b2 := RotateLeft32(Xor32(b1, c2), 7);
    var x1 := x[a := a1];
    assert x1[d] == x[d] && x1[a] == a1;
    var x2 := x1[d := d1];
    assert x2[c] == x[c] && x2[d] == d1;
    var x3 := x2[c := c1];
    assert x3[b] == x[b] && x3[c] == c1;
    var x4 := x3[b := b1];
    assert x4[a] == a1 && x4[b] == b1;
    var x5 := x4[a := a2];
    assert x5[d] == d1 && x5[a] == a2;
    var x6 := x5[d := d2];
    assert x6[c] == c1 && x6[d] == d2;
    var x7 := x6[c := c2];
    assert x7[b] == b1 && x7[c] == c2;
    assert QuarterRoundSteps(x, a, b, c, d) == x7[b := b2];
    UpdateFourTwice(x, a, b, c, d, a1, b1, c1, d1, a2, b2, c2, d2);
  }

  /** Writing four distinct positions twice leaves only the second writes. */
  lemma UpdateFourTwice<T>(x: seq<T>, a: nat, b: nat, c: nat, d: nat,
                           a1: T, b1: T, c1: T, d1: T, a2: T, b2: T, c2: T, d2: T)
    requires a < |x| && b < |x| && c < |x| && d < |x| && Distinct4(a, b, c, d)
    ensures x[a := a1][d := d1][c := c1][b := b1][a := a2][d := d2][c := c2][b := b2]
         == x[a := a2][b := b2][c := c2][d := d2]
  {
  }

  /**
   * `chacha_quarter_round(x, a, b, c, d)`: the eight updates in order, for any
   * four indices; `QuarterRoundStepsDistinct` says that for four distinct ones
   * this is the RFC quarter round on those words.
   */
  method QuarterRoundInPlace(x: array<bv32>, a: nat, b: nat, c: nat, d: nat)
    requires a < x.Length && b < x.Length && c < x.Length && d < x.Length
    modifies x
    ensures !Distinct4(a, b, c, d) ==> x[..] == QuarterRoundSteps(old(x[..]), a, b, c, d)
    ensures Distinct4(a, b, c, d) ==> x[..] == QuarterRoundAt(old(x[..]), a, b, c, d)
  {
    ghost var x0 := x[..];
    x[a] := Add32(x[a], x[b]);
    x[d] := RotateLeft32(Xor32(x[d], x[a]), 16);
    x[c] := Add32(x[c], x[d]);
    x[b] := RotateLeft32(Xor32(x[b], x[c]), 12);
    x[a] := Add32(x[a], x[b]);
    x[d] := RotateLeft32(Xor32(x[d], x[a]), 8);
    x[c] := Add32(x[c], x[d]);
    x[b] := RotateLeft32(Xor32(x[b], x[c]), 7);
    assert x[..] == QuarterRoundSteps(x0, a, b, c, d);
    if Distinct4(a, b, c, d) {
      QuarterRoundStepsDistinct(x0, a, b, c, d);
    }
  }

  // ---------------------------------------------------------------------------
  // Block function (section 2.3 of RFC 8439)
  // ---------------------------------------------------------------------------

  /** A word position in the 16-word state. */
  type Idx = i: nat | i < 16

  /** The four word positions one quarter round works on. */
  datatype Lanes = Lanes(a: Idx, b: Idx, c: Idx, d: Idx)

  /**
   * The eight quarter rounds of a double round: first down the four columns
   * of the 4x4 state, then along its four diagonals.
   */
  const DoubleRoundLanes: seq<Lanes> :=
    [Lanes(0, 4, 8, 12), Lanes(1, 5, 9, 13), Lanes(2, 6, 10, 14), Lanes(3, 7, 11, 15),
     Lanes(0, 5, 10, 15), Lanes(1, 6, 11, 12), Lanes(2, 7, 8, 13), Lanes(3, 4, 9, 14)]

  /** Each quarter round of a double round works on four distinct words. */
  lemma DoubleRoundLanesDistinct(k: nat)
    requires k < 8
    ensures var l := DoubleRoundLanes[k]; Distinct4(l.a, l.b, l.c, l.d)
  {
  }

  /** The quarter rounds of `ls` applied to `x` in order. */
  function Rounds(x: seq<bv32>, ls: seq<Lanes>): (r: seq<bv32>)
    requires |x| == 16
    ensures |r| == 16
    decreases |ls|
  {
    if ls == [] then x
    else Rounds(QuarterRoundAt(x, ls[0].a, ls[0].b, ls[0].c, ls[0].d), ls[1..])
  }

  /** Quarter rounds `A` and then `B` are quarter rounds `A + B`. */
  lemma {:induction false} RoundsAppend(x: seq<bv32>, A: seq<Lanes>, B: seq<Lanes>)
    requires |x| == 16
    ensures Rounds(x, A + B) == Rounds(Rounds(x, A), B)
    decreases |A|
  {
    if A == [] {
      assert A + B == B;
    } else {
      assert (A + B)[0] == A[0] && (A + B)[1..] == A[1..] + B;
      RoundsAppend(QuarterRoundAt(x, A[0].a, A[0].b, A[0].c, A[0].d), A[1..], B);
    }
  }

  /** A column round followed by a diagonal round (section 2.3 of RFC 8439). */
  function DoubleRound(x: seq<bv32>): (r: seq<bv32>)
    requires |x| == 16
    ensures |r| == 16
  {
    Rounds(x, DoubleRoundLanes)
  }

  /** The quarter rounds of `k` double rounds (2k rounds), in order. */
  function Schedule(k: nat): (r: seq<Lanes>)
    ensures |r| == 8 * k
  {
    if k == 0 then [] else DoubleRoundLanes + Schedule(k - 1)
  }

  /** `k` double rounds are one double round followed by `k - 1` more. */
  lemma ScheduleStep(x: seq<bv32>, k: nat)
    requires |x| == 16 && k > 0
    ensures Rounds(x, Schedule(k)) == Rounds(DoubleRound(x), Schedule(k - 1))
  {
    RoundsAppend(x, DoubleRoundLanes, Schedule(k - 1));
  }

  /** The word-wise sum of two states. */
  function AddStates(x: seq<bv32>, y: seq<bv32>): (r: seq<bv32>)
    requires |x| == 16 && |y| == 16
    ensures |r| == 16 && forall i :: 0 <= i < 16 ==> r[i] == Add32(x[i], y[i])
  {
    seq(16, i requires 0 <= i < 16 => Add32(x[i], y[i]))
  }

  /** The little-endian serialisation of a sequence of words. */
  function Serialize(ws: seq<bv32>): (r: seq<bv8>)
    ensures |r| == 4 * |ws|
  {
    if ws == [] then [] else Serialize(ws[..|ws| - 1]) + WordBytes(ws[|ws| - 1])
  }

  /** Byte `p` of the serialisation is byte `p mod 4` of word `p / 4`. */
  lemma {:induction false} SerializeIndex(ws: seq<bv32>, p: nat)
    requires p < 4 * |ws|
    ensures Serialize(ws)[p] == WordBytes(ws[p / 4])[p % 4]
  {
    var last := |ws| - 1;
    if p < 4 * last {
      SerializeIndex(ws[..last], p);
    }
  }

  /** A prefix is the shorter prefix followed by the slice between them. */
  lemma PrefixSplit<T>(s: seq<T>, a: nat, b: nat)
    requires a <= b <= |s|
    ensures s[..b] == s[..a] + s[a..b]
  {
  }

  /** Serialising one more word appends its four bytes. */
  lemma SerializeSnoc(ws: seq<bv32>, j: nat)
    requires j < |ws|
    ensures Serialize(ws[..j + 1]) == Serialize(ws[..j]) + WordBytes(ws[j])
  {
    assert ws[..j + 1][..j] == ws[..j];
  }

  /** Doing quarter round `k` of a double round leaves the ones after it. */
  lemma LaneStep(s: seq<bv32>, t: seq<bv32>, k: nat, a: Idx, b: Idx, c: Idx, d: Idx)
    requires |s| == 16 && k < 8 && DoubleRoundLanes[k] == Lanes(a, b, c, d)
    requires t == QuarterRoundAt(s, a, b, c, d)
    ensures Rounds(s, DoubleRoundLanes[k..]) == Rounds(t, DoubleRoundLanes[k + 1..])
  {
    var ls := DoubleRoundLanes[k..];
    assert ls[0] == Lanes(a, b, c, d) && ls[1..] == DoubleRoundLanes[k + 1..];
  }

  /** The first four statements of the loop body of `chacha_n`: the column round. */
  method ColumnRoundInPlace(x: array<bv32>)
    requires x.Length == 16
    modifies x
    ensures Rounds(old(x[..]), DoubleRoundLanes[0..]) == Rounds(x[..], DoubleRoundLanes[4..])
  {
    ghost var s0 := x[..];
    QuarterRoundInPlace(x, 0, 4, 8, 12);
    LaneStep(s0, x[..], 0, 0, 4, 8, 12);
    ghost var s1 := x[..];
    QuarterRoundInPlace(x, 1, 5, 9, 13);
    LaneStep(s1, x[..], 1, 1, 5, 9, 13);
    ghost var s2 := x[..];
    QuarterRoundInPlace(x, 2, 6, 10, 14);
    LaneStep(s2, x[..], 2, 2, 6, 10, 14);
    ghost var s3 := x[..];
    QuarterRoundInPlace(x, 3, 7, 11, 15);
    LaneStep(s3, x[..], 3, 3, 7, 11, 15);
  }

  /** The last four statements of the loop body of `chacha_n`: the diagonal round. */
  method DiagonalRoundInPlace(x: array<bv32>)
    requires x.Length == 16
    modifies x
    ensures Rounds(old(x[..]), DoubleRoundLanes[4..]) == Rounds(x[..], DoubleRoundLanes[8..])
  {
    ghost var s4 := x[..];
    QuarterRoundInPlace(x, 0, 5, 10, 15);
    LaneStep(s4, x[..], 4, 0, 5, 10, 15);
    ghost var s5 := x[..];
    QuarterRoundInPlace(x, 1, 6, 11, 12);
    LaneStep(s5, x[..], 5, 1, 6, 11, 12);
    ghost var s6 := x[..];
    QuarterRoundInPlace(x, 2, 7, 8, 13);
    LaneStep(s6, x[..], 6, 2, 7, 8, 13);
    ghost var s7 := x[..];
    QuarterRoundInPlace(x, 3, 4, 9, 14);
    LaneStep(s7, x[..], 7, 3, 4, 9, 14);
  }

  /** One double round in place: the loop body of `chacha_n`. */
  method DoubleRoundInPlace(x: array<bv32>)
    requires x.Length == 16
    modifies x
    ensures x[..] == DoubleRound(old(x[..]))
  {
    assert DoubleRoundLanes[0..] == DoubleRoundLanes;
    ColumnRoundInPlace(x);
    DiagonalRoundInPlace(x);
    assert DoubleRoundLanes[8..] == [];
  }

  /**
   * The keystream block of the state `x` with `k` double rounds (2k rounds):
   * the rounds done on a copy, `x` added word-wise, the words stored
   * little-endian.
   */
  function Block(k: nat, x: seq<bv32>): (r: seq<bv8>)
    requires |x| == 16
    ensures |r| == 64
  {
    Serialize(AddStates(Rounds(x, Schedule(k)), x))
  }

  /**
   * `chacha_n(n, out_stream, state)`: `n/2` double rounds on a copy of the
   * state, the input state added word-wise, 64 bytes out little-endian.
   */
  method BlockN(n: int, outStream: array<bv8>, state: seq<bv32>)
    requires 8 <= n <= 20 && n % 2 == 0
    requires outStream.Length == 64 && |state| == 16
    modifies outStream
    ensures outStream[..] == Block(n / 2, state)
  {
    var x := new bv32[16];
    forall i | 0 <= i < 16 {
      x[i] := state[i];
    }
    ghost var xs := x[..];
    assert xs == state;
    ghost var half := n / 2;
    ghost var done := 0;
    var i := n;
    while i > 0
      invariant 0 <= done <= half && i == 2 * (half - done)
      invariant xs == x[..] && |xs| == 16
      invariant Rounds(xs, Schedule(half - done)) == Rounds(state, Schedule(half))
    {
      ScheduleStep(xs, half - done);
      DoubleRoundInPlace(x);
      xs := DoubleRound(xs);
      i := i - 2;
      done := done + 1;
    }
    AddInPlace(x, state);
    StoreWords(outStream, x);
  }

  /** The second loop of `chacha_n`: the input state added word by word. */
  method AddInPlace(x: array<bv32>, state: seq<bv32>)
    requires x.Length == 16 && |state| == 16
    modifies x
    ensures x[..] == AddStates(old(x[..]), state)
  {
    ghost var mixed := x[..];
    for j := 0 to 16
      invariant forall k :: 0 <= k < j ==> x[k] == Add32(mixed[k], state[k])
      invariant forall k :: j <= k < 16 ==> x[k] == mixed[k]
    {
      x[j] := Add32(x[j], state[j]);
    }
  }

  /** The last loop of `chacha_n`: each word stored little-endian at `4 * i`. */
  method StoreWords(out: array<bv8>, x: array<bv32>)
    requires out.Length == 4 * x.Length
    modifies out
    ensures out[..] == Serialize(x[..])
  {
    for j := 0 to x.Length
      invariant out[..4 * j] == Serialize(x[..j])
    {
      ghost var done := Serialize(x[..j]);
      U32ToU8Le(out, 4 * j, x[j]);
      PrefixSplit(out[..], 4 * j, 4 * j + 4);
      SerializeSnoc(x[..], j);
      assert x[..][..j] == x[..j] && x[..][..j + 1] == x[..j + 1];
      assert out[..4 * j + 4] == done + WordBytes(x[j]);
    }
    assert x[..x.Length] == x[..];
  }

  // ---------------------------------------------------------------------------
  // State layout and stream (sections 2.3 and 2.4 of RFC 8439)
  // ---------------------------------------------------------------------------

  /** `sigma`: the bytes of "expand 32-byte k". */
  const Sigma: seq<bv8> := [0x65, 0x78, 0x70, 0x61, 0x6e, 0x64, 0x20, 0x33,
                            0x32, 0x2d, 0x62, 0x79, 0x74, 0x65, 0x20, 0x6b]

  /** The state `chacha_xinit` builds from a 256-bit key and a 96-bit nonce. */
  function InitialState(key: seq<bv8>, iv: seq<bv8>): (r: seq<bv32>)
    requires |key| == 32 && |iv| == 12
    ensures |r| == 16
  {
    [U8ToU32Le(Sigma, 0), U8ToU32Le(Sigma, 4), U8ToU32Le(Sigma, 8), U8ToU32Le(Sigma, 12),
     U8ToU32Le(key, 0), U8ToU32Le(key, 4), U8ToU32Le(key, 8), U8ToU32Le(key, 12),
     U8ToU32Le(key, 16), U8ToU32Le(key, 20), U8ToU32Le(key, 24), U8ToU32Le(key, 28),
     0, U8ToU32Le(iv, 0), U8ToU32Le(iv, 4), U8ToU32Le(iv, 8)]
  }

  /**
   * The layout of section 2.3 of RFC 8439, part one: the four constants
   * "expa", "nd 3", "2-by", "te k" and a zero block counter.
   */
  lemma InitialStateConstants(key: seq<bv8>, iv: seq<bv8>)
    requires |key| == 32 && |iv| == 12
    ensures InitialState(key, iv)[..4] == [0x61707865, 0x3320646e, 0x79622d32, 0x6b206574]
    ensures InitialState(key, iv)[12] == 0
  {
  }

  /**
   * Part two: words 4 to 11 are the key, read little-endian
   * (`WordOfBytesRoundTrip` gives the bytes back).
   */
  lemma InitialStateKey(key: seq<bv8>, iv: seq<bv8>)
    requires |key| == 32 && |iv| == 12
    ensures forall i :: 0 <= i < 8 ==> InitialState(key, iv)[4 + i] == U8ToU32Le(key, 4 * i)
  {
  }

  /** Part three: words 13 to 15 are the nonce, read little-endian. */
  lemma InitialStateNonce(key: seq<bv8>, iv: seq<bv8>)
    requires |key| == 32 && |iv| == 12
    ensures forall i :: 0 <= i < 3 ==> InitialState(key, iv)[13 + i] == U8ToU32Le(iv, 4 * i)
  {
  }

  /** `state[12] += 1`: the block counter advanced by one, modulo 2^32. */
  function NextBlock(x: seq<bv32>): (r: seq<bv32>)
    requires |x| == 16
    ensures |r| == 16
  {
    x[12 := Add32(x[12], 1)]
  }

  /** The state after `k` blocks. */
  function Advance(x: seq<bv32>, k: nat): (r: seq<bv32>)
    requires |x| == 16
    ensures |r| == 16
  {
    if k == 0 then x else NextBlock(Advance(x, k - 1))
  }

  /** Advancing changes only the block counter: key, constants and nonce stay. */
  lemma {:induction false} AdvanceKeepsKey(x: seq<bv32>, k: nat)
    requires |x| == 16
    ensures forall i :: 0 <= i < 16 && i != 12 ==> Advance(x, k)[i] == x[i]
  {
    if k > 0 {
      AdvanceKeepsKey(x, k - 1);
    }
  }

  /**
   * The keystream of `blocks` consecutive 12-round blocks starting at state
   * `x`: byte `p` is byte `p mod 64` of the block of counter step `p / 64`.
   */
  function KeyStream(x: seq<bv32>, blocks: nat): (r: seq<bv8>)
    requires |x| == 16
    ensures |r| == 64 * blocks
  {
    seq(64 * blocks, p requires 0 <= p < 64 * blocks => Block(6, Advance(x, p / 64))[p % 64])
  }

  /** Byte-wise exclusive or of the keystream `k` into `p`. */
  function XorBytes(k: seq<bv8>, p: seq<bv8>): (r: seq<bv8>)
    requires |k| >= |p|
    ensures |r| == |p| && forall i :: 0 <= i < |p| ==> r[i] == Xor8(k[i], p[i])
  {
    seq(|p|, i requires 0 <= i < |p| => Xor8(k[i], p[i]))
  }

  lemma XorTwice(b: bv8, a: bv8)
    ensures Xor8(b, Xor8(b, a)) == a
  {
  }

  /** XOR with the same keystream twice gives the input back. */
  lemma XorInvolution(k: seq<bv8>, p: seq<bv8>)
    requires |k| >= |p|
    ensures XorBytes(k, XorBytes(k, p)) == p
  {
    forall i | 0 <= i < |p| ensures Xor8(k[i], Xor8(k[i], p[i])) == p[i] {
      XorTwice(k[i], p[i]);
    }
  }

  /** The number of 64-byte blocks needed for `n` bytes. */
  function BlocksFor(n: nat): (b: nat)
    ensures 64 * b >= n && (b == 0 || 64 * (b - 1) < n)
  {
    (n + 63) / 64
  }

  /**
   * The loop counter of `chacha_xor` after one block, as written: `m -= 64`
   * on a `size_t`, which wraps when fewer than 64 bytes remain.
   */
  function RemainingAfterBlockAsWritten(m: nat): nat
    requires m < 0x1_0000_0000_0000_0000
  {
    (m - 64) % 0x1_0000_0000_0000_0000
  }

  /**
   * For a length that is not a multiple of 64 the counter never reaches 0
   * after the last, partial block: the loop goes on to write past `out + n`.
   */
  lemma RemainingAfterBlockAsWrittenNeverStops(m: nat)
    requires 0 < m < 64
    ensures RemainingAfterBlockAsWritten(m) > 0
    ensures RemainingAfterBlockAsWritten(m) == 0x1_0000_0000_0000_0000 - 64 + m
  {
  }

  /** Two sequences that agree from `a` on agree from any later `b` on. */
  lemma SuffixEq<T>(s: seq<T>, t: seq<T>, a: nat, b: nat)
    requires a <= b <= |s| && |s| == |t| && s[a..] == t[a..]
    ensures s[b..] == t[b..]
  {
    assert s[b..] == s[a..][b - a..] && t[b..] == t[a..][b - a..];
  }

  /** The keystream of one more block ends with that block. */
  lemma KeyStreamSnoc(x: seq<bv32>, blocks: nat, block: seq<bv8>)
    requires |x| == 16 && block == Block(6, Advance(x, blocks))
    ensures KeyStream(x, blocks + 1) == KeyStream(x, blocks) + block
  {
    var longer := KeyStream(x, blocks + 1);
    var joined := KeyStream(x, blocks) + block;
    forall p | 0 <= p < 64 * (blocks + 1)
      ensures longer[p] == joined[p]
    {
      if p >= 64 * blocks {
        assert p / 64 == blocks && p % 64 == p - 64 * blocks;
      }
    }
  }

  /** The keystream of a single block is that block. */
  lemma KeyStreamOne(x: seq<bv32>)
    requires |x| == 16
    ensures KeyStream(x, 1) == Block(6, x)
  {
    KeyStreamSnoc(x, 0, Block(6, x));
    assert KeyStream(x, 0) == [];
  }

  /** One more block's worth of `len` more bytes XORed with the next keystream block. */
  lemma XorExtend(ks: seq<bv8>, block: seq<bv8>, p: seq<bv8>, done: nat, len: nat, o: seq<bv8>)
    requires |ks| == done && |block| == 64 && len <= 64 && done + len <= |p| && done + len <= |o|
    requires o[..done] == XorBytes(ks, p[..done])
    requires forall k :: done <= k < done + len ==> o[k] == Xor8(block[k - done], p[k])
    ensures o[..done + len] == XorBytes(ks + block, p[..done + len])
  {
    var q := o[..done + len];
    var r := XorBytes(ks + block, p[..done + len]);
    forall k | 0 <= k < done + len
      ensures q[k] == r[k]
    {
      if k < done {
        assert q[k] == o[..done][k];
      }
    }
  }

  /** A block of `len` more bytes, after whole blocks only, needs one more block. */
  lemma BlocksForStep(b: nat, len: nat)
    requires 0 < len <= 64
    ensures BlocksFor(64 * b + len) == b + 1
  {
  }

  /**
   * The ChaCha context, `struct chacha`. Its sixteen state words are stored
   * in the struct itself, so they are a value here.
   */
  class Context {
    var state: seq<bv32>

    ghost predicate Valid()
      reads this
    {
      |state| == 16
    }

    /** A fresh `struct chacha`; its words are meaningless until `XInit`. */
    constructor ()
      ensures Valid()
    {
      state := seq(16, _ => 0);
    }

    /** `chacha_xinit(self, key, iv)`: the state of section 2.3 of RFC 8439 with counter 0. */
    method XInit(key: seq<bv8>, iv: seq<bv8>)
      requires |key| == 32 && |iv| == 12
      modifies this
      ensures Valid() && state == InitialState(key, iv)
    {
      state := [U8ToU32Le(Sigma, 0), U8ToU32Le(Sigma, 4), U8ToU32Le(Sigma, 8), U8ToU32Le(Sigma, 12),
                U8ToU32Le(key, 0), U8ToU32Le(key, 4), U8ToU32Le(key, 8), U8ToU32Le(key, 12),
                U8ToU32Le(key, 16), U8ToU32Le(key, 20), U8ToU32Le(key, 24), U8ToU32Le(key, 28),
                0, U8ToU32Le(iv, 0), U8ToU32Le(iv, 4), U8ToU32Le(iv, 8)];
    }

    /**
     * `chacha_xor(self, n, out, in)`: `out[i] = in[i] ^ keystream[i]` for the
     * first `n` bytes, one 12-round block per 64 bytes, the block counter
     * advanced once per block. The remaining count goes down by the bytes
     * actually used, so a final partial block ends the loop (the source's
     * `m -= 64` does not; see `RemainingAfterBlockAsWritten`). `out` and `in`
     * may be the same array.
     */
    method Xor(n: nat, out: array<bv8>, input: array<bv8>)
      requires Valid() && n <= out.Length && n <= input.Length
      modifies this, out
      ensures Valid()
      ensures out[..n] == XorBytes(KeyStream(old(state), BlocksFor(n)), old(input[..n]))
      ensures out[n..] == old(out[n..])
      ensures state == Advance(old(state), BlocksFor(n))
    {
      ghost var s0 := state;
      ghost var in0 := input[..];
      ghost var out0 := out[..];
      var m := n;
      var done := 0;
      ghost var blocks := 0;
      var stream := new bv8[64];
      while 0 < m
        invariant done + m == n && blocks == BlocksFor(done)
        invariant 0 < m ==> done == 64 * blocks
        invariant Valid() && state == Advance(s0, blocks)
        invariant out[..done] == XorBytes(KeyStream(s0, blocks), in0[..done])
        invariant out[done..] == out0[done..]
        invariant input[done..] == in0[done..]
        decreases m
      {
        var len := if 64 < m then 64 else m;
        ghost var outI, inI := out[..], input[..];
        XorBlock(out, input, stream, done, len, s0, blocks, in0);
        SuffixEq(outI, out0, done, done + len);
        SuffixEq(inI, in0, done, done + len);
        BlocksForStep(blocks, len);
        m := m - len;
        done := done + len;
        blocks := blocks + 1;
      }
      assert done == n && blocks == BlocksFor(n);
      assert in0[..n] == old(input[..n]) && out0[n..] == old(out[n..]);
    }

    /** `chacha_xor(self, 64, out, in)` on 64-byte buffers: one keystream block. */
    method XorWholeBlock(out: array<bv8>, input: array<bv8>)
      requires Valid() && out.Length == 64 && input.Length == 64
      modifies this, out
      ensures Valid() && state == NextBlock(old(state))
      ensures out[..] == XorBytes(KeyStream(old(state), 1), old(input[..]))
    {
      assert BlocksFor(64) == 1;
      Xor(64, out, input);
      assert out[..] == out[..64] && old(input[..]) == old(input[..64]);
    }

    /**
     * One pass of the loop of `chacha_xor`: generate the next block into
     * `stream`, advance the counter and XOR the next `len` bytes with it.
     */
    method XorBlock(out: array<bv8>, input: array<bv8>, stream: array<bv8>, done: nat, len: nat,
                    ghost s0: seq<bv32>, ghost blocks: nat, ghost in0: seq<bv8>)
      requires Valid() && |s0| == 16 && state == Advance(s0, blocks)
      requires stream.Length == 64 && stream != out && stream != input
      requires done == 64 * blocks && 0 < len <= 64 && done + len <= out.Length && done + len <= input.Length
      requires |in0| == input.Length && input[done..] == in0[done..]
      requires out[..done] == XorBytes(KeyStream(s0, blocks), in0[..done])
      modifies this, out, stream
      ensures Valid() && state == Advance(s0, blocks + 1)
      ensures out[..done + len] == XorBytes(KeyStream(s0, blocks + 1), in0[..done + len])
      ensures out[done + len..] == old(out[done + len..])
      ensures input[done + len..] == old(input[done + len..])
    {
      BlockN(12, stream, state);
      ghost var block := stream[..];
      KeyStreamSnoc(s0, blocks, block);
      state := state[12 := Add32(state[12], 1)];
      XorInto(out, input, done, stream, len);
      XorExtend(KeyStream(s0, blocks), block, in0, done, len, out[..]);
    }

    /**
     * The inner loop of `chacha_xor`: `out[at + i] = stream[i] ^ in[at + i]`
     * for `i < len`; `out` and `input` may be the same array.
     */
    static method XorInto(out: array<bv8>, input: array<bv8>, at: nat, stream: array<bv8>, len: nat)
      requires len <= stream.Length && at + len <= out.Length && at + len <= input.Length && stream != out
      modifies out
      ensures out[..at] == old(out[..at]) && out[at + len..] == old(out[at + len..])
      ensures input[at + len..] == old(input[at + len..])
      ensures forall k :: at <= k < at + len ==> out[k] == Xor8(old(stream[k - at]), old(input[k]))
    {
      ghost var in0 := input[..];
      ghost var out0 := out[..];
      ghost var block := stream[..];
      for i := 0 to len
        invariant out[..at] == out0[..at]
        invariant forall k :: at <= k < at + i ==> out[k] == Xor8(block[k - at], in0[k])
        invariant out[at + i..] == out0[at + i..] && input[at + i..] == in0[at + i..]
        invariant stream[..] == block
      {
        assert input[at + i] == input[at + i..][0];
        out[at + i] := Xor8(stream[i], input[at + i]);
        assert out[at + i + 1..] == out[at + i..][1..];
      }
    }

    /** `chacha_erase(self)`: every state word becomes zero. */
    method Erase()
      requires Valid()
      modifies this
      ensures Valid() && forall i :: 0 <= i < 16 ==> state[i] == 0
    {
      for i := 0 to 16
        invariant |state| == 16 && forall k :: 0 <= k < i ==> state[k] == 0
      {
        state := state[i := 0];
      }
    }
  }

  /**
   * The program of `chacha/simple_demo.c`: encrypt a 64-byte message, encrypt
   * it again with the advanced counter, re-initialise and decrypt the first
   * cipher text. The decryption gives the message back.
   */
  method SimpleDemo(key: seq<bv8>, iv: seq<bv8>, secret: seq<bv8>)
    returns (cipherText: seq<bv8>, cipherNext: seq<bv8>, plainText: seq<bv8>)
    requires |key| == 32 && |iv| == 12 && |secret| == 64
    ensures cipherText == XorBytes(KeyStream(InitialState(key, iv), 1), secret)
    ensures cipherNext == XorBytes(KeyStream(NextBlock(InitialState(key, iv)), 1), secret)
    ensures plainText == secret
  {
    var secretBuf := new bv8[64](i requires 0 <= i < 64 => secret[i]);
    var cipherBuf := new bv8[64];
    var nextBuf := new bv8[64];
    var plainBuf := new bv8[64];
    assert secretBuf[..] == secret;
    var chacha := new Context();
    chacha.XInit(key, iv);
    chacha.XorWholeBlock(cipherBuf, secretBuf);
    cipherText := cipherBuf[..];
    chacha.XorWholeBlock(nextBuf, secretBuf);
    cipherNext := nextBuf[..];
    chacha.XInit(key, iv);
    chacha.XorWholeBlock(plainBuf, cipherBuf);
    plainText := plainBuf[..];
    XorInvolution(KeyStream(InitialState(key, iv), 1), secret);
  }
}
