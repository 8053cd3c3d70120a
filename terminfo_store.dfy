/**
 * The record store of `load_terminfo.c`: `struct info_table`, an append-only
 * byte arena of `{size, key, mod, string[]}` records grown in 256-byte
 * blocks, and its iterator.
 *
 * The arena pointer becomes a `seq<Byte>` field whose length is `base_size`;
 * the record pointers that `info_table__append` and the iterator hand out
 * become offsets into it. `realloc` is modelled by a heap `limit`: growing
 * the arena to `n` bytes succeeds exactly when `n <= limit`. The bytes a
 * successful `realloc` adds are indeterminate in C; here they are zero, and
 * nothing ever reads them before they are written.
 */
module RecordStore {
  import opened Basics

  datatype Option<T> = None | Some(value: T)

  /** `enum info_status`. */
  datatype InfoStatus = Ok | Bad | KeyCollision | StringTooLong | NoMemory

  /** `sizeof(struct info_entry)`: the `size`, `key` and `mod` header bytes. */
  const HeaderSize: nat := 3
  /** The largest record the one-byte `size` field can describe. */
  const MaxEntrySize: nat := 255
  /** The arena grows to multiples of this many bytes. */
  const BlockSize: nat := 256
  /** `SIZE_MAX + 1` for the 64-bit `size_t` of the host. */
  const SizeModulus: nat := 0x1_0000_0000_0000_0000

  /** One record, as laid out in the arena. */
  datatype Entry = Entry(size: Byte, key: Byte, mod: Byte, bytes: seq<Byte>)

  predicate WellFormed(e: Entry)
  {
    e.size == HeaderSize + |e.bytes|
  }

  function EntryBytes(e: Entry): seq<Byte>
  {
    [e.size, e.key, e.mod] + e.bytes
  }

  /** The used part of an arena holding the records `es`, in order. */
  function Encode(es: seq<Entry>): seq<Byte>
  {
    if es == [] then [] else Encode(es[..|es| - 1]) + EntryBytes(es[|es| - 1])
  }

  lemma EncodeSnoc(es: seq<Entry>, e: Entry)
    ensures Encode(es + [e]) == Encode(es) + EntryBytes(e)
  {
    assert (es + [e])[..|es|] == es;
  }

  /** The records before `k` are encoded in a prefix of the arena. */
  lemma {:induction false} EncodePrefix(es: seq<Entry>, k: nat)
    requires k <= |es|
    ensures |Encode(es[..k])| <= |Encode(es)|
    ensures Encode(es)[..|Encode(es[..k])|] == Encode(es[..k])
  {
    if k < |es| {
      var n := |es| - 1;
      assert es[..n][..k] == es[..k];
      EncodePrefix(es[..n], k);
    } else {
      assert es[..k] == es;
    }
  }

  /** Record `i` sits right after the records before it. */
  lemma EncodeAt(es: seq<Entry>, i: nat)
    requires i < |es|
    ensures var o := |Encode(es[..i])|;
      |Encode(es[..i + 1])| == o + |EntryBytes(es[i])| <= |Encode(es)| &&
      Encode(es)[o..o + |EntryBytes(es[i])|] == EntryBytes(es[i])
  {
    assert es[..i + 1][..i] == es[..i];
    assert es[..i + 1][i] == es[i];
    EncodePrefix(es, i + 1);
  }

  /**
   * `strncpy(dst, src, |src|)`: bytes up to the first NUL are copied and
   * the rest of the destination is NUL-filled.
   */
  function Strncpy(src: seq<Byte>): (r: seq<Byte>)
    ensures |r| == |src|
  {
    if src == [] then []
    else if src[0] == 0 then seq(|src|, _ => 0)
    else [src[0]] + Strncpy(src[1..])
  }

  /** Byte `i` of the copy is NUL once a NUL has been seen, the source byte before. */
  lemma {:induction false} StrncpyBytes(src: seq<Byte>)
    ensures forall i :: 0 <= i < |src| ==> Strncpy(src)[i] == if NulUpTo(src, i) then 0 else src[i]
  {
    if src != [] && src[0] != 0 {
      StrncpyBytes(src[1..]);
      forall i | 1 <= i < |src| ensures NulUpTo(src, i) <==> NulUpTo(src[1..], i - 1) {
        if NulUpTo(src, i) {
          var j :| 0 <= j <= i && src[j] == 0;
          assert src[1..][j - 1] == 0;
        }
      }
    }
  }

  /** A string without NUL bytes is copied verbatim. */
  lemma StrncpyNoNul(src: seq<Byte>)
    requires 0 !in src
    ensures Strncpy(src) == src
  {
    StrncpyBytes(src);
  }

  /** Whether a NUL occurs among the first `i + 1` bytes of `src`. */
  predicate NulUpTo(src: seq<Byte>, i: nat)
    requires i < |src|
  {
    exists j :: 0 <= j <= i && src[j] == 0
  }

  /** `info_entry_get_string_length`: `size - 3`, computed in `size_t`. */
  function StringLength(e: Entry): (n: nat)
    ensures WellFormed(e) ==> n == |e.bytes|
  {
    (e.size - HeaderSize) % SizeModulus
  }

  // ---------------------------------------------------------------------------
  // The abstract state of a table and the effect of `info_table_add`
  // ---------------------------------------------------------------------------

  /** What a table holds: its records and `base_size`. */
  datatype TableState = TableState(entries: seq<Entry>, size: nat)

  /** `base_used`. */
  function Used(t: TableState): nat
  {
    |Encode(t.entries)|
  }

  /** The allocation `info_table__append` needs before adding `entrySize` bytes. */
  function Desired(t: TableState, entrySize: nat): nat
  {
    Align(Used(t) + entrySize, BlockSize)
  }

  /**
   * `info_table_add` on the abstract state: the status and the new state.
   */
  function AddSpec(t: TableState, s: seq<Byte>, key: Byte, mod: Byte, limit: nat): (InfoStatus, TableState)
  {
    var entrySize := HeaderSize + |s|;
    if MaxEntrySize < entrySize then (StringTooLong, t)
    else
      var desired := Desired(t, entrySize);
      if t.size < desired && limit < desired then (NoMemory, t)
      else (Ok, TableState(t.entries + [Entry(entrySize, key, mod, Strncpy(s))],
                           if t.size < desired then desired else t.size))
  }

  /** At most 252 string bytes fit in a record; 253 is rejected. */
  lemma AddSpecTooLong(t: TableState, s: seq<Byte>, key: Byte, mod: Byte, limit: nat)
    ensures AddSpec(t, s, key, mod, limit).0 == StringTooLong <==> |s| > 252
  {
  }

  /** A failed add changes neither the records nor `base_size`. */
  lemma AddSpecFailureUnchanged(t: TableState, s: seq<Byte>, key: Byte, mod: Byte, limit: nat)
    ensures AddSpec(t, s, key, mod, limit).0 != Ok ==> AddSpec(t, s, key, mod, limit).1 == t
  {
  }

  /**
   * A successful add appends exactly one record holding `key`, `mod` and the
   * copied bytes, grows `base_used` by `3 + |s|`, reallocates only when
   * `base_size < align(base_used + entry_size, 256)`, and keeps `base_size` a
   * multiple of 256 that covers `base_used`.
   */
  lemma AddSpecGrowth(t: TableState, s: seq<Byte>, key: Byte, mod: Byte, limit: nat)
    requires t.size % BlockSize == 0 && Used(t) <= t.size
    ensures var (status, t') := AddSpec(t, s, key, mod, limit);
      status == Ok ==>
        t'.entries == t.entries + [Entry(HeaderSize + |s|, key, mod, Strncpy(s))] &&
        Used(t') == Used(t) + HeaderSize + |s| &&
        (t'.size != t.size <==> t.size < Desired(t, HeaderSize + |s|)) &&
        t'.size % BlockSize == 0 && Used(t') <= t'.size
  {
    var (status, t') := AddSpec(t, s, key, mod, limit);
    if status == Ok {
      var e := Entry(HeaderSize + |s|, key, mod, Strncpy(s));
      EncodeSnoc(t.entries, e);
      AlignIdempotent(t.size, BlockSize);
    }
  }

  /** Out of memory is reported exactly when growth is needed and fails. */
  lemma AddSpecNoMemory(t: TableState, s: seq<Byte>, key: Byte, mod: Byte, limit: nat)
    ensures AddSpec(t, s, key, mod, limit).0 == NoMemory <==>
      |s| <= 252 && t.size < Desired(t, HeaderSize + |s|) && limit < Desired(t, HeaderSize + |s|)
  {
  }

  // ---------------------------------------------------------------------------
  // struct info_table
  // ---------------------------------------------------------------------------

  class InfoTable {
    /** The arena; `|base| == baseSize`. */
    var base: seq<Byte>
    var baseSize: nat
    var baseUsed: nat
    /** The records the used part of the arena encodes. */
    ghost var entries: seq<Entry>

    ghost predicate Valid()
      reads this
    {
      |base| == baseSize && baseSize % BlockSize == 0 && baseUsed <= baseSize &&
      (forall e :: e in entries ==> WellFormed(e)) &&
      baseUsed == |Encode(entries)| && base[..baseUsed] == Encode(entries)
    }

    ghost function State(): TableState
      reads this
    {
      TableState(entries, baseSize)
    }

    /** `info_table_initialize`: an empty table with no arena. */
    constructor ()
      ensures Valid() && entries == [] && baseSize == 0 && baseUsed == 0
    {
      base := [];
      baseSize := 0;
      baseUsed := 0;
      entries := [];
    }

    /**
     * `info_table__append`: reserves a record for `length` string bytes and
     * writes its `size` byte; `at` is the offset of the new record.
     */
    method Append(length: nat, limit: nat) returns (status: InfoStatus, at: nat)
      requires |base| == baseSize && baseUsed <= baseSize
      modifies this
      ensures var entrySize := HeaderSize + length;
        var desired := Align(old(baseUsed) + entrySize, BlockSize);
        status == (if MaxEntrySize < entrySize then StringTooLong
                   else if old(baseSize) < desired && limit < desired then NoMemory
                   else Ok) &&
        (status != Ok ==> base == old(base) && baseSize == old(baseSize) && baseUsed == old(baseUsed)) &&
        (status == Ok ==>
          at == old(baseUsed) && baseUsed == at + entrySize &&
          baseSize == (if old(baseSize) < desired then desired else old(baseSize)) &&
          |base| == baseSize && baseUsed <= baseSize &&
          base[..at] == old(base[..baseUsed]) && base[at] == entrySize)
      ensures entries == old(entries)
    {
      at := 0;
      var entrySize := HeaderSize + length;
      if MaxEntrySize < entrySize {
        return StringTooLong, at;
      }
      var sizeRequired := baseUsed + entrySize;
      var sizeDesired := Align(sizeRequired, BlockSize);
      if baseSize < sizeDesired {
        if limit < sizeDesired {
          return NoMemory, at;
        }
        base := base + seq(sizeDesired - baseSize, _ => 0);
        baseSize := sizeDesired;
      }
      at := baseUsed;
      base := base[at := entrySize];
      baseUsed := baseUsed + entrySize;
      status := Ok;
    }

    /** `info_table_add`: appends the record `{3 + |s|, key, mod, s}`. */
    method Add(s: seq<Byte>, key: Byte, mod: Byte, limit: nat) returns (status: InfoStatus)
      requires Valid()
      modifies this
      ensures Valid()
      ensures (status, State()) == AddSpec(old(State()), s, key, mod, limit)
    {
      ghost var t0 := State();
      ghost var desired := Desired(t0, HeaderSize + |s|);
      assert desired == Align(baseUsed + (HeaderSize + |s|), BlockSize);
      var at;
      status, at := Append(|s|, limit);
      if status != Ok {
        assert State() == t0;
        return;
      }
      ghost var b0 := base;
      base := base[at + 1 := key][at + 2 := mod];
      base := base[..at + HeaderSize] + Strncpy(s) + base[at + HeaderSize + |s|..];
      ghost var e := Entry(HeaderSize + |s|, key, mod, Strncpy(s));
      WriteRecord(b0, at, Encode(entries), e);
      EncodeSnoc(entries, e);
      entries := entries + [e];
    }
  }

  /** Writing `key`, `mod` and the string after a reserved `size` byte lays out the record. */
  lemma WriteRecord(b: seq<Byte>, at: nat, prefix: seq<Byte>, e: Entry)
    requires WellFormed(e) && at + e.size <= |b| && b[..at] == prefix && b[at] == e.size
    ensures var b1 := b[at + 1 := e.key][at + 2 := e.mod];
      var b2 := b1[..at + HeaderSize] + e.bytes + b1[at + HeaderSize + |e.bytes|..];
      |b2| == |b| && b2[..at + e.size] == prefix + EntryBytes(e)
  {
    var b1 := b[at + 1 := e.key][at + 2 := e.mod];
    assert b1[..at + HeaderSize] == prefix + [e.size, e.key, e.mod];
  }

  // ---------------------------------------------------------------------------
  // struct info_table_iterator
  // ---------------------------------------------------------------------------

  class TableIterator {
    const table: InfoTable
    var baseOffset: nat
    /** How many records have been returned. */
    ghost var index: nat

    ghost predicate Valid()
      reads this, table
    {
      table.Valid() && index <= |table.entries| && baseOffset == |Encode(table.entries[..index])|
    }

    /** `info_table_iterator_initialize`. */
    constructor (t: InfoTable)
      requires t.Valid()
      ensures Valid() && table == t && index == 0 && baseOffset == 0
    {
      table := t;
      baseOffset := 0;
      index := 0;
    }

    /**
     * `info_table_iterator_next`: the next record in insertion order, read
     * at the cursor, which then advances by the record's own size; `None`
     * once the cursor reaches `base_used`.
     */
    method Next() returns (r: Option<Entry>)
      requires Valid()
      modifies this
      ensures Valid()
      ensures old(index) < |table.entries| ==>
        r == Some(table.entries[old(index)]) && index == old(index) + 1
      ensures old(index) == |table.entries| ==>
        r == None && index == old(index) && baseOffset == old(baseOffset)
    {
      var es := table.entries;
      if index == |es| {
        assert es[..index] == es;
      } else {
        ReadRecord(table.base, table.baseUsed, es, index);
      }
      if table.baseUsed <= baseOffset {
        return None;
      }
      var size := table.base[baseOffset];
      r := Some(Entry(size, table.base[baseOffset + 1], table.base[baseOffset + 2],
                      table.base[baseOffset + HeaderSize..baseOffset + size]));
      baseOffset := baseOffset + size;
      index := index + 1;
    }
  }

  /** Reading record `i` of an arena at the offset the records before it end at. */
  lemma ReadRecord(base: seq<Byte>, used: nat, es: seq<Entry>, i: nat)
    requires used <= |base| && base[..used] == Encode(es) && i < |es|
    requires forall e :: e in es ==> WellFormed(e)
    ensures var o := |Encode(es[..i])|; var e := es[i];
      WellFormed(e) && o + e.size <= used && |Encode(es[..i + 1])| == o + e.size &&
      base[o] == e.size && e == Entry(base[o], base[o + 1], base[o + 2], base[o + HeaderSize..o + base[o]])
  {
    var e := es[i];
    assert e in es;
    var o := |Encode(es[..i])|;
    EncodeAt(es, i);
    assert |EntryBytes(e)| == e.size;
    Window(base, used, Encode(es), o, EntryBytes(e));
    FieldsAt(base, o, e);
  }

  lemma Window<T>(base: seq<T>, used: nat, enc: seq<T>, o: nat, w: seq<T>)
    requires used <= |base| && base[..used] == enc && o + |w| <= |enc| && enc[o..o + |w|] == w
    ensures base[o..o + |w|] == w
  {
    assert base[..used][o..o + |w|] == base[o..o + |w|];
  }

  lemma FieldsAt(base: seq<Byte>, o: nat, e: Entry)
    requires WellFormed(e) && o + e.size <= |base| && base[o..o + e.size] == EntryBytes(e)
    ensures base[o] == e.size
    ensures e == Entry(base[o], base[o + 1], base[o + 2], base[o + HeaderSize..o + base[o]])
  {
    var w := base[o..o + e.size];
    assert base[o] == w[0];
    assert base[o + 1] == w[1];
    assert base[o + 2] == w[2];
    assert base[o + HeaderSize..o + e.size] == w[HeaderSize..] == e.bytes;
  }

  /**
   * The iteration loop of `dump_table`, without the printing: it visits every
   * record exactly once, in insertion order.
   */
  method DumpEntries(table: InfoTable) returns (es: seq<Entry>)
    requires table.Valid()
    ensures es == table.entries
  {
    var it := new TableIterator(table);
    es := [];
    while true
      invariant it.Valid() && it.table == table
      invariant es == table.entries[..it.index]
      decreases |table.entries| - it.index
    {
      var e := it.Next();
      if e.None? {
        break;
      }
      es := es + [e.value];
    }
    assert table.entries[..|table.entries|] == table.entries;
  }
}
