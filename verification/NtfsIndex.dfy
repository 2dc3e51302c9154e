/**
 The root directory index of an NTFS volume: entries are built into the resident
 `$INDEX_ROOT` attribute named `$I30` and parsed back from its value.
 */
module NtfsIndex {
  import opened Words
  import opened NtfsRecord

  /** Record 5 with sequence number 5: the root directory. */
  const ROOT_REF: u64 := 0x5_0000_0000_0005

  const NO_REF: u64 := 0xFFFF_FFFF_FFFF_FFFF

  const I30: seq<u8> := [0x24, 0, 0x49, 0, 0x33, 0, 0x30, 0]

  /** A root entry to be built; `time` is the clock reading at that moment. */
  datatype RootEntry = RootEntry(name: seq<u16>, ref: nat, isDir: bool, size: nat, time: u64)

  /** The values that fit their fields; packing any other raises. */
  predicate Packs(e: RootEntry)
  {
    |e.name| <= 255 && e.ref < TWO64 && e.size < TWO64
  }

  function RoundUp8(n: nat): (r: nat)
    ensures n <= r < n + 8 && r % 8 == 0
  {
    (n + 7) / 8 * 8
  }

  function BodyLength(e: RootEntry): (n: nat)
  {
    0x52 + 2 * |e.name|
  }

  /** Reference, sizes, flags and parent. */
  function HeadFront(e: RootEntry): (h: seq<u8>)
    requires Packs(e)
    ensures |h| == 0x18
  {
    LE64(e.ref) + (LE16(RoundUp8(BodyLength(e))) + LE16(BodyLength(e))) + Zeros(4) + LE64(ROOT_REF)
  }

  /** Created, modified, record modified and accessed. */
  function HeadTimes(t: u64): (h: seq<u8>)
    ensures |h| == 0x20
  {
    LE64(t) + LE64(t) + LE64(t) + LE64(t)
  }

  /** Allocated and real size, attributes, name length and name space. */
  function HeadBack(e: RootEntry): (h: seq<u8>)
    requires Packs(e)
    ensures |h| == 0x1A
  {
    LE64(if e.size == 0 then 1 else e.size) + LE64(e.size) + LE32(if e.isDir then 0x10 else 0x20) + Zeros(4)
    + [|e.name|, 1]
  }

  /** The 82 bytes before the name. */
  function EntryHead(e: RootEntry): (h: seq<u8>)
    requires Packs(e)
    ensures |h| == 0x52
  {
    HeadFront(e) + HeadTimes(e.time) + HeadBack(e)
  }

  function EntryBytes(e: RootEntry): (r: seq<u8>)
    requires Packs(e)
    ensures |r| == RoundUp8(BodyLength(e))
  {
    EntryHead(e) + UnitBytes(e.name) + Zeros(RoundUp8(BodyLength(e)) - BodyLength(e))
  }

  function EntriesFrom(es: seq<RootEntry>, k: nat): (r: seq<u8>)
    requires forall e | e in es :: Packs(e)
    decreases |es| - k
  {
    if k >= |es| then [] else EntryBytes(es[k]) + EntriesFrom(es, k + 1)
  }

  const END_ENTRY: seq<u8> := [0, 0, 0, 0, 0, 0, 0, 0, 16, 0, 16, 0, 2, 0, 0, 0]

  /** The 32 bytes of the value before the first entry. */
  function ValueHead(indexSize: u32): (h: seq<u8>)
    ensures |h| == 0x20
  {
    LE32(0x30) + LE32(1) + LE32(4096) + [1, 0, 0, 0] + LE32(0x10) + LE32(indexSize) + LE32(indexSize)
    + [0, 0, 0, 0]
  }

  /** Everything before the entries; `used` is the attribute's length. */
  function RootHead(used: u32): (h: seq<u8>)
    requires used >= 0x40
    ensures |h| == 0x50
  {
    ResidentHead(0x90, used, 4, 0x18, used - 0x30, 0x30) + I30 + Zeros(16) + ValueHead(used - 0x40)
  }

  predicate Buildable(es: seq<RootEntry>)
  {
    (forall e | e in es :: Packs(e)) && 0x60 + |EntriesFrom(es, 0)| < TWO32
  }

  /** The whole attribute. */
  function IndexRoot(es: seq<RootEntry>): (r: Option<seq<u8>>)
  {
    if Buildable(es)
    then Some(RootHead(0x60 + |EntriesFrom(es, 0)|) + (EntriesFrom(es, 0) + END_ENTRY))
    else None
  }

  lemma {:induction false} EntriesSnoc(es: seq<RootEntry>, k: nat, i: nat)
    requires k <= i < |es| && forall e | e in es[..i + 1] :: Packs(e)
    ensures forall e | e in es[..i] :: Packs(e)
    ensures EntriesFrom(es[..i + 1], k) == EntriesFrom(es[..i], k) + EntryBytes(es[i])
    decreases i - k
  {
    hide EntryBytes;
    assert forall j | 0 <= j < i :: es[..i][j] == es[..i + 1][j];
    if k < i {
      EntriesSnoc(es, k + 1, i);
    } else {
      assert EntriesFrom(es[..i], k) == [];
      assert EntriesFrom(es[..i + 1], k) == EntryBytes(es[i]) + [];
    }
  }

  /** The entries laid out behind the head of a 4096-byte buffer that grows as needed. */
  method LayEntries(es: seq<RootEntry>) returns (r: Option<seq<u8>>)
    ensures r == if forall e | e in es :: Packs(e) then Some(EntriesFrom(es, 0) + END_ENTRY) else None
  {
    hide EntryBytes;
    var buf := Zeros(4096);
    var off := 0x50;
    for i := 0 to |es|
      invariant forall e | e in es[..i] :: Packs(e)
      invariant 0x50 <= off <= |buf| && buf[0x50..off] == EntriesFrom(es[..i], 0)
    {
      if !Packs(es[i]) {
        return None;
      }
      assert es[..i + 1] == es[..i] + [es[i]];
      EntriesSnoc(es, 0, i);
      buf := Put(buf, off, EntryBytes(es[i]));
      off := off + |EntryBytes(es[i])|;
    }
    assert es[..|es|] == es;
    ghost var laid := buf[0x50..off];
    buf := Put(buf, off, END_ENTRY);
    assert buf[0x50..off + 16] == laid + END_ENTRY;
    return Some(buf[0x50..off + 16]);
  }

  /** Sizes are patched into the head once the length is known. */
  method AttrIndexRoot(es: seq<RootEntry>) returns (r: Option<seq<u8>>)
    ensures r == IndexRoot(es)
  {
    var laid := LayEntries(es);
    if laid.None? || 0x50 + |laid.value| >= TWO32 {
      return None;
    }
    return Some(RootHead(0x50 + |laid.value|) + laid.value);
  }

  // ----- parsing -----

  datatype Entry = Entry(offset: nat, ref: u64, name: seq<u8>, created: u64, modified: u64,
                         recordModified: u64, accessed: u64, realSize: u64, flags: u32, rawSize: nat)

  /** The MFT record an entry refers to. */
  function RecordOf(e: Entry): (n: nat)
  {
    e.ref % 0x1_0000_0000_0000
  }

  /** The raw size of the entry at `pos`, from the first word when the second is zero. */
  function RawSize(v: seq<u8>, pos: nat): (n: nat)
    requires In(v, pos, 12)
  {
    if U16(v, pos + 10) != 0 then U16(v, pos + 10) else U32(v, pos + 8) % 0x1_0000
  }

  function NameOf(c: seq<u8>): (n: seq<u8>)
    requires |c| >= 0x52
  {
    var len: nat := c[0x50];
    Slice(c, 0x52, 0x52 + 2 * len)
  }

  function EntryOf(c: seq<u8>, pos: nat): (e: Entry)
    requires |c| >= 0x52
  {
    Entry(pos, U64(c, 0), NameOf(c), U64(c, 0x18), U64(c, 0x20), U64(c, 0x28), U64(c, 0x30), U64(c, 0x40),
          U32(c, 0x48), |c|)
  }

  function ParsedFrom(v: seq<u8>, pos: nat): (r: Option<seq<Entry>>)
    decreases |v| - pos
  {
    if pos + 8 > |v| || U64(v, pos) == NO_REF then Some([])
    else if pos + 12 > |v| then None
    else
      var size := RawSize(v, pos);
      if size < 0x52 || pos + size > |v| then Some([])
      else
        var rest := ParsedFrom(v, RoundUp8(pos + size));
        if rest.None? then None else Some([EntryOf(v[pos..pos + size], pos)] + rest.value)
  }

  function Parsed(v: seq<u8>): (r: Option<seq<Entry>>)
  {
    if |v| < 0x20 then Some([]) else ParsedFrom(v, 0x10 + U32(v, 0x10))
  }

  function Joined(done: seq<Entry>, rest: Option<seq<Entry>>): (r: Option<seq<Entry>>)
  {
    if rest.None? then None else Some(done + rest.value)
  }

  lemma JoinedEnds(done: seq<Entry>)
    ensures Joined([], Some(done)) == Joined(done, Some([])) == Some(done)
    ensures Joined(done, None) == None
  {
    assert [] + done == done + [] == done;
  }

  lemma JoinedStep(done: seq<Entry>, v: seq<u8>, pos: nat)
    requires In(v, pos, 12) && U64(v, pos) != NO_REF && 0x52 <= RawSize(v, pos) <= |v| - pos
    ensures var size := RawSize(v, pos);
            Joined(done, ParsedFrom(v, pos))
            == Joined(done + [EntryOf(v[pos..pos + size], pos)], ParsedFrom(v, RoundUp8(pos + size)))
  {
    hide EntryOf, U64, RawSize, RoundUp8;
    var size := RawSize(v, pos);
    var rest := ParsedFrom(v, RoundUp8(pos + size));
    if rest.Some? {
      var e := EntryOf(v[pos..pos + size], pos);
      assert done + ([e] + rest.value) == done + [e] + rest.value;
    }
  }

  method ParseIndexEntries(v: seq<u8>) returns (r: Option<seq<Entry>>)
    ensures r == Parsed(v)
  {
    if |v| < 0x20 {
      return Some([]);
    }
    r := ParseFrom(v, 0x10 + U32(v, 0x10));
  }

  method ParseFrom(v: seq<u8>, first: nat) returns (r: Option<seq<Entry>>)
    ensures r == ParsedFrom(v, first)
  {
    hide EntryOf, U64, RawSize, RoundUp8, Joined;
    var pos := first;
    var entries: seq<Entry> := [];
    JoinedEnds(if ParsedFrom(v, first).Some? then ParsedFrom(v, first).value else []);
    while pos + 8 <= |v|
      invariant ParsedFrom(v, first) == Joined(entries, ParsedFrom(v, pos))
      decreases |v| - pos
    {
      if U64(v, pos) == NO_REF {
        break;
      }
      if pos + 12 > |v| {
        JoinedEnds(entries);
        return None;
      }
      var size := RawSize(v, pos);
      if size == 0 || size < 0x52 || pos + size > |v| {
        break;
      }
      JoinedStep(entries, v, pos);
      entries := entries + [EntryOf(v[pos..pos + size], pos)];
      pos := RoundUp8(pos + size);
    }
    JoinedEnds(entries);
    return Some(entries);
  }

  // ----- round trip -----

  /**
   What a reader should list for entries `k` onwards laid out from `pos`. An entry whose
   reference is all ones reads as the end of the list.
   */
  function Views(es: seq<RootEntry>, k: nat, pos: nat): (r: seq<Entry>)
    requires forall e | e in es :: Packs(e)
    decreases |es| - k
  {
    if k >= |es| || es[k].ref == NO_REF then []
    else [View(es[k], pos)] + Views(es, k + 1, pos + RoundUp8(BodyLength(es[k])))
  }

  function View(e: RootEntry, pos: nat): (v: Entry)
    requires Packs(e)
  {
    Entry(pos, e.ref, UnitBytes(e.name), e.time, e.time, e.time, e.time, e.size,
          if e.isDir then 0x10 else 0x20, BodyLength(e))
  }

  /** The part of an entry its raw size covers: everything but the padding. */
  function Raw(e: RootEntry): (c: seq<u8>)
    requires Packs(e)
    ensures |c| == BodyLength(e)
  {
    EntryHead(e) + UnitBytes(e.name)
  }

  lemma HeadParts(e: RootEntry)
    requires Packs(e)
    ensures At(EntryHead(e), 0, HeadFront(e)) && At(EntryHead(e), 0x18, HeadTimes(e.time))
    ensures At(EntryHead(e), 0x38, HeadBack(e))
  {
    hide HeadFront, HeadTimes, HeadBack;
  }

  lemma SizeFields(e: RootEntry)
    requires Packs(e)
    ensures U64(EntryHead(e), 0) == e.ref && RawSize(EntryHead(e), 0) == BodyLength(e)
    ensures EntryHead(e)[0x50] == |e.name|
  {
    var f := HeadFront(e);
    LE64RoundTrip(e.ref);
    LE16RoundTrip(BodyLength(e));
    assert At(f, 0, LE64(e.ref)) && At(f, 10, LE16(BodyLength(e)));
    HeadParts(e);
    AtByte(EntryHead(e), 0x38, HeadBack(e), 0x18);
    hide EntryHead, HeadFront;
    AtSub(EntryHead(e), 0, f, 0, LE64(e.ref));
    AtSub(EntryHead(e), 0, f, 10, LE16(BodyLength(e)));
    U64At(EntryHead(e), 0, LE64(e.ref), 0);
    AtFields(EntryHead(e), 10, LE16(BodyLength(e)), 0);
  }

  lemma U64At(s: seq<u8>, off: int, d: seq<u8>, k: nat)
    requires At(s, off, d) && k + 8 <= |d|
    ensures In(s, off, |d|) && U64(s, off + k) == U64(d, k)
  {
  }

  lemma TimeFields(e: RootEntry)
    requires Packs(e)
    ensures var h := EntryHead(e);
            U64(h, 0x18) == U64(h, 0x20) == U64(h, 0x28) == U64(h, 0x30) == e.time
  {
    hide U64, EntryHead;
    TimeField(e, 0);
    TimeField(e, 8);
    TimeField(e, 16);
    TimeField(e, 24);
  }

  lemma TimeField(e: RootEntry, k: nat)
    requires Packs(e) && (k == 0 || k == 8 || k == 16 || k == 24)
    ensures U64(EntryHead(e), 0x18 + k) == e.time
  {
    var t := LE64(e.time);
    LE64RoundTrip(e.time);
    assert At(HeadTimes(e.time), k, t);
    HeadParts(e);
    hide EntryHead, HeadTimes;
    AtSub(EntryHead(e), 0x18, HeadTimes(e.time), k, t);
    U64At(EntryHead(e), 0x18 + k, t, 0);
  }

  lemma RestFields(e: RootEntry)
    requires Packs(e)
    ensures var h := EntryHead(e);
            U64(h, 0x40) == e.size && U32(h, 0x48) == if e.isDir then 0x10 else 0x20
  {
    var b := HeadBack(e);
    var flags := LE32(if e.isDir then 0x10 else 0x20);
    LE64RoundTrip(e.size);
    LE32RoundTrip(if e.isDir then 0x10 else 0x20);
    assert At(b, 8, LE64(e.size)) && At(b, 16, flags);
    HeadParts(e);
    hide EntryHead, HeadBack;
    AtSub(EntryHead(e), 0x38, b, 8, LE64(e.size));
    AtSub(EntryHead(e), 0x38, b, 16, flags);
    U64At(EntryHead(e), 0x40, LE64(e.size), 0);
    AtFields(EntryHead(e), 0x48, flags, 0);
  }

  /** Reading one built entry gives its fields back. */
  lemma EntryReadsBack(e: RootEntry, pos: nat)
    requires Packs(e)
    ensures EntryOf(Raw(e), pos) == View(e, pos)
  {
    hide EntryHead, U64, U32, At;
    var c, h := Raw(e), EntryHead(e);
    SizeFields(e);
    TimeFields(e);
    RestFields(e);
    assert At(c, 0, h) by { HeadAt(e); }
    U64At(c, 0, h, 0);
    U64At(c, 0, h, 0x18);
    U64At(c, 0, h, 0x20);
    U64At(c, 0, h, 0x28);
    U64At(c, 0, h, 0x30);
    U64At(c, 0, h, 0x40);
    AtFields(c, 0, h, 0x48);
    AtByte(c, 0, h, 0x50);
    assert NameOf(c) == UnitBytes(e.name);
  }

  lemma HeadAt(e: RootEntry)
    requires Packs(e)
    ensures At(Raw(e), 0, EntryHead(e))
    ensures At(EntryBytes(e), 0, Raw(e)) && At(EntryBytes(e), 0, EntryHead(e))
  {
  }

  /** Entries a reader can tell from the end of the list. */
  ghost predicate Listable(es: seq<RootEntry>)
  {
    forall e | e in es :: Packs(e) && e.ref != NO_REF
  }

  lemma EndStops(v: seq<u8>, pos: nat, none: seq<u8>)
    requires none == [] && At(v, pos, none + END_ENTRY)
    ensures ParsedFrom(v, pos) == Some([])
  {
    assert none + END_ENTRY == END_ENTRY;
    U64At(v, pos, END_ENTRY, 0);
    AtFields(v, pos, END_ENTRY, 10);
  }

  /** One laid-out entry: its size and bytes are found where it stands. */
  lemma EntryFound(v: seq<u8>, pos: nat, e: RootEntry)
    requires Packs(e) && At(v, pos, EntryBytes(e))
    ensures In(v, pos, BodyLength(e)) && U64(v, pos) == e.ref && RawSize(v, pos) == BodyLength(e)
    ensures EntryOf(v[pos..pos + BodyLength(e)], pos) == View(e, pos)
  {
    hide U64, U16, U32, EntryHead, EntryBytes, Raw;
    HeadAt(e);
    SizeFields(e);
    AtSub(v, pos, EntryBytes(e), 0, EntryHead(e));
    AtSub(v, pos, EntryBytes(e), 0, Raw(e));
    U64At(v, pos, EntryHead(e), 0);
    AtFields(v, pos, EntryHead(e), 8);
    AtFields(v, pos, EntryHead(e), 10);
    assert v[pos..pos + BodyLength(e)] == Raw(e);
    EntryReadsBack(e, pos);
  }

  lemma RoundUp8Shift(pos: nat, n: nat)
    requires pos % 8 == 0
    ensures RoundUp8(pos + n) == pos + RoundUp8(n)
    ensures (pos + RoundUp8(n)) % 8 == 0
  {
  }

  lemma {:induction false} EntriesParse(v: seq<u8>, es: seq<RootEntry>, k: nat, pos: nat)
    requires (forall e | e in es :: Packs(e)) && k <= |es| && pos % 8 == 0
    requires At(v, pos, EntriesFrom(es, k) + END_ENTRY)
    ensures ParsedFrom(v, pos) == Some(Views(es, k, pos))
    decreases |es| - k
  {
    hide At, U64, RawSize, EntryOf, EntryBytes, View, RoundUp8;
    if k == |es| {
      EndStops(v, pos, EntriesFrom(es, k));
    } else {
      var e := es[k];
      assert EntriesFrom(es, k) + END_ENTRY == EntryBytes(e) + (EntriesFrom(es, k + 1) + END_ENTRY);
      AtSplit(v, pos, EntryBytes(e), EntriesFrom(es, k + 1) + END_ENTRY);
      EntryFound(v, pos, e);
      if e.ref != NO_REF {
        RoundUp8Shift(pos, BodyLength(e));
        EntriesParse(v, es, k + 1, pos + RoundUp8(BodyLength(e)));
      }
    }
  }

  /** The value the reader extracts from the attribute. */
  function RootValue(es: seq<RootEntry>): (v: seq<u8>)
    requires Buildable(es)
  {
    ValueHead(0x20 + |EntriesFrom(es, 0)|) + (EntriesFrom(es, 0) + END_ENTRY)
  }

  /**
   Round trip of an index value: parsing it lists the entries, in order, with every field, up to
   the first whose reference is all ones.
   */
  lemma IndexReadsBack(es: seq<RootEntry>)
    requires Buildable(es)
    ensures Parsed(RootValue(es)) == Some(Views(es, 0, 0x20))
  {
    hide ParsedFrom, EntriesFrom, Views;
    var v := RootValue(es);
    var laid := EntriesFrom(es, 0) + END_ENTRY;
    var h := ValueHead(0x20 + |EntriesFrom(es, 0)|);
    assert At(v, 0, h) && At(v, 0x20, laid);
    assert h[0x10..0x14] == LE32(0x10);
    assert At(h, 0x10, LE32(0x10));
    AtFields(h, 0x10, LE32(0x10), 0);
    LE32RoundTrip(0x10);
    AtFields(v, 0, h, 0x10);
    EntriesParse(v, es, 0, 0x20);
  }

  /** If no reference is all ones, every entry is listed. */
  lemma {:induction false} AllListed(es: seq<RootEntry>, k: nat, pos: nat)
    requires Listable(es) && k <= |es|
    ensures |Views(es, k, pos)| == |es| - k
    decreases |es| - k
  {
    hide View, Packs;
    if k < |es| {
      assert es[k] in es;
      AllListed(es, k + 1, pos + RoundUp8(BodyLength(es[k])));
    }
  }

  // ----- parsing any bytes -----

  /** An entry of `size` bytes at `pos`, the size its second word or, if that is zero, its first. */
  predicate EntryThere(v: seq<u8>, pos: nat, size: nat)
  {
    && pos + 12 <= |v| && U64(v, pos) != 0xFFFF_FFFF_FFFF_FFFF
    && size == (if U16(v, pos + 10) != 0 then U16(v, pos + 10) else U16(v, pos + 8)) && size >= 82 && pos + size <= |v|
  }

  /** No entry stands at `pos`. */
  predicate NoEntry(v: seq<u8>, pos: nat)
  {
    pos + 12 <= |v| ==> !EntryThere(v, pos, if U16(v, pos + 10) != 0 then U16(v, pos + 10) else U16(v, pos + 8))
  }

  /** At `pos` a reference fits that is not all ones, but not the sizes behind it. */
  predicate CutShort(v: seq<u8>, pos: nat)
  {
    pos + 8 <= |v| < pos + 12 && U64(v, pos) != 0xFFFF_FFFF_FFFF_FFFF
  }

  /** `e` is what the bytes of the entry say. */
  predicate ReadsAs(v: seq<u8>, pos: nat, size: nat, e: Entry)
  {
    In(v, pos, size) && size >= 82 && e == EntryOf(v[pos..pos + size], pos)
  }

  /** The next place that is a multiple of eight. */
  predicate Aligned(at: nat, next: nat)
  {
    next % 8 == 0 && at <= next < at + 8
  }

  lemma SizeIs(v: seq<u8>, pos: nat)
    requires In(v, pos, 12)
    ensures RawSize(v, pos) == if U16(v, pos + 10) != 0 then U16(v, pos + 10) else U16(v, pos + 8)
  {
    var low: int, high: int := U16(v, pos + 8), U16(v, pos + 10);
    assert U32(v, pos + 8) == low + 0x1_0000 * high;
  }

  lemma AlignedIs(at: nat, next: nat)
    ensures Aligned(at, next) <==> next == RoundUp8(at)
  {
  }

  /**
   On any bytes the parser lists the entries it finds, each at the next multiple of eight behind
   the one before, until the bytes run out, a reference is all ones, or a size cannot be; it raises
   only where a reference fits and the sizes behind it do not.
   */
  lemma {:induction false} ParseTrail(v: seq<u8>, pos: nat) returns (stops: seq<nat>, sizes: seq<nat>)
    ensures |stops| == |sizes| + 1 && stops[0] == pos
    ensures forall i: nat | i < |sizes| ::
              EntryThere(v, stops[i], sizes[i]) && Aligned(stops[i] + sizes[i], stops[i + 1])
    ensures NoEntry(v, stops[|sizes|]) && (ParsedFrom(v, pos).None? <==> CutShort(v, stops[|sizes|]))
    ensures var r := ParsedFrom(v, pos);
            r.Some? ==> |r.value| == |sizes|
                        && forall i: nat | i < |sizes| :: ReadsAs(v, stops[i], sizes[i], r.value[i])
    decreases |v| - pos
  {
    hide U64, U16, RawSize, EntryOf, RoundUp8, Aligned;
    stops, sizes := [pos], [];
    if pos + 12 <= |v| {
      SizeIs(v, pos);
      var size := RawSize(v, pos);
      if EntryThere(v, pos, size) {
        AlignedIs(pos + size, RoundUp8(pos + size));
        var rest, more := ParseTrail(v, RoundUp8(pos + size));
        stops, sizes := [pos] + rest, [size] + more;
      }
    }
  }
}
