/**
 NTFS FILE records: the builder of the image tool and the reader of its oracle.

 A record is 1024 bytes: a header, the update sequence array (USA), the
 attributes, a terminator. The builder parks the last two bytes of each sector
 in the USA and stamps the sequence number over them; the reader undoes that and
 walks the attributes. A Python exception is `None`.
 */
module NtfsRecord {
  import opened Words

  const FILE: seq<u8> := [0x46, 0x49, 0x4C, 0x45]
  const END: u32 := 0xFFFF_FFFF
  const RECORD: int := 1024

  // ----- building -----

  /** The first 56 bytes, the USA still blank. */
  function Header(seqNo: u16, flags: u16, realSize: u32): (h: seq<u8>)
    ensures |h| == 0x38
  {
    FILE + LE16(0x30) + LE16(3) + Zeros(8) + LE16(seqNo) + LE16(1) + LE16(0x38) + LE16(flags)
    + LE32(realSize) + LE32(RECORD) + Zeros(24)
  }

  function Flags(inUse: bool, isDir: bool): (f: u16)
  {
    (if inUse then 1 else 0) + (if isDir then 2 else 0)
  }

  /** Attributes `k` onwards, one after another. */
  function Flat(attrs: seq<seq<u8>>, k: nat): (r: seq<u8>)
    decreases |attrs| - k
  {
    if k >= |attrs| then [] else attrs[k] + Flat(attrs, k + 1)
  }

  const TERMINATOR: seq<u8> := [0xFF, 0xFF, 0xFF, 0xFF]

  predicate Fits(attrs: seq<seq<u8>>)
  {
    0x38 + |Flat(attrs, 0)| + 4 <= RECORD
  }

  /** The record as a reader should see it, the USA still blank. */
  function Body(seqNo: u16, flags: u16, realSize: u32, attrs: seq<seq<u8>>): (b: seq<u8>)
    requires Fits(attrs)
    ensures |b| == RECORD
  {
    Header(seqNo, flags, realSize) + (Flat(attrs, 0) + TERMINATOR)
    + Zeros(RECORD - 0x38 - |Flat(attrs, 0)| - 4)
  }

  /** Sequence number 1 and the sector tails of `body`. */
  function Usa(body: seq<u8>): (u: seq<u8>)
    requires |body| == RECORD
    ensures |u| == 6
  {
    LE16(1) + body[510..512] + body[1022..1024]
  }

  /** What goes to disk: tails parked in the USA, the sequence number over them. */
  function Protect(body: seq<u8>): (r: seq<u8>)
    requires |body| == RECORD
    ensures |r| == RECORD
  {
    body[..0x30] + Usa(body) + body[0x36..510] + LE16(1) + body[512..1022] + LE16(1)
  }

  /** What a reader gets back: the body with its USA filled in. */
  function Restored(body: seq<u8>): (r: seq<u8>)
    requires |body| == RECORD
    ensures |r| == RECORD
  {
    body[..0x30] + Usa(body) + body[0x36..]
  }

  function Record(seqNo: nat, inUse: bool, realSize: nat, attrs: seq<seq<u8>>, isDir: bool)
    : (r: Option<seq<u8>>)
    ensures r.Some? ==> |r.value| == RECORD
  {
    if seqNo < 0x1_0000 && realSize < TWO32 && Fits(attrs)
    then Some(Protect(Body(seqNo, Flags(inUse, isDir), realSize, attrs)))
    else None
  }

  lemma {:induction false} FlatSnoc(attrs: seq<seq<u8>>, k: nat, i: nat)
    requires k <= i < |attrs|
    ensures Flat(attrs[..i + 1], k) == Flat(attrs[..i], k) + attrs[i]
    decreases i - k
  {
    if k < i {
      FlatSnoc(attrs, k + 1, i);
    } else {
      assert Flat(attrs[..i], k) == [];
      assert Flat(attrs[..i + 1], k) == attrs[i] + [];
    }
  }

  /** Lays the attributes out behind the header and ends them. */
  method LayAttributes(header: seq<u8>, attrs: seq<seq<u8>>) returns (r: Option<seq<u8>>)
    requires |header| == 0x38
    ensures r == if Fits(attrs)
                 then Some(header + (Flat(attrs, 0) + TERMINATOR)
                           + Zeros(RECORD - 0x38 - |Flat(attrs, 0)| - 4))
                 else None
  {
    var rec := header + Zeros(RECORD - 0x38);
    var off := 0x38;
    for i := 0 to |attrs|
      invariant off == 0x38 + |Flat(attrs[..i], 0)|
      invariant off <= RECORD ==> rec == header + Flat(attrs[..i], 0) + Zeros(RECORD - off)
    {
      FlatSnoc(attrs, 0, i);
      rec := Put(rec, off, attrs[i]);
      off := off + |attrs[i]|;
    }
    assert attrs[..|attrs|] == attrs;
    if off + 4 > RECORD {
      return None;
    }
    rec := Put(rec, off, TERMINATOR);
    assert rec == header + (Flat(attrs, 0) + TERMINATOR) + Zeros(RECORD - off - 4);
    return Some(rec);
  }

  /** One step of parking sector tails. */
  function Parked(rec: seq<u8>, i: nat): (r: seq<u8>)
    requires |rec| == RECORD && 1 <= i <= 2
    ensures |r| == RECORD
  {
    var t := i * 512 - 2;
    Put(Put(rec, 0x30 + 2 * i, rec[t..t + 2]), t, LE16(1))
  }

  lemma PutInside(s: seq<u8>, off: nat, d: seq<u8>)
    requires off + |d| <= |s|
    ensures Put(s, off, d) == s[..off] + d + s[off + |d|..]
  {
  }

  /** A word moved to the array and stamped over, in a record cut at the places that matter. */
  lemma ParkedParts(a: seq<u8>, w: seq<u8>, b: seq<u8>, tail: seq<u8>, c: seq<u8>, i: nat)
    requires |w| == 2 && |tail| == 2 && 1 <= i <= 2
    requires |a| == 0x30 + 2 * i && |a| + 2 + |b| == i * 512 - 2 && |a + w + b + tail + c| == RECORD
    ensures Parked(a + w + b + tail + c, i) == a + tail + b + LE16(1) + c
  {
    hide Put, LE16;
    var rec := a + w + b + tail + c;
    var t := i * 512 - 2;
    assert rec[t..t + 2] == tail;
    PutInside(rec, |a|, tail);
    assert rec[..|a|] == a && rec[|a| + 2..] == b + tail + c;
    var mid := a + tail + (b + tail + c);
    PutInside(mid, t, LE16(1));
    assert mid[..t] == a + tail + b && mid[t + 2..] == c;
  }

  lemma ParkedTwice(body: seq<u8>)
    requires |body| == RECORD
    ensures Parked(Parked(Put(body, 0x30, LE16(1)), 1), 2) == Protect(body)
  {
    hide Put, Parked, LE16;
    var h, one := body[..0x30], LE16(1);
    var t1, t2 := body[510..512], body[1022..1024];
    PutInside(body, 0x30, one);
    var w1, w2 := body[0x32..0x34], body[0x34..0x36];
    assert body[0x32..] == w1 + w2 + body[0x36..510] + t1 + body[512..1022] + t2;
    var b1 := w2 + body[0x36..510];
    var c1 := body[512..1022] + t2;
    assert h + one + body[0x32..] == (h + one) + w1 + b1 + t1 + c1;
    ParkedParts(h + one, w1, b1, t1, c1, 1);
    var b2 := body[0x36..510] + one + body[512..1022];
    assert (h + one) + t1 + b1 + one + c1 == (h + one + t1) + w2 + b2 + t2 + [];
    ParkedParts(h + one + t1, w2, b2, t2, [], 2);
    assert (h + one + t1) + t2 + b2 + one + [] == Protect(body);
  }

  method BuildFileRecord(seqNo: nat, inUse: bool, realSize: nat, attrs: seq<seq<u8>>, isDir: bool)
    returns (r: Option<seq<u8>>)
    ensures r == Record(seqNo, inUse, realSize, attrs, isDir)
  {
    if seqNo >= 0x1_0000 || realSize >= TWO32 {
      return None;
    }
    var laid := LayAttributes(Header(seqNo, Flags(inUse, isDir), realSize), attrs);
    if laid.None? {
      return None;
    }
    var rec := ParkTails(Put(laid.value, 0x30, LE16(1)));
    ParkedTwice(laid.value);
    return Some(rec);
  }

  /** Sector by sector: the tail into the array, the sequence number over it. */
  method ParkTails(start: seq<u8>) returns (rec: seq<u8>)
    requires |start| == RECORD
    ensures rec == Parked(Parked(start, 1), 2)
  {
    hide Put;
    rec := start;
    for i := 1 to 3
      invariant |rec| == RECORD
      invariant i == 1 ==> rec == start
      invariant i == 2 ==> rec == Parked(start, 1)
      invariant i == 3 ==> rec == Parked(Parked(start, 1), 2)
    {
      var t := i * 512 - 2;
      ghost var before := rec;
      rec := Put(rec, 0x30 + 2 * i, rec[t..t + 2]);
      rec := Put(rec, t, LE16(1));
      assert rec == Parked(before, i);
    }
  }

  // ----- the update sequence -----

  datatype Fixed = Fixed(logical: seq<u8>, valid: bool)

  /** Undo the stamping from sector `i` on. */
  function FixFrom(rec: seq<u8>, usa: seq<u8>, bps: nat, count: nat, i: nat, ok: bool): (r: Option<Fixed>)
    requires bps >= 2 && i >= 1 && |usa| >= 2
    decreases count - i
  {
    if i >= count then Some(Fixed(rec, ok))
    else if i * bps > |rec| then Some(Fixed(rec, false))
    else if 2 * i + 2 > |usa| then None
    else
      var tail := TailOf(i, bps);
      FixFrom(rec[tail := usa[2 * i]][tail + 1 := usa[2 * i + 1]], usa, bps, count, i + 1,
              ok && U16(rec, tail) == U16(usa, 0))
  }

  function TailOf(i: nat, bps: nat): (t: nat)
    requires bps >= 2 && i >= 1
    ensures t + 2 == i * bps
  {
    assert i * bps >= 1 * bps;
    i * bps - 2
  }

  /**
   A sector size of zero puts every tail two bytes before the end, where Python compares the
   last word and inserts the parked one in front of it.
   */
  function InsertFrom(rec: seq<u8>, usa: seq<u8>, count: nat, i: nat, ok: bool): (r: Option<Fixed>)
    requires |rec| >= 2 && |usa| >= 2
    decreases count - i
  {
    if i >= count then Some(Fixed(rec, ok))
    else if 2 * i + 2 > |usa| then None
    else
      var tail := |rec| - 2;
      InsertFrom(rec[..tail] + usa[2 * i..2 * i + 2] + rec[tail..], usa, count, i + 1,
                 ok && U16(rec, tail) == U16(usa, 0))
  }

  /** With a sector size of one the first tail is a word that starts at the last byte: an exception. */
  function Fixup(raw: seq<u8>, bps: nat): (r: Option<Fixed>)
  {
    if |raw| < 8 || raw[..4] != FILE then None
    else
      var off, count := U16(raw, 4), U16(raw, 6);
      if off == 0 || count < 2 then Some(Fixed(raw, false))
      else
        var usa := Slice(raw, off, off + 2 * count);
        if |usa| < 2 || bps == 1 then None
        else if bps == 0 then InsertFrom(raw, usa, count, 1, true)
        else FixFrom(raw, usa, bps, count, 1, true)
  }

  method ApplyUsaFixup(raw: seq<u8>, bps: nat) returns (r: Option<Fixed>)
    ensures r == Fixup(raw, bps)
  {
    if |raw| < 8 || raw[..4] != FILE {
      return None;
    }
    var off: nat, count: nat := U16(raw, 4), U16(raw, 6);
    if off == 0 || count < 2 {
      return Some(Fixed(raw, false));
    }
    var usa := Slice(raw, off, off + 2 * count);
    if |usa| < 2 || bps == 1 {
      return None;
    }
    if bps == 0 {
      r := InsertTails(raw, usa, count);
    } else {
      r := RestoreTails(raw, usa, bps, count);
    }
  }

  method InsertTails(raw: seq<u8>, usa: seq<u8>, count: nat) returns (r: Option<Fixed>)
    requires |raw| >= 2 && |usa| >= 2 && count >= 2
    ensures r == InsertFrom(raw, usa, count, 1, true)
  {
    hide U16;
    var logical: seq<u8>, ok := raw, true;
    var i: nat := 1;
    while i < count
      invariant 1 <= i <= count && |logical| >= 2
      invariant InsertFrom(raw, usa, count, 1, true) == InsertFrom(logical, usa, count, i, ok)
    {
      var tail := |logical| - 2;
      if 2 * i + 2 > |usa| {
        return None;
      }
      if U16(logical, tail) != U16(usa, 0) {
        ok := false;
      }
      logical := logical[..tail] + usa[2 * i..2 * i + 2] + logical[tail..];
      i := i + 1;
    }
    return Some(Fixed(logical, ok));
  }

  method RestoreTails(raw: seq<u8>, usa: seq<u8>, bps: nat, count: nat) returns (r: Option<Fixed>)
    requires bps >= 2 && |usa| >= 2 && count >= 2
    ensures r == FixFrom(raw, usa, bps, count, 1, true)
  {
    hide U16;
    var number := U16(usa, 0);
    var logical: seq<u8>, ok := raw, true;
    var i: nat := 1;
    while i < count
      invariant 1 <= i <= count
      invariant FixFrom(raw, usa, bps, count, 1, true) == FixFrom(logical, usa, bps, count, i, ok)
    {
      var tail := TailOf(i, bps);
      if tail + 2 > |logical| {
        return Some(Fixed(logical, false));
      }
      if 2 * i + 2 > |usa| {
        return None;
      }
      if U16(logical, tail) != number {
        ok := false;
      }
      logical := logical[tail := usa[2 * i]][tail + 1 := usa[2 * i + 1]];
      i := i + 1;
    }
    return Some(Fixed(logical, ok));
  }

  /** Every sector from `i` on ends with the sequence number. */
  ghost predicate Stamped(rec: seq<u8>, usa: seq<u8>, bps: nat, count: nat, i: nat)
    requires bps >= 2 && i >= 1 && |usa| >= 2
  {
    forall j: nat | i <= j < count ::
      TailOf(j, bps) + 2 <= |rec| && U16(rec, TailOf(j, bps)) == U16(usa, 0)
  }

  /** Byte `p` is the last or last but one byte of a sector from `i` to `count - 1`. */
  ghost predicate InTail(p: nat, bps: nat, i: nat, count: nat)
    requires bps >= 2 && i >= 1
  {
    exists j: nat | i <= j < count :: TailOf(j, bps) <= p < TailOf(j, bps) + 2
  }

  lemma {:induction false} TailsApart(i: nat, j: nat, bps: nat)
    requires bps >= 2 && 1 <= i < j
    ensures TailOf(i, bps) + 2 <= TailOf(j, bps)
    decreases j
  {
  }

  lemma StampedStep(rec: seq<u8>, next: seq<u8>, usa: seq<u8>, bps: nat, count: nat, i: nat)
    requires bps >= 2 && i >= 1 && |usa| >= 2 && i < count && |next| == |rec|
    requires TailOf(i, bps) + 2 <= |rec|
    requires forall p: nat | p < |rec| && !(TailOf(i, bps) <= p < TailOf(i, bps) + 2) :: next[p] == rec[p]
    ensures Stamped(rec, usa, bps, count, i)
            <==> U16(rec, TailOf(i, bps)) == U16(usa, 0) && Stamped(next, usa, bps, count, i + 1)
  {
  }

  lemma {:induction false} FixValid(rec: seq<u8>, usa: seq<u8>, bps: nat, count: nat, i: nat, ok: bool)
    requires bps >= 2 && 1 <= i <= count && |usa| >= 2 * count
    ensures var r := FixFrom(rec, usa, bps, count, i, ok);
            r.Some? && |r.value.logical| == |rec| && (r.value.valid <==> ok && Stamped(rec, usa, bps, count, i))
    decreases count - i
  {
    hide U16;
    if i < count {
      var tail := TailOf(i, bps);
      if tail + 2 <= |rec| {
        var next := rec[tail := usa[2 * i]][tail + 1 := usa[2 * i + 1]];
        FixValid(next, usa, bps, count, i + 1, ok && U16(rec, tail) == U16(usa, 0));
        StampedStep(rec, next, usa, bps, count, i);
      } else {
        assert !Stamped(rec, usa, bps, count, i);
      }
    }
  }

  lemma {:induction false} FixFrame(rec: seq<u8>, usa: seq<u8>, bps: nat, count: nat, i: nat, ok: bool, p: nat)
    requires bps >= 2 && 1 <= i <= count && |usa| >= 2 * count && p < |rec| && !InTail(p, bps, i, count)
    ensures var r := FixFrom(rec, usa, bps, count, i, ok);
            r.Some? && |r.value.logical| == |rec| && r.value.logical[p] == rec[p]
    decreases count - i
  {
    hide U16;
    if i < count {
      var tail := TailOf(i, bps);
      assert !(tail <= p < tail + 2) && !InTail(p, bps, i + 1, count);
      if tail + 2 <= |rec| {
        var next := rec[tail := usa[2 * i]][tail + 1 := usa[2 * i + 1]];
        FixFrame(next, usa, bps, count, i + 1, ok && U16(rec, tail) == U16(usa, 0), p);
      }
    }
  }

  lemma {:induction false} FixTail(rec: seq<u8>, usa: seq<u8>, bps: nat, count: nat, i: nat, ok: bool, j: nat)
    requires bps >= 2 && 1 <= i <= j < count && |usa| >= 2 * count && TailOf(j, bps) + 2 <= |rec|
    ensures var r := FixFrom(rec, usa, bps, count, i, ok);
            r.Some? && |r.value.logical| == |rec|
            && r.value.logical[TailOf(j, bps)] == usa[2 * j] && r.value.logical[TailOf(j, bps) + 1] == usa[2 * j + 1]
    decreases count - i
  {
    hide U16;
    var tail := TailOf(i, bps);
    if i < j {
      TailsApart(i, j, bps);
    }
    var next := rec[tail := usa[2 * i]][tail + 1 := usa[2 * i + 1]];
    var ok' := ok && U16(rec, tail) == U16(usa, 0);
    if i < j {
      FixTail(next, usa, bps, count, i + 1, ok', j);
    } else {
      TailUntouched(bps, i, count);
      FixFrame(next, usa, bps, count, i + 1, ok', tail);
      FixFrame(next, usa, bps, count, i + 1, ok', tail + 1);
    }
  }

  /**
   What the fix-up does to any record whose USA is complete: it succeeds; it is
   valid exactly when every sector end carries the sequence number; every sector
   end is replaced by its parked bytes, and no other byte changes.
   */
  lemma FixMeaning(rec: seq<u8>, usa: seq<u8>, bps: nat, count: nat, i: nat, ok: bool)
    requires bps >= 2 && 1 <= i <= count && |usa| >= 2 * count
    ensures var r := FixFrom(rec, usa, bps, count, i, ok);
            r.Some? && |r.value.logical| == |rec|
            && (r.value.valid <==> ok && Stamped(rec, usa, bps, count, i))
            && (forall p: nat | p < |rec| && !InTail(p, bps, i, count) :: r.value.logical[p] == rec[p])
            && (forall j: nat | i <= j < count && TailOf(j, bps) + 2 <= |rec| ::
                  At(r.value.logical, TailOf(j, bps), usa[2 * j..2 * j + 2]))
  {
    hide FixFrom, Stamped, InTail;
    FixValid(rec, usa, bps, count, i, ok);
    var r := FixFrom(rec, usa, bps, count, i, ok);
    forall p: nat | p < |rec| && !InTail(p, bps, i, count) ensures r.value.logical[p] == rec[p] {
      FixFrame(rec, usa, bps, count, i, ok, p);
    }
    forall j: nat | i <= j < count && TailOf(j, bps) + 2 <= |rec|
      ensures At(r.value.logical, TailOf(j, bps), usa[2 * j..2 * j + 2])
    {
      FixTail(rec, usa, bps, count, i, ok, j);
    }
  }

  lemma TailUntouched(bps: nat, i: nat, count: nat)
    requires bps >= 2 && 1 <= i < count
    ensures !InTail(TailOf(i, bps), bps, i + 1, count) && !InTail(TailOf(i, bps) + 1, bps, i + 1, count)
  {
  }

  // ----- attributes -----

  datatype Attribute = Attribute(kind: u32, size: u32, nonResident: bool, name: seq<u8>, value: seq<u8>,
                                 offset: nat)

  /** The attribute whose header starts at `off`; its name is kept as UTF-16LE bytes. */
  function AttributeAt(rec: seq<u8>, off: nat): (a: Attribute)
    requires In(rec, off, 24)
  {
    Attribute(U32(rec, off), U32(rec, off + 4), rec[off + 8] != 0, NameAt(rec, off), ValueAt(rec, off), off)
  }

  function NameAt(rec: seq<u8>, off: nat): (n: seq<u8>)
    requires In(rec, off, 24)
  {
    var len: nat, from: nat := rec[off + 9], U16(rec, off + 10);
    if len == 0 then [] else Slice(rec, off + from, off + from + 2 * len)
  }

  function ValueAt(rec: seq<u8>, off: nat): (v: seq<u8>)
    requires In(rec, off, 24)
  {
    var len: nat, from: nat := U32(rec, off + 0x10), U16(rec, off + 0x14);
    if rec[off + 8] == 0 then Slice(rec, off + from, off + from + len) else []
  }

  /** The walk stops here: end mark, or a size that cannot be. */
  predicate Stops(rec: seq<u8>, off: nat)
    requires In(rec, off, 8)
  {
    var size: nat := U32(rec, off + 4);
    size < 24 || off + size > |rec|
  }

  function AttributesFrom(rec: seq<u8>, off: nat): (r: Option<seq<Attribute>>)
    decreases |rec| - off
  {
    if off + 4 > |rec| || U32(rec, off) == END || U32(rec, off) == 0 then Some([])
    else if off + 8 > |rec| then None
    else if Stops(rec, off) then Some([])
    else
      var rest := AttributesFrom(rec, off + U32(rec, off + 4));
      if rest.None? then None else Some([AttributeAt(rec, off)] + rest.value)
  }

  function Attributes(rec: seq<u8>): (r: Option<seq<Attribute>>)
  {
    if |rec| < 0x16 || rec[..4] != FILE then None else AttributesFrom(rec, U16(rec, 0x14))
  }

  function Prepended(done: seq<Attribute>, rest: Option<seq<Attribute>>): (r: Option<seq<Attribute>>)
  {
    if rest.None? then None else Some(done + rest.value)
  }

  lemma PrependedStep(done: seq<Attribute>, rec: seq<u8>, off: nat)
    requires In(rec, off, 8) && !Stops(rec, off) && U32(rec, off) != END && U32(rec, off) != 0
    ensures Prepended(done, AttributesFrom(rec, off))
            == Prepended(done + [AttributeAt(rec, off)], AttributesFrom(rec, off + U32(rec, off + 4)))
  {
    hide AttributeAt, U32;
    var rest := AttributesFrom(rec, off + U32(rec, off + 4));
    if rest.Some? {
      assert done + ([AttributeAt(rec, off)] + rest.value) == done + [AttributeAt(rec, off)] + rest.value;
    }
  }

  lemma PrependedEnds(done: seq<Attribute>)
    ensures Prepended([], Some(done)) == Prepended(done, Some([])) == Some(done)
    ensures Prepended(done, None) == None
  {
    assert [] + done == done + [] == done;
  }

  method IterAttributes(rec: seq<u8>) returns (r: Option<seq<Attribute>>)
    ensures r == Attributes(rec)
  {
    if |rec| < 0x16 || rec[..4] != FILE {
      return None;
    }
    r := ListFrom(rec, U16(rec, 0x14));
  }

  method ListFrom(rec: seq<u8>, first: nat) returns (r: Option<seq<Attribute>>)
    ensures r == AttributesFrom(rec, first)
  {
    hide AttributeAt, U32, Prepended;
    var off: nat := first;
    var attrs: seq<Attribute> := [];
    if AttributesFrom(rec, off).Some? {
      PrependedEnds(AttributesFrom(rec, off).value);
    } else {
      PrependedEnds([]);
    }
    while off + 4 <= |rec|
      invariant AttributesFrom(rec, first) == Prepended(attrs, AttributesFrom(rec, off))
      decreases |rec| - off
    {
      var kind := U32(rec, off);
      if kind == END || kind == 0 {
        break;
      }
      if off + 8 > |rec| {
        PrependedEnds(attrs);
        return None;
      }
      if Stops(rec, off) {
        break;
      }
      PrependedStep(attrs, rec, off);
      attrs := attrs + [AttributeAt(rec, off)];
      off := off + U32(rec, off + 4);
    }
    PrependedEnds(attrs);
    return Some(attrs);
  }

  /** An attribute whose size field is its length and which keeps its name and value inside. */
  predicate Sound(a: seq<u8>)
  {
    |a| >= 24 && U32(a, 0) != END && U32(a, 0) != 0 && U32(a, 4) == |a|
    && (a[9] != 0 ==> U16(a, 10) as int + 2 * a[9] as int <= |a|)
    && (a[8] == 0 ==> U16(a, 0x14) as int + U32(a, 0x10) as int <= |a|)
  }

  ghost predicate AllSound(attrs: seq<seq<u8>>)
  {
    forall a | a in attrs :: Sound(a)
  }

  /** What a reader should list for attributes `k` onwards laid out from `off`. */
  function Listed(attrs: seq<seq<u8>>, k: nat, off: nat): (r: seq<Attribute>)
    requires forall a | a in attrs :: |a| >= 24
    decreases |attrs| - k
  {
    if k >= |attrs| then []
    else [AttributeAt(attrs[k], 0).(offset := off)] + Listed(attrs, k + 1, off + |attrs[k]|)
  }

  lemma SliceAt(s: seq<u8>, off: nat, d: seq<u8>, i: nat, n: nat)
    requires At(s, off, d) && i + n <= |d|
    ensures Slice(s, off + i, off + i + n) == Slice(d, i, i + n)
  {
    AtSlice(s, off, d, i, i + n);
  }

  lemma NameMoved(rec: seq<u8>, off: nat, a: seq<u8>)
    requires Sound(a) && At(rec, off, a)
    ensures NameAt(rec, off) == NameAt(a, 0)
  {
    hide U16, U32, Slice, At;
    AtFields(rec, off, a, 10);
    AtByte(rec, off, a, 9);
    if a[9] != 0 {
      var from: nat, len: nat := U16(a, 10), a[9];
      SliceAt(rec, off, a, from, 2 * len);
    }
  }

  lemma ValueMoved(rec: seq<u8>, off: nat, a: seq<u8>)
    requires Sound(a) && At(rec, off, a)
    ensures ValueAt(rec, off) == ValueAt(a, 0)
  {
    hide U16, U32, Slice, At;
    AtFields(rec, off, a, 0x10);
    AtFields(rec, off, a, 0x14);
    AtByte(rec, off, a, 8);
    if a[8] == 0 {
      SliceAt(rec, off, a, U16(a, 0x14), U32(a, 0x10));
    }
  }

  lemma AttributeMoved(rec: seq<u8>, off: nat, a: seq<u8>)
    requires Sound(a) && At(rec, off, a)
    ensures AttributeAt(rec, off) == AttributeAt(a, 0).(offset := off)
  {
    hide U16, U32, At, NameAt, ValueAt;
    AtFields(rec, off, a, 0);
    AtFields(rec, off, a, 4);
    AtByte(rec, off, a, 8);
    NameMoved(rec, off, a);
    ValueMoved(rec, off, a);
  }

  lemma EndMark(rec: seq<u8>, off: nat, none: seq<u8>)
    requires none == [] && At(rec, off, none + TERMINATOR)
    ensures In(rec, off, 4) && U32(rec, off) == END
  {
  }

  /** Walking laid-out attributes lists exactly them, in order. */
  lemma {:induction false} WalkLists(rec: seq<u8>, attrs: seq<seq<u8>>, k: nat, off: nat)
    requires AllSound(attrs) && k <= |attrs|
    requires At(rec, off, Flat(attrs, k) + TERMINATOR)
    ensures AttributesFrom(rec, off) == Some(Listed(attrs, k, off))
    decreases |attrs| - k
  {
    hide AttributeAt, U16, U32, At;
    if k == |attrs| {
      EndMark(rec, off, Flat(attrs, k));
    } else {
      var a := attrs[k];
      assert Sound(a);
      assert Flat(attrs, k) + TERMINATOR == a + (Flat(attrs, k + 1) + TERMINATOR);
      AtSplit(rec, off, a, Flat(attrs, k + 1) + TERMINATOR);
      AtFields(rec, off, a, 0);
      AtFields(rec, off, a, 4);
      AttributeMoved(rec, off, a);
      WalkLists(rec, attrs, k + 1, off + |a|);
    }
  }

  // ----- the kernel's walk to the terminator -----

  datatype Walk =
    | NotFile
    | Raised
    | Terminator(offset: nat, seen: nat)
    | OffEnd(offset: nat, seen: nat)
    | SizeZero(offset: nat, seen: nat)
    | TinyAttr(offset: nat, size: nat)
    | TooMany

  function WalkFrom(rec: seq<u8>, off: nat, seen: nat): (w: Walk)
    decreases 64 - seen
  {
    if seen >= 64 then TooMany
    else if off + 8 > |rec| then OffEnd(off, seen)
    else if U32(rec, off) == END then Terminator(off, seen)
    else
      var size: nat := U32(rec, off + 4);
      if size == 0 then SizeZero(off, seen)
      else if size < 8 then TinyAttr(off, size)
      else WalkFrom(rec, off + size, seen + 1)
  }

  function Scan(rec: seq<u8>): (w: Walk)
  {
    if |rec| < 4 || rec[..4] != FILE then NotFile
    else if |rec| < 0x16 then Raised
    else WalkFrom(rec, U16(rec, 0x14), 0)
  }

  method WalkFileRecordTerminator(rec: seq<u8>) returns (w: Walk)
    ensures w == Scan(rec)
  {
    if |rec| < 4 || rec[..4] != FILE {
      return NotFile;
    }
    if |rec| < 0x16 {
      return Raised;
    }
    w := FollowSizes(rec, U16(rec, 0x14));
  }

  method FollowSizes(rec: seq<u8>, first: nat) returns (w: Walk)
    ensures w == WalkFrom(rec, first, 0)
  {
    hide U32;
    var off: nat := first;
    for seen := 0 to 64
      invariant WalkFrom(rec, first, 0) == WalkFrom(rec, off, seen)
    {
      if off + 8 > |rec| {
        return OffEnd(off, seen);
      }
      if U32(rec, off) == END {
        return Terminator(off, seen);
      }
      var size: nat := U32(rec, off + 4);
      if size == 0 {
        return SizeZero(off, seen);
      }
      if size < 8 {
        return TinyAttr(off, size);
      }
      off := off + size;
    }
    return TooMany;
  }

  /** The end of the attributes, which is where the terminator stands. */
  function EndOf(attrs: seq<seq<u8>>): (e: nat)
  {
    0x38 + |Flat(attrs, 0)|
  }

  lemma {:induction false} FlatLength(attrs: seq<seq<u8>>, k: nat)
    requires AllSound(attrs) && k <= |attrs|
    ensures |Flat(attrs, k)| >= 24 * (|attrs| - k)
    decreases |attrs| - k
  {
    if k < |attrs| {
      assert Sound(attrs[k]);
      FlatLength(attrs, k + 1);
    }
  }

  lemma {:induction false} WalkReaches(rec: seq<u8>, attrs: seq<seq<u8>>, k: nat, off: nat)
    requires AllSound(attrs) && k <= |attrs| < 64
    requires At(rec, off, Flat(attrs, k) + TERMINATOR)
    ensures var e := off + |Flat(attrs, k)|;
            WalkFrom(rec, off, k) == if e + 8 <= |rec| then Terminator(e, |attrs|) else OffEnd(e, |attrs|)
    decreases |attrs| - k
  {
    hide U16, U32, At;
    if k == |attrs| {
      EndMark(rec, off, Flat(attrs, k));
    } else {
      var a := attrs[k];
      assert Sound(a);
      assert Flat(attrs, k) + TERMINATOR == a + (Flat(attrs, k + 1) + TERMINATOR);
      AtSplit(rec, off, a, Flat(attrs, k + 1) + TERMINATOR);
      AtFields(rec, off, a, 0);
      AtFields(rec, off, a, 4);
      WalkReaches(rec, attrs, k + 1, off + |a|);
    }
  }

  // ----- a built record read back -----

  lemma HeaderFields(seqNo: u16, flags: u16, realSize: u32)
    ensures var h := Header(seqNo, flags, realSize);
            h[..4] == FILE && U16(h, 4) == 0x30 && U16(h, 6) == 3 && U16(h, 0x14) == 0x38
  {
  }

  /** Fixing up a protected body is valid and gives the body back, USA filled in. */
  lemma FixupRestores(body: seq<u8>)
    requires |body| == RECORD && body[..4] == FILE && U16(body, 4) == 0x30 && U16(body, 6) == 3
    ensures Fixup(Protect(body), 512) == Some(Fixed(Restored(body), true))
  {
    var raw := Protect(body);
    var usa := Usa(body);
    assert raw[..0x30] == body[..0x30];
    assert raw[..4] == raw[..0x30][..4] == body[..0x30][..4] == body[..4];
    assert At(raw, 0, body[..0x30]) && At(body, 0, body[..0x30]);
    AtFields(raw, 0, body[..0x30], 4);
    AtFields(raw, 0, body[..0x30], 6);
    AtFields(body, 0, body[..0x30], 4);
    AtFields(body, 0, body[..0x30], 6);
    assert Slice(raw, 0x30, 0x36) == usa;
    FixedTwice(body);
  }

  lemma FixedTwice(body: seq<u8>)
    requires |body| == RECORD
    ensures FixFrom(Protect(body), Usa(body), 512, 3, 1, true) == Some(Fixed(Restored(body), true))
  {
    var raw, usa := Protect(body), Usa(body);
    assert raw[510..512] == LE16(1) && raw[1022..1024] == LE16(1);
    assert raw[510] == 1 && raw[511] == 0 && raw[1022] == 1 && raw[1023] == 0;
    assert usa[0] == 1 && usa[1] == 0;
    assert usa[2] == body[510] && usa[3] == body[511] && usa[4] == body[1022] && usa[5] == body[1023];
    var one := raw[510 := usa[2]][511 := usa[3]];
    var two := one[1022 := usa[4]][1023 := usa[5]];
    assert U16(one, 1022) == 1;
    assert FixFrom(one, usa, 512, 3, 2, true) == FixFrom(two, usa, 512, 3, 3, true);
    assert two == Restored(body);
  }

  /**
   Round trip of a record: whatever attributes the builder accepts, the fix-up of
   the bytes it produced is valid, the reader lists those attributes in order, and
   the kernel's walk ends at the terminator behind them, unless less than eight
   bytes of the record are left there.
   */
  ghost predicate ReadsBack(raw: seq<u8>, attrs: seq<seq<u8>>)
    requires AllSound(attrs)
  {
    var f := Fixup(raw, 512);
    f.Some? && f.value.valid && |f.value.logical| == RECORD
    && Attributes(f.value.logical) == Some(Listed(attrs, 0, 0x38))
    && Scan(f.value.logical) == (if EndOf(attrs) + 8 <= RECORD
                                 then Terminator(EndOf(attrs), |attrs|) else OffEnd(EndOf(attrs), |attrs|))
  }

  lemma BodyRestored(body: seq<u8>, header: seq<u8>, laid: seq<u8>, rest: seq<u8>)
    requires |body| == RECORD && |header| == 0x38 && body == header + laid + rest
    ensures Restored(body)[..0x30] == header[..0x30] == body[..0x30]
    ensures At(Restored(body), 0x38, laid)
  {
  }

  lemma PrefixFields(s: seq<u8>, t: seq<u8>)
    requires |s| >= 0x30 && |t| >= 0x30 && s[..0x30] == t[..0x30]
    ensures s[..4] == t[..4] && U16(s, 4) == U16(t, 4) && U16(s, 6) == U16(t, 6)
    ensures U16(s, 0x14) == U16(t, 0x14)
  {
  }

  /** What a reader gets of a built record: its header and, behind the array, its attributes and the end mark. */
  lemma RecordHolds(seqNo: nat, inUse: bool, realSize: nat, attrs: seq<seq<u8>>, isDir: bool)
    requires Record(seqNo, inUse, realSize, attrs, isDir).Some?
    ensures var f := Fixup(Record(seqNo, inUse, realSize, attrs, isDir).value, 512);
            && f.Some? && f.value.valid && |f.value.logical| == RECORD
            && seqNo < 0x1_0000 && realSize < TWO32 && Fits(attrs)
            && f.value.logical[..0x30] == Header(seqNo, Flags(inUse, isDir), realSize)[..0x30]
            && At(f.value.logical, 0x38, Flat(attrs, 0) + TERMINATOR)
  {
    hide Header, Flat, Protect, Restored, Fixup, At;
    var header := Header(seqNo, Flags(inUse, isDir), realSize);
    var body := Body(seqNo, Flags(inUse, isDir), realSize, attrs);
    var laid := Flat(attrs, 0) + TERMINATOR;
    HeaderFields(seqNo, Flags(inUse, isDir), realSize);
    BodyRestored(body, header, laid, Zeros(RECORD - 0x38 - |laid|));
    PrefixFields(body, header);
    FixupRestores(body);
  }

  lemma RecordReadsBack(seqNo: nat, inUse: bool, realSize: nat, attrs: seq<seq<u8>>, isDir: bool)
    requires AllSound(attrs)
    requires Record(seqNo, inUse, realSize, attrs, isDir).Some?
    ensures ReadsBack(Record(seqNo, inUse, realSize, attrs, isDir).value, attrs)
  {
    hide Header, AttributesFrom, WalkFrom, Listed, Flat, Record, Fixup, At;
    RecordHolds(seqNo, inUse, realSize, attrs, isDir);
    var logical := Fixup(Record(seqNo, inUse, realSize, attrs, isDir).value, 512).value.logical;
    HeaderFields(seqNo, Flags(inUse, isDir), realSize);
    PrefixFields(logical, Header(seqNo, Flags(inUse, isDir), realSize));
    WalkLists(logical, attrs, 0, 0x38);
    FlatLength(attrs, 0);
    WalkReaches(logical, attrs, 0, 0x38);
  }

  // ----- resident attributes -----

  /** A resident attribute header: type, length, name length and offset, value length and offset. */
  function ResidentHead(kind: u32, total: u32, nameLen: u8, nameOff: u16, valLen: u32, valOff: u16): (h: seq<u8>)
    ensures |h| == 24
  {
    LE32(kind) + LE32(total) + [0, nameLen] + LE16(nameOff) + Zeros(4) + LE32(valLen) + LE16(valOff) + Zeros(2)
  }

  lemma ResidentFields(kind: u32, total: u32, nameLen: u8, nameOff: u16, valLen: u32, valOff: u16)
    ensures var h := ResidentHead(kind, total, nameLen, nameOff, valLen, valOff);
            U32(h, 0) == kind && U32(h, 4) == total && h[8] == 0 && h[9] == nameLen && U16(h, 10) == nameOff
            && U32(h, 0x10) == valLen && U16(h, 0x14) == valOff
  {
    var h := ResidentHead(kind, total, nameLen, nameOff, valLen, valOff);
    LE32RoundTrip(kind);
    LE32RoundTrip(total);
    LE32RoundTrip(valLen);
    LE16RoundTrip(nameOff);
    LE16RoundTrip(valOff);
    assert At(h, 0, LE32(kind)) && At(h, 4, LE32(total)) && At(h, 10, LE16(nameOff));
    assert At(h, 0x10, LE32(valLen)) && At(h, 0x14, LE16(valOff));
    AtFields(h, 0, LE32(kind), 0);
    AtFields(h, 4, LE32(total), 0);
    AtFields(h, 10, LE16(nameOff), 0);
    AtFields(h, 0x10, LE32(valLen), 0);
    AtFields(h, 0x14, LE16(valOff), 0);
  }

  /** A resident attribute put together from its header and its parts reads back as such. */
  lemma ResidentReadsBack(kind: u32, name: seq<u8>, gap: seq<u8>, value: seq<u8>)
    requires kind != END && kind != 0
    requires |name| % 2 == 0 && |name| < 512 && 24 + |name| + |gap| < 0x1_0000
    requires 24 + |name| + |gap| + |value| < TWO32
    ensures var a := ResidentHead(kind, 24 + |name| + |gap| + |value|, |name| / 2, if name == [] then 0 else 24,
                                  |value|, 24 + |name| + |gap|) + name + gap + value;
            Sound(a) && AttributeAt(a, 0) == Attribute(kind, |a|, false, name, value, 0)
  {
    var h := ResidentHead(kind, 24 + |name| + |gap| + |value|, |name| / 2, if name == [] then 0 else 24,
                          |value|, 24 + |name| + |gap|);
    ResidentFields(kind, 24 + |name| + |gap| + |value|, |name| / 2, if name == [] then 0 else 24,
                   |value|, 24 + |name| + |gap|);
    ResidentParts(h, kind, name, gap, value);
  }

  lemma ResidentParts(h: seq<u8>, kind: u32, name: seq<u8>, gap: seq<u8>, value: seq<u8>)
    requires kind != END && kind != 0
    requires |name| % 2 == 0 && |name| < 512 && |h| == 24
    requires U32(h, 0) == kind && U32(h, 4) == 24 + |name| + |gap| + |value|
    requires h[8] == 0 && h[9] == |name| / 2 && (name != [] ==> U16(h, 10) == 24)
    requires U32(h, 0x10) == |value| && U16(h, 0x14) == 24 + |name| + |gap|
    ensures var a := h + name + gap + value;
            Sound(a) && AttributeAt(a, 0) == Attribute(kind, |a|, false, name, value, 0)
  {
    hide U16, U32;
    var a := h + name + gap + value;
    assert At(a, 0, h) by { assert a[..24] == h; }
    AtFields(a, 0, h, 0);
    AtFields(a, 0, h, 4);
    AtFields(a, 0, h, 10);
    AtFields(a, 0, h, 0x10);
    AtFields(a, 0, h, 0x14);
    assert a[24..24 + |name|] == name;
    assert a[24 + |name| + |gap|..] == value;
  }

  // ----- walks on any bytes -----

  /** Each stop is an attribute of at least `least` bytes that is no end mark, and its size leads to the next. */
  ghost predicate Trail(rec: seq<u8>, stops: seq<nat>, least: nat)
  {
    && |stops| > 0
    && forall i: nat | i + 1 < |stops| ::
         && stops[i] + 8 <= |rec| && U32(rec, stops[i]) != 0xFFFF_FFFF && U32(rec, stops[i] + 4) >= least
         && stops[i + 1] == stops[i] + U32(rec, stops[i] + 4)
  }

  /** Where the kernel's walk may end after `seen` attributes, and how. */
  ghost predicate Ends(rec: seq<u8>, o: nat, seen: nat, w: Walk)
  {
    match w
    case Terminator(off, n) => off == o && n == seen < 64 && o + 8 <= |rec| && U32(rec, o) == 0xFFFF_FFFF
    case OffEnd(off, n) => off == o && n == seen < 64 && o + 8 > |rec|
    case SizeZero(off, n) =>
      off == o && n == seen < 64 && o + 8 <= |rec| && U32(rec, o) != 0xFFFF_FFFF && U32(rec, o + 4) == 0
    case TinyAttr(off, size) =>
      off == o && seen < 64 && o + 8 <= |rec| && U32(rec, o) != 0xFFFF_FFFF && 0 < U32(rec, o + 4) == size < 8
    case TooMany => seen == 64
    case _ => false
  }

  lemma TrailStep(rec: seq<u8>, off: nat, rest: seq<nat>, least: nat)
    requires off + 8 <= |rec| && U32(rec, off) != 0xFFFF_FFFF && U32(rec, off + 4) >= least
    requires Trail(rec, rest, least) && rest[0] == off + U32(rec, off + 4)
    ensures Trail(rec, [off] + rest, least)
  {
    hide U32;
    var all := [off] + rest;
    forall i: nat | i + 1 < |all|
      ensures all[i] + 8 <= |rec| && U32(rec, all[i]) != 0xFFFF_FFFF && U32(rec, all[i] + 4) >= least
      ensures all[i + 1] == all[i] + U32(rec, all[i] + 4)
    {
      if i > 0 {
        assert all[i] == rest[i - 1] && all[i + 1] == rest[i - 1 + 1];
      }
    }
  }

  /** On any bytes the kernel's walk follows the trail of sizes, at most 64 of them, to an end of that kind. */
  lemma {:induction false} WalkTrail(rec: seq<u8>, off: nat, seen: nat) returns (stops: seq<nat>)
    requires seen <= 64
    ensures Trail(rec, stops, 8) && stops[0] == off && seen + |stops| <= 65
    ensures Ends(rec, stops[|stops| - 1], seen + |stops| - 1, WalkFrom(rec, off, seen))
    decreases 64 - seen
  {
    hide U32;
    if seen < 64 && off + 8 <= |rec| && U32(rec, off) != END && U32(rec, off + 4) >= 8 {
      var rest := WalkTrail(rec, off + U32(rec, off + 4), seen + 1);
      stops := [off] + rest;
      TrailStep(rec, off, rest, 8);
    } else {
      stops := [off];
    }
  }

  /** Where the attribute loop stops: off the end, an end mark, type 0, or a size that cannot be. */
  ghost predicate ListEnds(rec: seq<u8>, o: nat)
  {
    || o + 4 > |rec| || U32(rec, o) == 0xFFFF_FFFF || U32(rec, o) == 0
    || (o + 8 <= |rec| && (U32(rec, o + 4) < 24 || o + U32(rec, o + 4) > |rec|))
  }

  /** On any bytes the attribute loop lists the attributes of the trail in order, or raises on a cut header. */
  lemma {:induction false} ListTrail(rec: seq<u8>, off: nat) returns (stops: seq<nat>)
    ensures Trail(rec, stops, 24) && stops[0] == off
    ensures var o, r := stops[|stops| - 1], AttributesFrom(rec, off);
            && (r.Some? <==> ListEnds(rec, o)) && (r.None? ==> |rec| - 8 < o <= |rec| - 4)
            && (r.Some? ==> |r.value| == |stops| - 1)
    ensures var r := AttributesFrom(rec, off);
            r.Some? ==> forall i: nat | i < |r.value| ::
                          In(rec, stops[i], 24) && r.value[i] == AttributeAt(rec, stops[i])
    decreases |rec| - off
  {
    hide U32, AttributeAt;
    if off + 8 <= |rec| && U32(rec, off) != END && U32(rec, off) != 0 && !Stops(rec, off) {
      var rest := ListTrail(rec, off + U32(rec, off + 4));
      stops := [off] + rest;
      TrailStep(rec, off, rest, 24);
    } else {
      stops := [off];
    }
  }
}
