/**
 What relocation and symbol fixup mean for the bytes of a COFF image, stated over the
 tables of the file format: section `i` has its 40-byte header after the 20-byte file
 header, entry `j` of a section is ten bytes, a symbol record eighteen. Relocation type 6
 is an absolute address, type 20 an offset from the end of the patched dword.
 */
module CoffMeaning {
  import opened Words
  import opened CoffReloc
  import opened CoffSymbols

  // ----- the tables, by index -----

  function SectionOff(coff: nat, i: nat): (off: nat)
  {
    coff + 20 + 40 * i
  }

  /** Section `i` can be read, and the set holds the fields a run reads. */
  ghost predicate SectionPlaced(m: seq<u8>, meta: Meta, coff: nat, i: nat)
  {
    var sec := SectionOff(coff, i);
    In(m, sec, 34) && Held(meta, sec + 12, 4) && Held(meta, sec + 24, 4) && Held(meta, sec + 32, 2)
  }

  function EntryOff(m: seq<u8>, coff: nat, i: nat, j: nat): (off: nat)
    requires In(m, SectionOff(coff, i), 34)
  {
    coff + U32(m, SectionOff(coff, i) + 24) + 10 * j
  }

  function EntryCount(m: seq<u8>, coff: nat, i: nat): (n: nat)
    requires In(m, SectionOff(coff, i), 34)
  {
    U16(m, SectionOff(coff, i) + 32)
  }

  /** Entry `j` of section `i` and its symbol can be read. */
  predicate EntryReads(m: seq<u8>, coff: nat, sym: nat, i: nat, j: nat)
  {
    && In(m, SectionOff(coff, i), 34)
    && In(m, EntryOff(m, coff, i, j), 10)
    && In(m, sym + 18 * U32(m, EntryOff(m, coff, i, j) + 4) + 8, 4)
  }

  /** The place an entry names: its own address plus its section's. */
  function Place(m: seq<u8>, coff: nat, sym: nat, i: nat, j: nat): (p: int)
    requires EntryReads(m, coff, sym, i, j)
  {
    var own: int, section: int := U32(m, EntryOff(m, coff, i, j)), U32(m, SectionOff(coff, i) + 12);
    own + section
  }

  function SymbolValue(m: seq<u8>, coff: nat, sym: nat, i: nat, j: nat): (s: int)
    requires EntryReads(m, coff, sym, i, j)
  {
    U32(m, sym + 18 * U32(m, EntryOff(m, coff, i, j) + 4) + 8)
  }

  function EntryType(m: seq<u8>, coff: nat, sym: nat, i: nat, j: nat): (t: int)
    requires EntryReads(m, coff, sym, i, j)
  {
    U16(m, EntryOff(m, coff, i, j) + 8)
  }

  /** Entry `j` of section `i` patches the dword at `a`. */
  predicate Patches(m: seq<u8>, coff: nat, sym: nat, delta: u32, i: nat, j: nat, a: int)
    requires EntryReads(m, coff, sym, i, j)
  {
    var t := EntryType(m, coff, sym, i, j);
    (t == 6 || t == 20) && (Place(m, coff, sym, i, j) + delta) % TWO32 == a
  }

  /** What the entry adds: the symbol, for type 20 counted from the end of the dword. */
  function Adds(m: seq<u8>, coff: nat, sym: nat, i: nat, j: nat): (v: int)
    requires EntryReads(m, coff, sym, i, j)
  {
    SymbolValue(m, coff, sym, i, j)
    - (if EntryType(m, coff, sym, i, j) == 20 then Place(m, coff, sym, i, j) + 4 else 0)
  }

  /** The entry can be read, the set holds what it reads, and what it patches is inside the image and off the set. */
  ghost predicate EntryPlaced(m: seq<u8>, meta: Meta, coff: nat, sym: nat, delta: u32, i: nat, j: nat)
  {
    EntryReads(m, coff, sym, i, j)
    && var e := EntryOff(m, coff, i, j);
       Held(meta, e, 10) && Held(meta, sym + 18 * U32(m, e + 4) + 8, 4)
       && forall a: u32 | Patches(m, coff, sym, delta, i, j, a) :: a + 4 <= |m| && OffMeta(meta, Fix(a, 0))
  }

  ghost predicate SectionsPlaced(m: seq<u8>, meta: Meta, coff: nat, n: nat)
  {
    forall i: nat | i < n :: SectionPlaced(m, meta, coff, i)
  }

  ghost predicate EntriesPlaced(m: seq<u8>, meta: Meta, coff: nat, sym: nat, delta: u32, i: nat)
  {
    In(m, SectionOff(coff, i), 34)
    && forall j: nat | j < EntryCount(m, coff, i) :: EntryPlaced(m, meta, coff, sym, delta, i, j)
  }

  /** The whole image: every table readable, every patch inside the image and off the tables. */
  ghost predicate Placed(m: seq<u8>, meta: Meta, coff: nat, sym: nat, delta: u32)
  {
    && In(m, coff + 2, 2) && Held(meta, coff + 2, 2)
    && SectionsPlaced(m, meta, coff, U16(m, coff + 2))
    && forall i: nat | i < U16(m, coff + 2) :: EntriesPlaced(m, meta, coff, sym, delta, i)
  }

  // ----- what is added to a dword -----

  /** What the entries of section `i` from `j` on add to the dword at `a`. */
  ghost function EntriesAdd(m: seq<u8>, meta: Meta, coff: nat, sym: nat, delta: u32, i: nat, j: nat, a: int): (v: int)
    requires EntriesPlaced(m, meta, coff, sym, delta, i)
    decreases EntryCount(m, coff, i) - j
  {
    if j >= EntryCount(m, coff, i) then 0
    else
      assert EntryPlaced(m, meta, coff, sym, delta, i, j);
      (if Patches(m, coff, sym, delta, i, j, a) then Adds(m, coff, sym, i, j) else 0)
      + EntriesAdd(m, meta, coff, sym, delta, i, j + 1, a)
  }

  /** What the sections from `i` on add. */
  ghost function SectionsAdd(m: seq<u8>, meta: Meta, coff: nat, sym: nat, delta: u32, i: nat, a: int): (v: int)
    requires Placed(m, meta, coff, sym, delta)
    decreases U16(m, coff + 2) as int - i
  {
    if i >= U16(m, coff + 2) then 0
    else EntriesAdd(m, meta, coff, sym, delta, i, 0, a) + SectionsAdd(m, meta, coff, sym, delta, i + 1, a)
  }

  // ----- the same tables, as the run walks them -----

  lemma EntryIs(m: seq<u8>, coff: nat, sym: nat, delta: u32, i: nat, j: nat)
    requires EntryReads(m, coff, sym, i, j)
    ensures var e := EntryOff(m, coff, i, j); var va := U32(m, SectionOff(coff, i) + 12);
            && RelocReads(m, e, sym) && SymAddr(m, e, sym) == sym + 18 * U32(m, e + 4) + 8
            && var f := FixOf(m, e, va, sym, delta);
               && (f.Some? <==> EntryType(m, coff, sym, i, j) in {6, 20})
               && (f.Some? ==> Patches(m, coff, sym, delta, i, j, f.value.slot)
                               && f.value.addend == Wrap32(Adds(m, coff, sym, i, j)))
  {
    hide U32, U16, Wrap32;
    var e := EntryOff(m, coff, i, j);
    var own: int, section: int := U32(m, e), U32(m, SectionOff(coff, i) + 12);
    var s := SymbolValue(m, coff, sym, i, j);
    WrapTwice(own + section, delta);
    WrapMinus(own + section, s - 4);
    WrapOf(own + section + delta);
    WrapOf(s);
  }

  lemma WrapOf(x: int)
    ensures Wrap32(x) == x % TWO32 && (0 <= x < TWO32 ==> Wrap32(x) == x)
  {
  }

  lemma WrapTwice(x: int, y: int)
    ensures Wrap32(Wrap32(x) + y) == Wrap32(x + y)
  {
  }

  lemma WrapMinus(x: int, y: int)
    ensures Wrap32(y - Wrap32(x)) == Wrap32(y - x)
  {
    var k := x / TWO32;
    assert x == TWO32 * k + Wrap32(x);
    Multiple(y - x, k);
  }

  lemma Multiple(x: int, k: int)
    ensures Wrap32(x + TWO32 * k) == Wrap32(x)
  {
  }

  lemma SlotIs(m: seq<u8>, coff: nat, sym: nat, delta: u32, i: nat, j: nat, a: int)
    requires EntryReads(m, coff, sym, i, j)
    ensures var f := FixOf(m, EntryOff(m, coff, i, j), U32(m, SectionOff(coff, i) + 12), sym, delta);
            Patches(m, coff, sym, delta, i, j, a) <==> f.Some? && f.value.slot == a
  {
    hide U32, U16, FixOf, Place;
    EntryIs(m, coff, sym, delta, i, j);
  }

  lemma NextEntry(m: seq<u8>, coff: nat, i: nat, j: nat)
    requires In(m, SectionOff(coff, i), 34)
    ensures EntryOff(m, coff, i, j + 1) == EntryOff(m, coff, i, j) + RELOC_SIZE
    ensures SectionOff(coff, i + 1) == SectionOff(coff, i) + SECTION_SIZE
    ensures SectionOff(coff, 0) == coff + HEADER_SIZE
  {
  }

  /** Congruence modulo 2^32. */
  predicate Cong(x: int, y: int)
  {
    (x - y) % TWO32 == 0
  }

  lemma CongAdd(x: int, y: int, u: int, v: int)
    requires Cong(x, y) && Cong(u, v)
    ensures Cong(x + u, y + v)
  {
    var k, l := (x - y) / TWO32, (u - v) / TWO32;
    assert (x + u) - (y + v) == TWO32 * (k + l);
  }

  lemma CongWrap(x: int, y: int)
    ensures Cong(Wrap32(x), x)
    ensures Cong(x, y) <==> Wrap32(x) == Wrap32(y)
  {
    var k, l := x / TWO32, y / TWO32;
    assert x == TWO32 * k + Wrap32(x) && y == TWO32 * l + Wrap32(y);
    assert Wrap32(x) - x == TWO32 * (-k);
    if Cong(x, y) {
      var d := (x - y) / TWO32;
      assert Wrap32(x) - Wrap32(y) == TWO32 * (d - k + l);
    }
    if Wrap32(x) == Wrap32(y) {
      assert x - y == TWO32 * (k - l);
    }
  }

  // ----- from indices to the run -----

  /** The entries of section `i` from `j` on, as a walk. */
  lemma {:induction false} EntriesWalk(m: seq<u8>, meta: Meta, coff: nat, sym: nat, delta: u32, i: nat, j: nat, a: int)
    requires EntriesPlaced(m, meta, coff, sym, delta, i) && j <= EntryCount(m, coff, i)
    ensures var e, n, va := EntryOff(m, coff, i, j), EntryCount(m, coff, i) - j, U32(m, SectionOff(coff, i) + 12);
            && RelocsRead(m, e, n, sym) && RelocsHeld(m, meta, e, n, sym)
            && Safe(meta, |m|, RelocFixes(m, e, n, va, sym, delta))
            && Cong(SumAt(RelocFixes(m, e, n, va, sym, delta), a), EntriesAdd(m, meta, coff, sym, delta, i, j, a))
    decreases EntryCount(m, coff, i) - j
  {
    hide U32, U16, FixOf, Place, SymbolValue, EntryType, Patches, Adds, Cong, RelocReads, SymAddr, Wrap32, OffMeta,
         EntryOff, EntryCount, SectionOff, EntryReads, Held;
    var n := EntryCount(m, coff, i) - j;
    if n == 0 {
      CongWrap(0, 0);
    } else {
      assert EntryPlaced(m, meta, coff, sym, delta, i, j);
      EntriesWalk(m, meta, coff, sym, delta, i, j + 1, a);
      NextEntry(m, coff, i, j);
      EntryStep(m, meta, coff, sym, delta, i, j, n, a, EntriesAdd(m, meta, coff, sym, delta, i, j + 1, a));
    }
  }

  lemma EntryStep(m: seq<u8>, meta: Meta, coff: nat, sym: nat, delta: u32, i: nat, j: nat, n: nat, a: int, g: int)
    requires n > 0 && EntryPlaced(m, meta, coff, sym, delta, i, j)
    requires var e, va := EntryOff(m, coff, i, j), U32(m, SectionOff(coff, i) + 12);
             && RelocsRead(m, e + RELOC_SIZE, n - 1, sym) && RelocsHeld(m, meta, e + RELOC_SIZE, n - 1, sym)
             && Safe(meta, |m|, RelocFixes(m, e + RELOC_SIZE, n - 1, va, sym, delta))
             && Cong(SumAt(RelocFixes(m, e + RELOC_SIZE, n - 1, va, sym, delta), a), g)
    ensures var e, va := EntryOff(m, coff, i, j), U32(m, SectionOff(coff, i) + 12);
            && RelocsRead(m, e, n, sym) && RelocsHeld(m, meta, e, n, sym)
            && Safe(meta, |m|, RelocFixes(m, e, n, va, sym, delta))
            && Cong(SumAt(RelocFixes(m, e, n, va, sym, delta), a),
                    (if Patches(m, coff, sym, delta, i, j, a) then Adds(m, coff, sym, i, j) else 0) + g)
  {
    hide U32, U16, FixOf, Place, SymbolValue, EntryType, Patches, Adds, Cong, RelocReads, Wrap32, OffMeta, EntryOff,
         SectionOff, SymAddr;
    var e, va := EntryOff(m, coff, i, j), U32(m, SectionOff(coff, i) + 12);
    EntryIs(m, coff, sym, delta, i, j);
    SlotIs(m, coff, sym, delta, i, j, a);
    var f := FixOf(m, e, va, sym, delta);
    var rest := RelocFixes(m, e + RELOC_SIZE, n - 1, va, sym, delta);
    var all := RelocFixes(m, e, n, va, sym, delta);
    if f.Some? {
      assert all == [f.value] + rest && all[0] == f.value && all[1..] == rest;
      SlotSafe(m, meta, coff, sym, delta, i, j, f.value);
      assert Safe(meta, |m|, all) by { assert forall k | 1 <= k < |all| :: all[k] == rest[k - 1]; }
    } else {
      assert all == rest;
    }
    var add := Adds(m, coff, sym, i, j);
    CongWrap(add, 0);
    CongAdd(Wrap32(add), add, SumAt(rest, a), g);
  }

  lemma SlotSafe(m: seq<u8>, meta: Meta, coff: nat, sym: nat, delta: u32, i: nat, j: nat, f: Fix)
    requires EntryPlaced(m, meta, coff, sym, delta, i, j) && Patches(m, coff, sym, delta, i, j, f.slot)
    ensures f.slot + 4 <= |m| && OffMeta(meta, f)
  {
    hide Patches, Held, U32;
    assert OffMeta(meta, Fix(f.slot, 0));
  }

  /** The sections from `i` on, as a walk. */
  lemma {:induction false} SectionsWalk(m: seq<u8>, meta: Meta, coff: nat, sym: nat, delta: u32, i: nat, a: int)
    requires Placed(m, meta, coff, sym, delta) && i <= U16(m, coff + 2)
    ensures var sec, n := SectionOff(coff, i), U16(m, coff + 2) - i;
            && SectionsRead(m, coff, sec, n, sym) && SectionsHeld(m, meta, coff, sec, n, sym)
            && Safe(meta, |m|, SectionFixes(m, coff, sec, n, sym, delta))
            && Cong(SumAt(SectionFixes(m, coff, sec, n, sym, delta), a), SectionsAdd(m, meta, coff, sym, delta, i, a))
    decreases U16(m, coff + 2) as int - i
  {
    hide U32, U16, EntriesPlaced, Cong, Held, RelocFixes, RelocsRead, RelocsHeld, Safe, EntriesAdd, SumAt;
    var n := U16(m, coff + 2) - i;
    if n == 0 {
      NoFixes(meta, |m|, a);
    } else {
      assert SectionPlaced(m, meta, coff, i) && EntriesPlaced(m, meta, coff, sym, delta, i);
      SectionsWalk(m, meta, coff, sym, delta, i + 1, a);
      SectionStep(m, meta, coff, sym, delta, i, a);
      var x := RelocFixes(m, EntryOff(m, coff, i, 0), EntryCount(m, coff, i), U32(m, SectionOff(coff, i) + 12), sym,
                          delta);
      var y := SectionFixes(m, coff, SectionOff(coff, i) + 40, n - 1, sym, delta);
      JoinFixes(meta, |m|, x, y, a);
      CongAdd(SumAt(x, a), EntriesAdd(m, meta, coff, sym, delta, i, 0, a),
              SumAt(y, a), SectionsAdd(m, meta, coff, sym, delta, i + 1, a));
    }
  }

  lemma SectionStep(m: seq<u8>, meta: Meta, coff: nat, sym: nat, delta: u32, i: nat, a: int)
    requires EntriesPlaced(m, meta, coff, sym, delta, i)
    ensures var sec := SectionOff(coff, i); var e, n := coff + U32(m, sec + 24), U16(m, sec + 32);
            && e == EntryOff(m, coff, i, 0) && n == EntryCount(m, coff, i)
            && RelocsRead(m, e, n, sym) && RelocsHeld(m, meta, e, n, sym)
            && Safe(meta, |m|, RelocFixes(m, e, n, U32(m, sec + 12), sym, delta))
            && Cong(SumAt(RelocFixes(m, e, n, U32(m, sec + 12), sym, delta), a),
                    EntriesAdd(m, meta, coff, sym, delta, i, 0, a))
  {
    hide U32, U16, Cong, RelocFixes, RelocsRead, RelocsHeld, Safe, EntriesAdd, SumAt, EntriesPlaced;
    EntriesWalk(m, meta, coff, sym, delta, i, 0, a);
  }

  lemma NoFixes(meta: Meta, len: nat, a: int)
    ensures Safe(meta, len, []) && SumAt([], a) == 0 && Cong(0, 0)
  {
  }

  lemma {:induction false} JoinFixes(meta: Meta, len: nat, x: seq<Fix>, y: seq<Fix>, a: int)
    requires Safe(meta, len, x) && Safe(meta, len, y)
    ensures Safe(meta, len, x + y) && SumAt(x + y, a) == SumAt(x, a) + SumAt(y, a)
  {
    hide OffMeta;
    SumJoin(x, y, a);
  }

  lemma {:induction false} SumJoin(x: seq<Fix>, y: seq<Fix>, a: int)
    ensures SumAt(x + y, a) == SumAt(x, a) + SumAt(y, a)
    decreases |x|
  {
    if x == [] {
      assert x + y == y;
    } else {
      assert (x + y)[1..] == x[1..] + y;
      SumJoin(x[1..], y, a);
    }
  }

  /** What is by indices is what the run needs. */
  lemma PlacedIsSound(m: seq<u8>, meta: Meta, coff: nat, sym: nat, delta: u32, a: int)
    requires Placed(m, meta, coff, sym, delta)
    ensures Sound(m, coff, sym, delta, meta) && Readable(m, coff, sym)
    ensures Cong(SumAt(Fixes(m, coff, sym, delta), a), SectionsAdd(m, meta, coff, sym, delta, 0, a))
  {
    hide U32, U16, Cong, Held, SectionFixes, SectionsRead, SectionsHeld, Safe, SectionsAdd, SumAt, EntriesPlaced,
         SectionsPlaced;
    SectionsWalk(m, meta, coff, sym, delta, 0, a);
  }

  // ----- slots by index -----

  /** Whatever the entry patches is the dword at `a` or disjoint from it. */
  ghost predicate EntryApart(m: seq<u8>, coff: nat, sym: nat, delta: u32, i: nat, j: nat, a: int)
  {
    EntryReads(m, coff, sym, i, j) && forall b: u32 | Patches(m, coff, sym, delta, i, j, b) :: Apart(b, a)
  }

  ghost predicate AllApart(m: seq<u8>, coff: nat, sym: nat, delta: u32, a: int)
  {
    forall i: nat, j: nat | IsEntry(m, coff, i, j) :: EntryApart(m, coff, sym, delta, i, j, a)
  }

  /** The image has an entry `j` in a section `i`. */
  predicate IsEntry(m: seq<u8>, coff: nat, i: nat, j: nat)
  {
    In(m, coff + 2, 2) && i < U16(m, coff + 2) && In(m, SectionOff(coff, i), 34) && j < EntryCount(m, coff, i)
  }

  /** Every patch of a section comes from one of its entries. */
  lemma {:induction false} EntryFrom(m: seq<u8>, meta: Meta, coff: nat, sym: nat, delta: u32, i: nat, j: nat, f: Fix)
    returns (l: nat)
    requires EntriesPlaced(m, meta, coff, sym, delta, i) && j <= EntryCount(m, coff, i)
    requires var e, n := EntryOff(m, coff, i, j), EntryCount(m, coff, i) - j;
             RelocsRead(m, e, n, sym) && f in RelocFixes(m, e, n, U32(m, SectionOff(coff, i) + 12), sym, delta)
    ensures l < EntryCount(m, coff, i) && EntryReads(m, coff, sym, i, l)
    ensures Patches(m, coff, sym, delta, i, l, f.slot)
    decreases EntryCount(m, coff, i) - j
  {
    hide U32, U16, FixOf, Patches, RelocReads, EntryOff, EntryCount, SectionOff, EntryReads, Adds, EntryType, Held;
    assert EntryPlaced(m, meta, coff, sym, delta, i, j);
    EntryIs(m, coff, sym, delta, i, j);
    NextEntry(m, coff, i, j);
    var g := FixOf(m, EntryOff(m, coff, i, j), U32(m, SectionOff(coff, i) + 12), sym, delta);
    if g == Some(f) {
      l := j;
    } else {
      l := EntryFrom(m, meta, coff, sym, delta, i, j + 1, f);
    }
  }

  lemma {:induction false} PatchFrom(m: seq<u8>, meta: Meta, coff: nat, sym: nat, delta: u32, i: nat, f: Fix)
    returns (k: nat, l: nat)
    requires Placed(m, meta, coff, sym, delta) && i <= U16(m, coff + 2)
    requires var sec, n := SectionOff(coff, i), U16(m, coff + 2) - i;
             SectionsRead(m, coff, sec, n, sym) && f in SectionFixes(m, coff, sec, n, sym, delta)
    ensures IsEntry(m, coff, k, l) && EntryReads(m, coff, sym, k, l) && Patches(m, coff, sym, delta, k, l, f.slot)
    decreases U16(m, coff + 2) as int - i
  {
    hide U32, U16, RelocsRead, RelocFixes, EntriesPlaced, Patches, EntryReads, SectionsPlaced;
    assert EntriesPlaced(m, meta, coff, sym, delta, i);
    SectionStep(m, meta, coff, sym, delta, i, 0);
    var sec := SectionOff(coff, i);
    if f in RelocFixes(m, coff + U32(m, sec + 24), U16(m, sec + 32), U32(m, sec + 12), sym, delta) {
      k := i;
      l := EntryFrom(m, meta, coff, sym, delta, i, 0, f);
    } else {
      k, l := PatchFrom(m, meta, coff, sym, delta, i + 1, f);
    }
  }

  lemma AllClear(m: seq<u8>, meta: Meta, coff: nat, sym: nat, delta: u32, a: int)
    requires Placed(m, meta, coff, sym, delta) && Sound(m, coff, sym, delta, meta) && Readable(m, coff, sym)
    requires AllApart(m, coff, sym, delta, a)
    ensures Clear(Fixes(m, coff, sym, delta), |m|, a)
  {
    hide U32, U16, Placed, Apart, SectionsRead, SectionFixes, SectionsHeld, Patches, IsEntry, EntryReads, OffMeta, Held;
    forall f | f in Fixes(m, coff, sym, delta) ensures f.slot + 4 <= |m| && Apart(f.slot, a) {
      var k, l := PatchFrom(m, meta, coff, sym, delta, 0, f);
      assert EntryApart(m, coff, sym, delta, k, l, a);
    }
  }

  /** The entry does not patch the byte at `x`. */
  ghost predicate EntryMisses(m: seq<u8>, coff: nat, sym: nat, delta: u32, i: nat, j: nat, x: int)
  {
    EntryReads(m, coff, sym, i, j) && forall b: u32 | Patches(m, coff, sym, delta, i, j, b) :: !(b <= x < b + 4)
  }

  /** A byte that no entry patches is unchanged, whether or not patches overlap. */
  lemma ByteStays(m: seq<u8>, meta: Meta, coff: nat, sym: nat, delta: u32, x: int)
    requires Placed(m, meta, coff, sym, delta) && 0 <= x < |m|
    requires forall i: nat, j: nat | IsEntry(m, coff, i, j) :: EntryMisses(m, coff, sym, delta, i, j, x)
    ensures var r := Run(m, coff, sym, delta); r.Some? && |r.value| == |m| && r.value[x] == m[x]
  {
    hide U32, U16, Placed, SectionsRead, SectionFixes, SectionsHeld, Patches, IsEntry, EntryReads, Run, Safe, Held;
    PlacedIsSound(m, meta, coff, sym, delta, x);
    var fixes := Fixes(m, coff, sym, delta);
    forall f | f in fixes ensures !(f.slot <= x < f.slot + 4) {
      var k, l := PatchFrom(m, meta, coff, sym, delta, 0, f);
      assert EntryMisses(m, coff, sym, delta, k, l, x);
    }
    RunFrame(m, coff, sym, delta, meta, x);
  }

  /** A dword that no patch overlaps in part gains what the entries that name it add, modulo 2^32. */
  lemma DwordGains(m: seq<u8>, meta: Meta, coff: nat, sym: nat, delta: u32, a: int)
    requires Placed(m, meta, coff, sym, delta) && In(m, a, 4) && AllApart(m, coff, sym, delta, a)
    ensures var r := Run(m, coff, sym, delta);
            && r.Some? && |r.value| == |m|
            && U32(r.value, a) == Wrap32(U32(m, a) + SectionsAdd(m, meta, coff, sym, delta, 0, a))
  {
    hide U32, U16, Run, Fixes, SumAt, Clear, Sound, Placed, AllApart, SectionsAdd, Cong, Wrap32;
    PlacedIsSound(m, meta, coff, sym, delta, a);
    AllClear(m, meta, coff, sym, delta, a);
    RunSlot(m, coff, sym, delta, meta, a);
    var s, g := SumAt(Fixes(m, coff, sym, delta), a), SectionsAdd(m, meta, coff, sym, delta, 0, a);
    CongWrap(U32(m, a), U32(m, a));
    CongAdd(U32(m, a), U32(m, a), s, g);
    CongWrap(U32(m, a) + s, U32(m, a) + g);
  }

  // ----- a dword that one entry names -----

  /** No entry of section `i` from `j` on, but entry `k`, patches the dword at `a`. */
  ghost predicate NoneIn(m: seq<u8>, coff: nat, sym: nat, delta: u32, i: nat, j: nat, k: int, a: int)
  {
    In(m, SectionOff(coff, i), 34)
    && forall l: nat | j <= l < EntryCount(m, coff, i) && l != k ::
         EntryReads(m, coff, sym, i, l) && !Patches(m, coff, sym, delta, i, l, a)
  }

  lemma {:induction false} EntriesOne(m: seq<u8>, meta: Meta, coff: nat, sym: nat, delta: u32, i: nat, j: nat, k: int,
                                      a: int)
    requires EntriesPlaced(m, meta, coff, sym, delta, i) && NoneIn(m, coff, sym, delta, i, j, k, a)
    ensures EntriesAdd(m, meta, coff, sym, delta, i, j, a)
            == if j <= k < EntryCount(m, coff, i) && EntryReads(m, coff, sym, i, k)
                  && Patches(m, coff, sym, delta, i, k, a)
               then Adds(m, coff, sym, i, k) else 0
    decreases EntryCount(m, coff, i) - j
  {
    hide U32, U16, Patches, Adds, EntryOff, EntryCount, SectionOff, EntryReads;
    if j < EntryCount(m, coff, i) {
      assert EntryPlaced(m, meta, coff, sym, delta, i, j);
      EntriesOne(m, meta, coff, sym, delta, i, j + 1, k, a);
    }
  }

  /** No entry of section `l`, but entry `k` if that is section `i`, patches the dword at `a`. */
  ghost predicate NoneBut(m: seq<u8>, coff: nat, sym: nat, delta: u32, l: nat, i: nat, k: nat, a: int)
  {
    NoneIn(m, coff, sym, delta, l, 0, if l == i then k else -1, a)
  }

  /** Entry `k` of section `i` is the only one that patches the dword at `a`. */
  ghost predicate OnlyEntry(m: seq<u8>, coff: nat, sym: nat, delta: u32, i: nat, k: nat, a: int)
  {
    In(m, coff + 2, 2)
    && forall l: nat | l < U16(m, coff + 2) :: NoneBut(m, coff, sym, delta, l, i, k, a)
  }

  lemma {:induction false} SectionsOne(m: seq<u8>, meta: Meta, coff: nat, sym: nat, delta: u32, l: nat, i: nat, k: nat,
                                       a: int)
    requires Placed(m, meta, coff, sym, delta) && OnlyEntry(m, coff, sym, delta, i, k, a)
    requires i < U16(m, coff + 2) && EntryReads(m, coff, sym, i, k) && k < EntryCount(m, coff, i)
    ensures SectionsAdd(m, meta, coff, sym, delta, l, a)
            == if l <= i && Patches(m, coff, sym, delta, i, k, a) then Adds(m, coff, sym, i, k) else 0
    decreases U16(m, coff + 2) as int - l
  {
    hide U32, U16, Patches, Adds, EntryOff, EntryCount, SectionOff, EntryReads, EntriesPlaced, EntriesAdd,
         SectionsPlaced, NoneIn;
    if l < U16(m, coff + 2) {
      assert EntriesPlaced(m, meta, coff, sym, delta, l) && NoneBut(m, coff, sym, delta, l, i, k, a);
      EntriesOne(m, meta, coff, sym, delta, l, 0, if l == i then k else -1, a);
      SectionsOne(m, meta, coff, sym, delta, l + 1, i, k, a);
    }
  }

  /**
   A dword that one entry names. With P the place and S the symbol of the entry: type 6 leaves
   the old value plus S; type 20 leaves the value that, counted from the end of the dword,
   reaches S plus the old value; any other type leaves the dword alone.
   */
  lemma EntryMeaning(m: seq<u8>, meta: Meta, coff: nat, sym: nat, delta: u32, i: nat, k: nat)
    requires Placed(m, meta, coff, sym, delta) && i < U16(m, coff + 2) && SectionPlaced(m, meta, coff, i)
    requires k < EntryCount(m, coff, i) && EntryReads(m, coff, sym, i, k)
    requires var a := Wrap32(Place(m, coff, sym, i, k) + delta);
             In(m, a, 4) && AllApart(m, coff, sym, delta, a) && OnlyEntry(m, coff, sym, delta, i, k, a)
    ensures var p: int := U32(m, EntryOff(m, coff, i, k)) as int + U32(m, SectionOff(coff, i) + 12);
            var s := U32(m, sym + 18 * U32(m, EntryOff(m, coff, i, k) + 4) + 8);
            var t := U16(m, EntryOff(m, coff, i, k) + 8);
            var a, r := Wrap32(p + delta), Run(m, coff, sym, delta);
            && r.Some? && |r.value| == |m|
            && (t == 6 ==> U32(r.value, a) == Wrap32(U32(m, a) + s))
            && (t == 20 ==> Wrap32(p + 4 + U32(r.value, a)) == Wrap32(s + U32(m, a)))
            && (t != 6 && t != 20 ==> U32(r.value, a) == U32(m, a))
  {
    hide U32, U16, Run, Placed, AllApart, OnlyEntry, SectionsAdd, Wrap32, SectionPlaced;
    var p := Place(m, coff, sym, i, k);
    var a := Wrap32(p + delta);
    DwordGains(m, meta, coff, sym, delta, a);
    SectionsOne(m, meta, coff, sym, delta, 0, i, k, a);
    WrapOf(p + delta);
    var was, s := U32(m, a), SymbolValue(m, coff, sym, i, k);
    WrapOf(was);
    Lands(p + 4, was + s - (p + 4));
  }

  lemma Lands(p: int, x: int)
    ensures Wrap32(p + Wrap32(x)) == Wrap32(p + x)
  {
    WrapTwice(x, p);
  }

  // ----- symbols -----

  /**
   The fixup of symbol `j`, by its record: section number 0 resolves the name, which is the record's
   first eight bytes or, if the first four are zero, at the offset the next four give; 0xFFFF and
   0xFFFE stay; any other number adds the address in that section's header, counted from one.
   */
  lemma SymbolMeaning(m: seq<u8>, sec: nat, sym: nat, n: nat, resolve: Resolver, j: nat)
    requires TableOk(m, sec, sym, n) && j < n
    ensures var r := RunSymbols(m, sec, sym, n, resolve, 1);
            r.Some? && |r.value.0| == |m|
            && var s := sym + 18 * j;
               In(m, s, 14)
               && var section, was: int, now := U16(m, s + 12), U32(m, s + 8), U32(r.value.0, s + 8);
                  && (section == 0 ==>
                        now == resolve(if U32(m, s) == 0 then LongName(U32(m, s + 4)) else InlineName(s)))
                  && (section == 0xFFFF || section == 0xFFFE ==> now == was)
                  && (1 <= section < 0xFFFE ==>
                        In(m, sec + 40 * (section - 1) + 12, 4)
                        && now == Wrap32(was + U32(m, sec + 40 * (section - 1) + 12)))
  {
    hide U32, U16, RunSymbols, Wrap32;
    SymbolsMeaning(m, sec, sym, n, resolve);
    assert Sym(sym, j) == sym + 18 * j;
    assert ValueSet(m, RunSymbols(m, sec, sym, n, resolve, 1).value.0, sec, sym, j, resolve);
    assert RecordOk(m, sec, sym, n, j);
  }

  /** Symbol `j` is external and its name resolves to nothing. */
  predicate Missing(m: seq<u8>, sym: nat, resolve: Resolver, j: nat)
  {
    var s := sym + 18 * j;
    In(m, s, 14) && U16(m, s + 12) == 0
    && resolve(if U32(m, s) == 0 then LongName(U32(m, s + 4)) else InlineName(s)) == 0
  }

  /** The fixup returns 1 if no external symbol is missing, and 0 otherwise. */
  lemma ReturnMeaning(m: seq<u8>, sec: nat, sym: nat, n: nat, resolve: Resolver)
    requires TableOk(m, sec, sym, n)
    ensures var r := RunSymbols(m, sec, sym, n, resolve, 1);
            r.Some? && r.value.1 == if exists j: nat | j < n :: Missing(m, sym, resolve, j) then 0 else 1
  {
    hide U32, U16, RunSymbols, Missing;
    SymbolsMeaning(m, sec, sym, n, resolve);
    forall j: nat | j < n
      ensures SymReads(m, sec, Sym(sym, j)) && (Missing(m, sym, resolve, j) <==> Unresolved(m, Sym(sym, j), resolve))
    {
      assert RecordOk(m, sec, sym, n, j);
      MissingIs(m, sec, sym, resolve, j);
    }
  }

  lemma MissingIs(m: seq<u8>, sec: nat, sym: nat, resolve: Resolver, j: nat)
    requires SymReads(m, sec, Sym(sym, j))
    ensures Missing(m, sym, resolve, j) <==> Unresolved(m, Sym(sym, j), resolve)
  {
    hide U32, U16;
  }
}
