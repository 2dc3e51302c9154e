/**
 Rebasing a library: symbol fixup and relocation composed. Raising every section
 address by `k` and lowering the load delta by `k` patches the same slots, and
 each patch changes by an amount that depends only on its type and on whether
 its symbol is internal.
 */
module CoffRebase {
  import opened Words
  import opened CoffReloc
  import opened CoffSymbols

  /** Where the tables of an image are. */
  datatype Tables = Tables(coff: nat, sym: nat, count: nat)

  function Sec(t: Tables, j: nat): (off: nat)
  {
    t.coff + HEADER_SIZE + SECTION_SIZE * j
  }

  function SectionCount(img: seq<u8>, t: Tables): (n: nat)
    requires In(img, t.coff + 2, 2)
  {
    U16(img, t.coff + 2)
  }

  /** A byte of a section's `VirtualAddress`. */
  predicate InVa(t: Tables, nsec: nat, i: int)
  {
    exists j: nat | j < nsec :: Sec(t, j) + 12 <= i < Sec(t, j) + 16
  }

  /** Bytes that neither the rebasing nor the symbol fixup touches. */
  predicate Fixed(t: Tables, nsec: nat, off: int, n: nat)
  {
    forall i | off <= i < off + n :: !InVa(t, nsec, i) && !InValue(t.sym, 0, t.count, i)
  }

  /** `b` is `a` with every section address raised by `k`. */
  ghost predicate Raised(a: seq<u8>, b: seq<u8>, t: Tables, nsec: nat, k: int)
  {
    && |a| == |b|
    && (forall i | 0 <= i < |a| && !InVa(t, nsec, i) :: a[i] == b[i])
    && (forall j: nat | j < nsec ::
         In(a, Sec(t, j), 34) && U32(b, Sec(t, j) + 12) == Wrap32(U32(a, Sec(t, j) + 12) + k))
  }

  /** The symbol table is readable, apart from the section addresses, and names only sections of the image. */
  ghost predicate TableApart(a: seq<u8>, t: Tables, nsec: nat)
  {
    && TableOk(a, Sec(t, 0), t.sym, t.count)
    && (forall i | t.sym <= i < t.sym + SYM_SIZE * t.count :: !InVa(t, nsec, i))
    && (forall j: nat | j < t.count :: RecordOk(a, Sec(t, 0), t.sym, t.count, j) &&
          (Internal(SectionOf(a, Sym(t.sym, j))) ==> SectionOf(a, Sym(t.sym, j)) <= nsec))
  }

  /** How the fixed-up images of a rebased pair are related. */
  ghost predicate Related(a: seq<u8>, b: seq<u8>, t: Tables, nsec: nat, k: int)
  {
    && |a| == |b|
    && (forall i | 0 <= i < |a| && !InVa(t, nsec, i) && !InValue(t.sym, 0, t.count, i) :: a[i] == b[i])
    && (forall j: nat | j < nsec ::
         In(a, Sec(t, j), 34) && U32(b, Sec(t, j) + 12) == Wrap32(U32(a, Sec(t, j) + 12) + k))
    && (forall j: nat | j < t.count :: SymbolRelated(a, b, Sym(t.sym, j), k))
  }

  /** A symbol's class is unchanged and its value moved by `k` exactly when it is internal. */
  predicate SymbolRelated(a: seq<u8>, b: seq<u8>, s: nat, k: int)
  {
    && In(a, s, 14) && In(b, s, 14) && SectionOf(a, s) == SectionOf(b, s)
    && U32(b, s + 8) == if Internal(SectionOf(a, s)) then Wrap32(U32(a, s + 8) + k) else U32(a, s + 8)
  }

  /** `n` bytes at `off` are the same in both images. */
  predicate SameBytes(a: seq<u8>, b: seq<u8>, off: int, n: nat)
  {
    In(a, off, n) && In(b, off, n) && forall i | off <= i < off + n :: a[i] == b[i]
  }

  lemma SameFields(a: seq<u8>, b: seq<u8>, off: int, n: nat, at: int)
    requires SameBytes(a, b, off, n) && off <= at
    ensures at + 2 <= off + n ==> U16(a, at) == U16(b, at)
    ensures at + 4 <= off + n ==> U32(a, at) == U32(b, at)
  {
  }

  /** The records of a rebased image are the same bytes. */
  lemma RecordBytes(a: seq<u8>, b: seq<u8>, t: Tables, nsec: nat, k: int, j: nat)
    requires Raised(a, b, t, nsec, k) && TableApart(a, t, nsec) && j < t.count
    ensures RecordOk(a, Sec(t, 0), t.sym, t.count, j) && SameBytes(a, b, Sym(t.sym, j), 14)
  {
  }

  /** A record of the rebased image: the same but for the section address it adds. */
  lemma RecordRaised(a: seq<u8>, b: seq<u8>, t: Tables, nsec: nat, k: int, j: nat, resolve: Resolver)
    requires Raised(a, b, t, nsec, k) && TableApart(a, t, nsec) && j < t.count
    ensures RecordOk(a, Sec(t, 0), t.sym, t.count, j) && RecordOk(b, Sec(t, 0), t.sym, t.count, j)
    ensures var s := Sym(t.sym, j);
            && SectionOf(a, s) == SectionOf(b, s)
            && NewValue(b, Sec(t, 0), s, resolve) ==
               if Internal(SectionOf(a, s))
               then Wrap32(NewValue(a, Sec(t, 0), s, resolve) + k) else NewValue(a, Sec(t, 0), s, resolve)
  {
    hide U32, U16, InVa, Wrap32;
    var s := Sym(t.sym, j);
    RecordBytes(a, b, t, nsec, k, j);
    SameFields(a, b, s, 14, s);
    SameFields(a, b, s, 14, s + 4);
    SameFields(a, b, s, 14, s + 8);
    SameFields(a, b, s, 14, s + 12);
    var section := SectionOf(a, s);
    if Internal(section) {
      assert section <= nsec;
      assert VaField(Sec(t, 0), section) == Sec(t, section - 1) + 12;
      WrapCommutes(U32(a, s + 8), U32(a, Sec(t, section - 1) + 12), k);
    }
  }

  lemma WrapCommutes(x: int, y: int, k: int)
    ensures Wrap32(x + Wrap32(y + k)) == Wrap32(Wrap32(x + y) + k)
  {
  }

  /** The same external symbols resolve. */
  lemma ResolvedToo(a: seq<u8>, b: seq<u8>, t: Tables, nsec: nat, k: int, resolve: Resolver)
    requires Raised(a, b, t, nsec, k) && TableApart(a, t, nsec)
    requires TableOk(b, Sec(t, 0), t.sym, t.count)
    ensures AllResolved(a, Sec(t, 0), t.sym, 0, t.count, resolve)
            <==> AllResolved(b, Sec(t, 0), t.sym, 0, t.count, resolve)
  {
    hide U32, U16, Internal, NameOf;
    forall j: nat | j < t.count
      ensures SymReads(a, Sec(t, 0), Sym(t.sym, j)) && SymReads(b, Sec(t, 0), Sym(t.sym, j))
      ensures Unresolved(a, Sym(t.sym, j), resolve) <==> Unresolved(b, Sym(t.sym, j), resolve)
    {
      assert RecordOk(b, Sec(t, 0), t.sym, t.count, j);
      RecordBytes(a, b, t, nsec, k, j);
      SameName(a, b, Sym(t.sym, j), resolve);
    }
  }

  lemma SameName(a: seq<u8>, b: seq<u8>, s: nat, resolve: Resolver)
    requires SameBytes(a, b, s, 14)
    ensures Unresolved(a, s, resolve) <==> Unresolved(b, s, resolve)
  {
    hide U32, U16;
    SameFields(a, b, s, 14, s);
    SameFields(a, b, s, 14, s + 4);
    SameFields(a, b, s, 14, s + 12);
  }

  /** Symbol fixup turns a rebased image into a related one, with the same return value. */
  lemma FixupRelates(a: seq<u8>, b: seq<u8>, t: Tables, nsec: nat, k: int, resolve: Resolver)
    requires Raised(a, b, t, nsec, k) && TableApart(a, t, nsec)
    ensures var p := RunSymbols(a, Sec(t, 0), t.sym, t.count, resolve, 1);
            var q := RunSymbols(b, Sec(t, 0), t.sym, t.count, resolve, 1);
            p.Some? && q.Some? && Related(p.value.0, q.value.0, t, nsec, k) && p.value.1 == q.value.1
  {
    hide U32, U16, NewValue, RunSymbols, SymReads;
    var sec := Sec(t, 0);
    forall j: nat | j < t.count ensures RecordOk(b, sec, t.sym, t.count, j) {
      RecordRaised(a, b, t, nsec, k, j, resolve);
    }
    SymbolsMeaning(a, sec, t.sym, t.count, resolve);
    SymbolsMeaning(b, sec, t.sym, t.count, resolve);
    ResolvedToo(a, b, t, nsec, k, resolve);
    var p := RunSymbols(a, sec, t.sym, t.count, resolve, 1).value.0;
    var q := RunSymbols(b, sec, t.sym, t.count, resolve, 1).value.0;
    forall j: nat | j < t.count ensures SymbolRelated(p, q, Sym(t.sym, j), k) {
      SymbolAfterFixup(a, b, p, q, t, nsec, k, j, resolve);
    }
    forall j: nat | j < nsec
      ensures In(p, Sec(t, j), 34) && U32(q, Sec(t, j) + 12) == Wrap32(U32(p, Sec(t, j) + 12) + k)
    {
      VaKept(a, p, t, nsec, j);
      VaKept(b, q, t, nsec, j);
    }
  }

  /** The fixup leaves the section addresses alone. */
  lemma VaKept(a: seq<u8>, p: seq<u8>, t: Tables, nsec: nat, j: nat)
    requires j < nsec && In(a, Sec(t, j), 34) && SameOutsideValues(a, p, t.sym, 0, t.count)
    requires forall i | t.sym <= i < t.sym + SYM_SIZE * t.count :: !InVa(t, nsec, i)
    ensures U32(p, Sec(t, j) + 12) == U32(a, Sec(t, j) + 12)
  {
    var off := Sec(t, j) + 12;
    forall i | off <= i < off + 4 ensures !InValue(t.sym, 0, t.count, i) {
      assert InVa(t, nsec, i);
      assert !(t.sym <= i < t.sym + SYM_SIZE * t.count);
    }
    SameFields(a, p, off, 4, off);
  }

  /** The section number of a record is no value byte. */
  lemma SectionKept(a: seq<u8>, p: seq<u8>, t: Tables, j: nat)
    requires j < t.count && In(a, Sym(t.sym, j), 14) && SameOutsideValues(a, p, t.sym, 0, t.count)
    ensures SectionOf(p, Sym(t.sym, j)) == SectionOf(a, Sym(t.sym, j))
  {
  }

  lemma SymbolAfterFixup(a: seq<u8>, b: seq<u8>, p: seq<u8>, q: seq<u8>,
                         t: Tables, nsec: nat, k: int, j: nat, resolve: Resolver)
    requires Raised(a, b, t, nsec, k) && TableApart(a, t, nsec) && j < t.count
    requires RestDone(a, p, Sec(t, 0), t.sym, 0, t.count, resolve)
             && RestDone(b, q, Sec(t, 0), t.sym, 0, t.count, resolve)
    ensures SymbolRelated(p, q, Sym(t.sym, j), k)
  {
    hide U32, U16, InVa, Wrap32, NewValue, InValue;
    RecordRaised(a, b, t, nsec, k, j, resolve);
    assert ValueSet(a, p, Sec(t, 0), t.sym, j, resolve) && ValueSet(b, q, Sec(t, 0), t.sym, j, resolve);
    SectionKept(a, p, t, j);
    SectionKept(b, q, t, j);
  }

  // ----- relocating both images -----

  /** What rebasing adds to the patch of one entry. */
  function ShiftOf(a: seq<u8>, t: Tables, reloc: nat, k: int): (d: int)
    requires In(a, reloc, RELOC_SIZE) && In(a, Sym(t.sym, U32(a, reloc + 4)), 14)
  {
    var internal := Internal(SectionOf(a, Sym(t.sym, U32(a, reloc + 4))));
    if U16(a, reloc + 8) == DIR32 then (if internal then k else 0)
    else if internal then 0 else -k
  }

  /** `g` patches the slots of `f`, each addend changed by its shift. */
  ghost predicate ShiftedBy(f: seq<Fix>, g: seq<Fix>, d: seq<int>)
  {
    |f| == |g| == |d| && forall i | 0 <= i < |f| :: g[i].slot == f[i].slot && g[i].addend == Wrap32(f[i].addend + d[i])
  }

  lemma WrapAdd(x: int, y: int)
    ensures Wrap32(Wrap32(x) + y) == Wrap32(x + y)
  {
  }

  lemma WrapSub(x: int, y: int)
    ensures Wrap32(y - Wrap32(x)) == Wrap32(y - x)
  {
  }

  /** The slot of a rebased patch is the same. */
  lemma SlotShifted(va: int, secVa: int, delta: int, k: int)
    ensures Wrap32(Wrap32(va + Wrap32(secVa + k)) + Wrap32(delta - k)) == Wrap32(Wrap32(va + secVa) + delta)
  {
  }

  /** A relative addend moves against the section for external symbols, and not at all for internal ones. */
  lemma RelShifted(va: int, value: int, secVa: int, k: int, internal: bool)
    ensures var value' := if internal then Wrap32(value + k) else value;
            Wrap32(value' - Wrap32(va + Wrap32(secVa + k)) - 4) ==
            Wrap32(Wrap32(value - Wrap32(va + secVa) - 4) + if internal then 0 else -k)
  {
    hide Wrap32;
    var value' := if internal then Wrap32(value + k) else value;
    var d := if internal then 0 else -k;
    WrapAdd(secVa + k, va);
    assert Wrap32(va + Wrap32(secVa + k)) == Wrap32(va + secVa + k) by {
      assert Wrap32(secVa + k) + va == va + Wrap32(secVa + k);
      assert (secVa + k) + va == va + secVa + k;
    }
    WrapSub(va + secVa + k, value' - 4);
    assert value' - 4 - Wrap32(va + secVa + k) == value' - Wrap32(va + secVa + k) - 4;
    WrapAdd(value + k, -(va + secVa + k) - 4);
    assert Wrap32(value' - 4 - (va + secVa + k)) == Wrap32(value - 4 - (va + secVa) + d) by {
      if internal {
        assert Wrap32(value + k) + (-(va + secVa + k) - 4) == value' - 4 - (va + secVa + k);
        assert (value + k) + (-(va + secVa + k) - 4) == value - 4 - (va + secVa) + d;
      } else {
        assert value' - 4 - (va + secVa + k) == value - 4 - (va + secVa) + d;
      }
    }
    WrapSub(va + secVa, value - 4);
    assert value - 4 - Wrap32(va + secVa) == value - Wrap32(va + secVa) - 4;
    WrapAdd(value - 4 - (va + secVa), d);
  }

  /** An entry refers to a symbol of the table and its own bytes stay put. */
  predicate EntryOk(a: seq<u8>, t: Tables, nsec: nat, reloc: nat)
  {
    && RelocReads(a, reloc, t.sym) && Fixed(t, nsec, reloc, RELOC_SIZE) && U32(a, reloc + 4) < t.count
    && In(a, Sym(t.sym, U32(a, reloc + 4)), 14)
  }

  lemma EntrySame(a: seq<u8>, b: seq<u8>, t: Tables, nsec: nat, k: int, reloc: nat)
    requires Related(a, b, t, nsec, k) && EntryOk(a, t, nsec, reloc)
    ensures RelocReads(b, reloc, t.sym) && SymAddr(b, reloc, t.sym) == SymAddr(a, reloc, t.sym)
    ensures U32(b, reloc) == U32(a, reloc) && U16(b, reloc + 8) == U16(a, reloc + 8)
    ensures SymbolRelated(a, b, Sym(t.sym, U32(a, reloc + 4)), k)
  {
    hide U32, U16, InVa, InValue;
    assert SameBytes(a, b, reloc, RELOC_SIZE);
    SameFields(a, b, reloc, RELOC_SIZE, reloc);
    SameFields(a, b, reloc, RELOC_SIZE, reloc + 4);
    SameFields(a, b, reloc, RELOC_SIZE, reloc + 8);
    var j: nat := U32(a, reloc + 4);
    assert SymbolRelated(a, b, Sym(t.sym, j), k);
  }

  /** One rebased entry. */
  lemma EntryShifted(a: seq<u8>, b: seq<u8>, t: Tables, nsec: nat, k: int, reloc: nat, secVa: u32, delta: u32)
    requires Related(a, b, t, nsec, k) && EntryOk(a, t, nsec, reloc)
    ensures RelocReads(b, reloc, t.sym)
    ensures var f := FixOf(a, reloc, secVa, t.sym, delta);
            var g := FixOf(b, reloc, Wrap32(secVa + k), t.sym, Wrap32(delta - k));
            f.Some? == g.Some? &&
            (f.Some? ==> (&& g.value.slot == f.value.slot
                          && g.value.addend == Wrap32(f.value.addend + ShiftOf(a, t, reloc, k))))
  {
    hide U32, U16, Wrap32, Related;
    EntrySame(a, b, t, nsec, k, reloc);
    var value := U32(a, SymAddr(a, reloc, t.sym));
    var internal := Internal(SectionOf(a, Sym(t.sym, U32(a, reloc + 4))));
    SlotShifted(U32(a, reloc), secVa, delta, k);
    RelShifted(U32(a, reloc), value, secVa, k, internal);
    WrapSmall(value);
  }

  lemma WrapSmall(x: u32)
    ensures Wrap32(x) == x
  {
  }

  // ----- all entries -----

  predicate EntriesOk(a: seq<u8>, t: Tables, nsec: nat, reloc: nat, n: nat)
    decreases n
  {
    n == 0 || (EntryOk(a, t, nsec, reloc) && EntriesOk(a, t, nsec, reloc + RELOC_SIZE, n - 1))
  }

  /** The shifts of the patches of `n` entries, in order. */
  function RelocShifts(a: seq<u8>, t: Tables, nsec: nat, reloc: nat, n: nat, k: int): (d: seq<int>)
    requires EntriesOk(a, t, nsec, reloc, n)
    decreases n
  {
    if n == 0 then []
    else
      var rtype := U16(a, reloc + 8);
      (if rtype == DIR32 || rtype == REL32 then [ShiftOf(a, t, reloc, k)] else [])
      + RelocShifts(a, t, nsec, reloc + RELOC_SIZE, n - 1, k)
  }

  lemma {:induction false} EntriesRead(a: seq<u8>, t: Tables, nsec: nat, reloc: nat, n: nat)
    requires EntriesOk(a, t, nsec, reloc, n)
    ensures RelocsRead(a, reloc, n, t.sym)
    decreases n
  {
    hide RelocReads, Fixed, U32;
    if n > 0 {
      EntriesRead(a, t, nsec, reloc + RELOC_SIZE, n - 1);
    }
  }

  lemma ShiftedConcat(f: seq<Fix>, g: seq<Fix>, d: seq<int>, f': seq<Fix>, g': seq<Fix>, d': seq<int>)
    requires ShiftedBy(f, g, d) && ShiftedBy(f', g', d')
    ensures ShiftedBy(f + f', g + g', d + d')
  {
  }

  lemma {:induction false} RelocsShifted(a: seq<u8>, b: seq<u8>, t: Tables, nsec: nat, k: int,
                                          reloc: nat, n: nat, secVa: u32, delta: u32)
    requires Related(a, b, t, nsec, k) && EntriesOk(a, t, nsec, reloc, n)
    ensures RelocsRead(a, reloc, n, t.sym) && RelocsRead(b, reloc, n, t.sym)
    ensures ShiftedBy(RelocFixes(a, reloc, n, secVa, t.sym, delta),
                      RelocFixes(b, reloc, n, Wrap32(secVa + k), t.sym, Wrap32(delta - k)),
                      RelocShifts(a, t, nsec, reloc, n, k))
    decreases n
  {
    hide U32, U16, Wrap32, Related, ShiftOf, Fixed;
    EntriesRead(a, t, nsec, reloc, n);
    if n > 0 {
      EntryShifted(a, b, t, nsec, k, reloc, secVa, delta);
      RelocsShifted(a, b, t, nsec, k, reloc + RELOC_SIZE, n - 1, secVa, delta);
      var f, g := FixOf(a, reloc, secVa, t.sym, delta), FixOf(b, reloc, Wrap32(secVa + k), t.sym, Wrap32(delta - k));
      var r := reloc + RELOC_SIZE;
      ShiftedConcat(if f.Some? then [f.value] else [], if g.Some? then [g.value] else [],
                    if f.Some? then [ShiftOf(a, t, reloc, k)] else [],
                    RelocFixes(a, r, n - 1, secVa, t.sym, delta),
                    RelocFixes(b, r, n - 1, Wrap32(secVa + k), t.sym, Wrap32(delta - k)),
                    RelocShifts(a, t, nsec, r, n - 1, k));
    }
  }

  lemma {:induction false} RelocsHeldToo(a: seq<u8>, b: seq<u8>, t: Tables, nsec: nat, k: int,
                                          reloc: nat, n: nat, meta: Meta)
    requires Related(a, b, t, nsec, k) && EntriesOk(a, t, nsec, reloc, n)
    requires RelocsRead(a, reloc, n, t.sym) && RelocsRead(b, reloc, n, t.sym) && RelocsHeld(a, meta, reloc, n, t.sym)
    ensures RelocsHeld(b, meta, reloc, n, t.sym)
    decreases n
  {
    hide U32, U16, Related, Fixed, Held;
    if n > 0 {
      EntrySame(a, b, t, nsec, k, reloc);
      RelocsHeldToo(a, b, t, nsec, k, reloc + RELOC_SIZE, n - 1, meta);
    }
  }

  // ----- all sections -----

  /** The sections from the `j`th on: their own fields but the address stay put, and their entries are in order. */
  predicate SectionsOk(a: seq<u8>, t: Tables, nsec: nat, j: nat)
    requires j <= nsec
    decreases nsec - j
  {
    j == nsec ||
    var sec := Sec(t, j);
    && SectionReads(a, sec) && Fixed(t, nsec, sec + 24, 4) && Fixed(t, nsec, sec + 32, 2)
    && EntriesOk(a, t, nsec, t.coff + U32(a, sec + 24), U16(a, sec + 32))
    && SectionsOk(a, t, nsec, j + 1)
  }

  function SectionShifts(a: seq<u8>, t: Tables, nsec: nat, j: nat, k: int): (d: seq<int>)
    requires j <= nsec && SectionsOk(a, t, nsec, j)
    decreases nsec - j
  {
    if j == nsec then []
    else RelocShifts(a, t, nsec, t.coff + U32(a, Sec(t, j) + 24), U16(a, Sec(t, j) + 32), k)
         + SectionShifts(a, t, nsec, j + 1, k)
  }

  /** The header fields of a section in the related image. */
  lemma SectionSame(a: seq<u8>, b: seq<u8>, t: Tables, nsec: nat, k: int, j: nat)
    requires Related(a, b, t, nsec, k) && j < nsec
    requires SectionReads(a, Sec(t, j)) && Fixed(t, nsec, Sec(t, j) + 24, 4) && Fixed(t, nsec, Sec(t, j) + 32, 2)
    ensures var sec := Sec(t, j);
            && SectionReads(b, sec) && U32(b, sec + 24) == U32(a, sec + 24) && U16(b, sec + 32) == U16(a, sec + 32)
            && U32(b, sec + 12) == Wrap32(U32(a, sec + 12) + k)
  {
    hide U32, U16, InVa, InValue, SymbolRelated;
    var sec := Sec(t, j);
    SameFields(a, b, sec + 24, 4, sec + 24);
    SameFields(a, b, sec + 32, 2, sec + 32);
  }

  /** The patches of the sections from the `j`th on, in both images. */
  ghost predicate SectionsMatch(a: seq<u8>, b: seq<u8>, t: Tables, nsec: nat, k: int, j: nat, delta: u32)
  {
    && j <= nsec && SectionsOk(a, t, nsec, j)
    && SectionsRead(a, t.coff, Sec(t, j), nsec - j, t.sym) && SectionsRead(b, t.coff, Sec(t, j), nsec - j, t.sym)
    && ShiftedBy(SectionFixes(a, t.coff, Sec(t, j), nsec - j, t.sym, delta),
                 SectionFixes(b, t.coff, Sec(t, j), nsec - j, t.sym, Wrap32(delta - k)),
                 SectionShifts(a, t, nsec, j, k))
  }

  lemma {:induction false} SectionsShifted(a: seq<u8>, b: seq<u8>, t: Tables, nsec: nat, k: int, j: nat, delta: u32)
    requires Related(a, b, t, nsec, k) && j <= nsec && SectionsOk(a, t, nsec, j)
    ensures SectionsMatch(a, b, t, nsec, k, j, delta)
    decreases nsec - j
  {
    hide U32, U16, Wrap32, Related, Fixed, EntriesOk, RelocsRead, RelocFixes, RelocShifts;
    if j < nsec {
      var sec := Sec(t, j);
      assert Sec(t, j + 1) == sec + SECTION_SIZE;
      SectionSame(a, b, t, nsec, k, j);
      var reloc, num, va, d := t.coff + U32(a, sec + 24), U16(a, sec + 32), U32(a, sec + 12), Wrap32(delta - k);
      RelocsShifted(a, b, t, nsec, k, reloc, num, va, delta);
      SectionsShifted(a, b, t, nsec, k, j + 1, delta);
      ShiftedConcat(RelocFixes(a, reloc, num, va, t.sym, delta), RelocFixes(b, reloc, num, Wrap32(va + k), t.sym, d),
                    RelocShifts(a, t, nsec, reloc, num, k),
                    SectionFixes(a, t.coff, sec + SECTION_SIZE, nsec - j - 1, t.sym, delta),
                    SectionFixes(b, t.coff, sec + SECTION_SIZE, nsec - j - 1, t.sym, d),
                    SectionShifts(a, t, nsec, j + 1, k));
    }
  }

  predicate SectionsReadHeld(a: seq<u8>, meta: Meta, t: Tables, nsec: nat, j: nat)
  {
    && j <= nsec && SectionsRead(a, t.coff, Sec(t, j), nsec - j, t.sym)
    && SectionsHeld(a, meta, t.coff, Sec(t, j), nsec - j, t.sym)
  }

  lemma {:induction false} SectionsHeldToo(a: seq<u8>, b: seq<u8>, t: Tables, nsec: nat, k: int,
                                            j: nat, meta: Meta, delta: u32)
    requires Related(a, b, t, nsec, k) && SectionsMatch(a, b, t, nsec, k, j, delta)
    requires SectionsReadHeld(a, meta, t, nsec, j)
    ensures SectionsReadHeld(b, meta, t, nsec, j)
    decreases nsec - j
  {
    hide U32, U16, Related, Fixed, EntriesOk, RelocsRead, RelocsHeld, Held, SectionFixes, SectionShifts, ShiftedBy;
    if j < nsec {
      var sec := Sec(t, j);
      assert Sec(t, j + 1) == sec + SECTION_SIZE;
      SectionSame(a, b, t, nsec, k, j);
      RelocsHeldToo(a, b, t, nsec, k, t.coff + U32(a, sec + 24), U16(a, sec + 32), meta);
      SectionsShifted(a, b, t, nsec, k, j + 1, delta);
      SectionsHeldToo(a, b, t, nsec, k, j + 1, meta, delta);
    }
  }

  // ----- the theorem -----

  /** What the patches of the dword at `slot` change by together. */
  function ShiftAt(f: seq<Fix>, d: seq<int>, slot: int): (s: int)
    requires |f| == |d|
    decreases |f|
  {
    if f == [] then 0 else (if f[0].slot == slot then d[0] else 0) + ShiftAt(f[1..], d[1..], slot)
  }

  lemma {:induction false} SumShifted(f: seq<Fix>, g: seq<Fix>, d: seq<int>, slot: int, x: int)
    requires ShiftedBy(f, g, d)
    ensures Wrap32(x + SumAt(g, slot)) == Wrap32(x + SumAt(f, slot) + ShiftAt(f, d, slot))
    decreases |f|
  {
    hide Wrap32;
    if f != [] {
      assert ShiftedBy(f[1..], g[1..], d[1..]);
      var gain := if f[0].slot == slot then g[0].addend else 0;
      SumShifted(f[1..], g[1..], d[1..], slot, x + gain);
      if f[0].slot == slot {
        var rest := x + SumAt(f[1..], slot) + ShiftAt(f[1..], d[1..], slot);
        WrapAdd(f[0].addend + d[0], rest);
        assert x + gain + SumAt(f[1..], slot) + ShiftAt(f[1..], d[1..], slot) == Wrap32(f[0].addend + d[0]) + rest;
        assert x + SumAt(f, slot) + ShiftAt(f, d, slot) == f[0].addend + d[0] + rest;
      }
    }
  }

  lemma SafeToo(f: seq<Fix>, g: seq<Fix>, d: seq<int>, meta: Meta, len: nat, slot: int)
    requires ShiftedBy(f, g, d)
    ensures Safe(meta, len, f) ==> Safe(meta, len, g)
    ensures Clear(f, len, slot) ==> Clear(g, len, slot)
  {
  }

  /** The relocation tables of a fixed-up image stay put under rebasing and refer to symbols of its table. */
  predicate RelocationsOk(a: seq<u8>, t: Tables)
  {
    In(a, t.coff + 2, 2) && Fixed(t, SectionCount(a, t), t.coff + 2, 2) && SectionsOk(a, t, SectionCount(a, t), 0)
  }

  /** A fixed-up image ready to be relocated, and a slot that its patches do not overlap. */
  ghost predicate LoadOk(a: seq<u8>, t: Tables, delta: u32, meta: Meta, slot: int)
  {
    && RelocationsOk(a, t) && Sound(a, t.coff, t.sym, delta, meta)
    && In(a, slot, 4) && Fixed(t, SectionCount(a, t), slot, 4) && Clear(Fixes(a, t.coff, t.sym, delta), |a|, slot)
  }

  /** The two loads patch the same slots, each by its shift; `slot` ends apart by the sum of its shifts. */
  ghost predicate LoadsDiffer(a: seq<u8>, b: seq<u8>, t: Tables, k: int, delta: u32, slot: int)
  {
    && RelocationsOk(a, t) && Readable(a, t.coff, t.sym) && Readable(b, t.coff, t.sym)
    && var f := Fixes(a, t.coff, t.sym, delta); var g := Fixes(b, t.coff, t.sym, Wrap32(delta - k));
       var d := SectionShifts(a, t, SectionCount(a, t), 0, k);
       var ra := Run(a, t.coff, t.sym, delta); var rb := Run(b, t.coff, t.sym, Wrap32(delta - k));
       && ShiftedBy(f, g, d) && ra.Some? && rb.Some? && In(ra.value, slot, 4) && In(rb.value, slot, 4)
       && U32(rb.value, slot) == Wrap32(U32(ra.value, slot) + ShiftAt(f, d, slot))
  }

  /** The rebased image is as sound as the original, and its tables list the same slots. */
  lemma SoundToo(a: seq<u8>, b: seq<u8>, t: Tables, k: int, delta: u32, meta: Meta, slot: int)
    requires LoadOk(a, t, delta, meta, slot) && Related(a, b, t, SectionCount(a, t), k)
    ensures Sound(b, t.coff, t.sym, Wrap32(delta - k), meta)
    ensures Clear(Fixes(b, t.coff, t.sym, Wrap32(delta - k)), |a|, slot)
    ensures ShiftedBy(Fixes(a, t.coff, t.sym, delta), Fixes(b, t.coff, t.sym, Wrap32(delta - k)),
                      SectionShifts(a, t, SectionCount(a, t), 0, k))
  {
    hide U32, SectionsOk, SectionsHeld, SectionsRead, SectionFixes, SectionShifts, InVa, InValue,
         SymbolRelated, Wrap32, U16;
    var nsec := SectionCount(a, t);
    assert SameBytes(a, b, t.coff + 2, 2);
    SameFields(a, b, t.coff + 2, 2, t.coff + 2);
    hide Related;
    assert Sec(t, 0) == t.coff + HEADER_SIZE;
    SectionsShifted(a, b, t, nsec, k, 0, delta);
    SectionsHeldToo(a, b, t, nsec, k, 0, meta, delta);
    SafeToo(Fixes(a, t.coff, t.sym, delta), Fixes(b, t.coff, t.sym, Wrap32(delta - k)),
            SectionShifts(a, t, nsec, 0, k), meta, |a|, slot);
  }

  lemma RelocationRebased(a: seq<u8>, b: seq<u8>, t: Tables, k: int, delta: u32, meta: Meta, slot: int)
    requires LoadOk(a, t, delta, meta, slot) && Related(a, b, t, SectionCount(a, t), k)
    ensures LoadsDiffer(a, b, t, k, delta, slot)
  {
    hide U32, U16, SectionsOk, SectionFixes, SectionShifts, InVa, InValue, SymbolRelated,
         Wrap32, SectionsRead, SectionsHeld;
    SoundToo(a, b, t, k, delta, meta, slot);
    assert SameBytes(a, b, slot, 4);
    SameFields(a, b, slot, 4, slot);
    hide Related, Run, Apply, Fixes, Fixed, Held;
    var f, g := Fixes(a, t.coff, t.sym, delta), Fixes(b, t.coff, t.sym, Wrap32(delta - k));
    var d := SectionShifts(a, t, SectionCount(a, t), 0, k);
    RunIsApply(a, t.coff, t.sym, delta, meta);
    RunIsApply(b, t.coff, t.sym, Wrap32(delta - k), meta);
    ApplySlot(a, f, slot);
    ApplySlot(b, g, slot);
    SumShifted(f, g, d, slot, U32(a, slot));
    WrapAdd(U32(a, slot) + SumAt(f, slot), ShiftAt(f, d, slot));
  }

  /**
   Rebasing a library: raise every section address by `k`, fix up the symbols,
   and relocate with the load delta lowered by `k`. The same slots are patched;
   relative to the original load, a slot gains `k` for each DIR32 patch to an
   internal symbol, loses `k` for each REL32 patch to an external, absolute or
   debug symbol, and nothing for the others.
   */
  lemma RebaseTheorem(a: seq<u8>, b: seq<u8>, p: seq<u8>, pret: u32, t: Tables, k: int,
                      delta: u32, resolve: Resolver, meta: Meta, slot: int)
    returns (q: seq<u8>, qret: u32)
    requires RunSymbols(a, Sec(t, 0), t.sym, t.count, resolve, 1) == Some((p, pret))
    requires LoadOk(p, t, delta, meta, slot)
    requires Raised(a, b, t, SectionCount(p, t), k) && TableApart(a, t, SectionCount(p, t))
    ensures RunSymbols(b, Sec(t, 0), t.sym, t.count, resolve, 1) == Some((q, qret)) && qret == pret
    ensures LoadsDiffer(p, q, t, k, delta, slot)
  {
    hide RunSymbols, LoadsDiffer, Related, Raised, TableApart, U16, Sound, SectionsOk, Clear;
    FixupRelates(a, b, t, SectionCount(p, t), k, resolve);
    var r := RunSymbols(b, Sec(t, 0), t.sym, t.count, resolve, 1).value;
    q, qret := r.0, r.1;
    RelocationRebased(p, q, t, k, delta, meta, slot);
  }
}
