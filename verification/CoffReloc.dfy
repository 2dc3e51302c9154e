/**
 COFF relocation (rust_kernel/kolibri_utils/src/coff_reloc.rs, the buffered
 form, whose patch addresses are offsets into the image). An access outside the
 image, a panic in the source, ends the run with `None`.
 */
module CoffReloc {
  import opened Words

  const HEADER_SIZE: nat := 20
  const SECTION_SIZE: nat := 40
  const RELOC_SIZE: nat := 10
  const SYM_SIZE: nat := 18
  const DIR32: u16 := 6
  const REL32: u16 := 20

  // ----- the run on values, every field read from the image as it is then -----

  function PutU32(img: seq<u8>, off: int, v: u32): (r: seq<u8>)
    requires In(img, off, 4)
    ensures |r| == |img|
  {
    img[..off] + LE32(v) + img[off + 4..]
  }

  function AddAt(img: seq<u8>, addr: u32, addend: u32): (r: Option<seq<u8>>)
  {
    if In(img, addr, 4) then Some(PutU32(img, addr, Wrap32(U32(img, addr) + addend))) else None
  }

  /** The symbol value a relocation entry refers to. */
  function SymAddr(img: seq<u8>, reloc: nat, sym: nat): (off: nat)
    requires In(img, reloc, RELOC_SIZE)
  {
    sym + SYM_SIZE * U32(img, reloc + 4) + 8
  }

  predicate RelocReads(img: seq<u8>, reloc: nat, sym: nat)
  {
    In(img, reloc, RELOC_SIZE) && In(img, SymAddr(img, reloc, sym), 4)
  }

  /** A patch: the dword at `slot` gains `addend`. */
  datatype Fix = Fix(slot: u32, addend: u32)

  /** The patch of one relocation entry; other types patch nothing. */
  function FixOf(img: seq<u8>, reloc: nat, secVa: u32, sym: nat, delta: u32): (r: Option<Fix>)
    requires RelocReads(img, reloc, sym)
  {
    var value := U32(img, SymAddr(img, reloc, sym));
    var at := Wrap32(U32(img, reloc) + secVa);
    var rtype := U16(img, reloc + 8);
    if rtype == DIR32 then Some(Fix(Wrap32(at + delta), value))
    else if rtype == REL32 then Some(Fix(Wrap32(at + delta), Wrap32(value - at - 4)))
    else None
  }

  function RunReloc(img: seq<u8>, reloc: nat, secVa: u32, sym: nat, delta: u32): (r: Option<seq<u8>>)
  {
    if !RelocReads(img, reloc, sym) then None
    else
      var f := FixOf(img, reloc, secVa, sym, delta);
      if f.Some? then AddAt(img, f.value.slot, f.value.addend) else Some(img)
  }

  function RunRelocs(img: seq<u8>, reloc: nat, n: nat, secVa: u32, sym: nat, delta: u32): (r: Option<seq<u8>>)
    decreases n
  {
    if n == 0 then Some(img)
    else
      var next := RunReloc(img, reloc, secVa, sym, delta);
      if next.None? then None else RunRelocs(next.value, reloc + RELOC_SIZE, n - 1, secVa, sym, delta)
  }

  predicate SectionReads(img: seq<u8>, sec: nat)
  {
    In(img, sec, 34)
  }

  function RunSections(img: seq<u8>, coff: nat, sec: nat, n: nat, sym: nat, delta: u32): (r: Option<seq<u8>>)
    decreases n
  {
    if n == 0 then Some(img)
    else if !SectionReads(img, sec) then None
    else
      var next := RunRelocs(img, coff + U32(img, sec + 24), U16(img, sec + 32), U32(img, sec + 12), sym, delta);
      if next.None? then None else RunSections(next.value, coff, sec + SECTION_SIZE, n - 1, sym, delta)
  }

  function Run(img: seq<u8>, coff: nat, sym: nat, delta: u32): (r: Option<seq<u8>>)
  {
    if !In(img, coff + 2, 2) then None
    else RunSections(img, coff, coff + HEADER_SIZE, U16(img, coff + 2), sym, delta)
  }

  // ----- the loops in place -----

  method PatchAdd(image: array<u8>, addr: u32, addend: u32) returns (ok: bool)
    modifies image
    ensures var r := AddAt(old(image[..]), addr, addend); ok == r.Some? && (ok ==> image[..] == r.value)
  {
    if addr + 4 > image.Length {
      return false;
    }
    var b := LE32(Wrap32(U32(image[..], addr) + addend));
    image[addr], image[addr + 1], image[addr + 2], image[addr + 3] := b[0], b[1], b[2], b[3];
    ok := true;
  }

  /** The inner loop of `fix_coff_relocs_buffered`. */
  method FixSection(image: array<u8>, relocIn: nat, numReloc: nat, secVa: u32, sym: nat, delta: u32) returns (ok: bool)
    modifies image
    ensures var r := RunRelocs(old(image[..]), relocIn, numReloc, secVa, sym, delta);
            ok == r.Some? && (ok ==> image[..] == r.value)
  {
    hide AddAt, FixOf, RelocReads;
    var reloc: nat, n: nat := relocIn, numReloc;
    while n != 0
      invariant RunRelocs(image[..], reloc, n, secVa, sym, delta)
                == RunRelocs(old(image[..]), relocIn, numReloc, secVa, sym, delta)
      decreases n
    {
      ok := FixOne(image, reloc, secVa, sym, delta);
      if !ok {
        return;
      }
      reloc, n := reloc + RELOC_SIZE, n - 1;
    }
    ok := true;
  }

  method FixOne(image: array<u8>, reloc: nat, secVa: u32, sym: nat, delta: u32) returns (ok: bool)
    modifies image
    ensures var r := RunReloc(old(image[..]), reloc, secVa, sym, delta); ok == r.Some? && (ok ==> image[..] == r.value)
  {
    hide SymAddr, U16, U32, Wrap32, AddAt;
    if !RelocReads(image[..], reloc, sym) {
      return false;
    }
    var value := U32(image[..], SymAddr(image[..], reloc, sym));
    var rtype := U16(image[..], reloc + 8);
    if rtype == DIR32 {
      var eax := Wrap32(U32(image[..], reloc) + secVa);
      ok := PatchAdd(image, Wrap32(eax + delta), value);
    } else if rtype == REL32 {
      var eax := Wrap32(U32(image[..], reloc) + secVa);
      ok := PatchAdd(image, Wrap32(eax + delta), Wrap32(value - eax - 4));
    } else {
      ok := true;
    }
  }

  /** `fix_coff_relocs_buffered`; `ok` is false where the source panics. */
  method FixCoffRelocs(image: array<u8>, coff: nat, sym: nat, delta: u32) returns (ok: bool)
    modifies image
    ensures var r := Run(old(image[..]), coff, sym, delta); ok == r.Some? && (ok ==> image[..] == r.value)
  {
    hide RunRelocs;
    if coff + 4 > image.Length {
      return false;
    }
    var nSec: nat, sec: nat := U16(image[..], coff + 2), coff + HEADER_SIZE;
    while nSec != 0
      invariant RunSections(image[..], coff, sec, nSec, sym, delta) == Run(old(image[..]), coff, sym, delta)
      decreases nSec
    {
      if !SectionReads(image[..], sec) {
        return false;
      }
      ok := FixSection(image, coff + U32(image[..], sec + 24), U16(image[..], sec + 32),
                       U32(image[..], sec + 12), sym, delta);
      if !ok {
        return;
      }
      sec, nSec := sec + SECTION_SIZE, nSec - 1;
    }
    ok := true;
  }

  // ----- the patches as a list -----

  /** The patches of `n` relocation entries, all read from one image. */
  function RelocFixes(m: seq<u8>, reloc: nat, n: nat, secVa: u32, sym: nat, delta: u32): (r: seq<Fix>)
    requires RelocsRead(m, reloc, n, sym)
    decreases n
  {
    if n == 0 then []
    else
      var f := FixOf(m, reloc, secVa, sym, delta);
      (if f.Some? then [f.value] else []) + RelocFixes(m, reloc + RELOC_SIZE, n - 1, secVa, sym, delta)
  }

  predicate RelocsRead(m: seq<u8>, reloc: nat, n: nat, sym: nat)
    decreases n
  {
    n == 0 || (RelocReads(m, reloc, sym) && RelocsRead(m, reloc + RELOC_SIZE, n - 1, sym))
  }

  function SectionFixes(m: seq<u8>, coff: nat, sec: nat, n: nat, sym: nat, delta: u32): (r: seq<Fix>)
    requires SectionsRead(m, coff, sec, n, sym)
    decreases n
  {
    if n == 0 then []
    else RelocFixes(m, coff + U32(m, sec + 24), U16(m, sec + 32), U32(m, sec + 12), sym, delta)
         + SectionFixes(m, coff, sec + SECTION_SIZE, n - 1, sym, delta)
  }

  predicate SectionsRead(m: seq<u8>, coff: nat, sec: nat, n: nat, sym: nat)
    decreases n
  {
    n == 0 || (SectionReads(m, sec)
               && RelocsRead(m, coff + U32(m, sec + 24), U16(m, sec + 32), sym)
               && SectionsRead(m, coff, sec + SECTION_SIZE, n - 1, sym))
  }

  /** Every field the run reads lies inside the image. */
  predicate Readable(m: seq<u8>, coff: nat, sym: nat)
  {
    In(m, coff + 2, 2) && SectionsRead(m, coff, coff + HEADER_SIZE, U16(m, coff + 2), sym)
  }

  function Fixes(m: seq<u8>, coff: nat, sym: nat, delta: u32): (r: seq<Fix>)
    requires Readable(m, coff, sym)
  {
    SectionFixes(m, coff, coff + HEADER_SIZE, U16(m, coff + 2), sym, delta)
  }

  /** The patches applied one after the other. */
  function Apply(img: seq<u8>, fixes: seq<Fix>): (r: Option<seq<u8>>)
    decreases |fixes|
  {
    if fixes == [] then Some(img)
    else
      var next := AddAt(img, fixes[0].slot, fixes[0].addend);
      if next.None? then None else Apply(next.value, fixes[1..])
  }

  lemma {:induction false} ApplyConcat(img: seq<u8>, a: seq<Fix>, b: seq<Fix>)
    ensures Apply(img, a + b) == var r := Apply(img, a); if r.None? then None else Apply(r.value, b)
    decreases |a|
  {
    hide AddAt;
    if a == [] {
      assert a + b == b;
    } else {
      assert (a + b)[1..] == a[1..] + b;
      var next := AddAt(img, a[0].slot, a[0].addend);
      if next.Some? {
        ApplyConcat(next.value, a[1..], b);
      }
    }
  }

  // ----- slots off the metadata -----

  /** The image bytes a run reads for its control: a set that holds all of them. */
  type Meta = set<int>

  predicate Held(meta: Meta, off: int, n: nat)
  {
    forall i | off <= i < off + n :: i in meta
  }

  predicate RelocsHeld(m: seq<u8>, meta: Meta, reloc: nat, n: nat, sym: nat)
    requires RelocsRead(m, reloc, n, sym)
    decreases n
  {
    n == 0 || (Held(meta, reloc, RELOC_SIZE) && Held(meta, SymAddr(m, reloc, sym), 4)
               && RelocsHeld(m, meta, reloc + RELOC_SIZE, n - 1, sym))
  }

  predicate SectionsHeld(m: seq<u8>, meta: Meta, coff: nat, sec: nat, n: nat, sym: nat)
    requires SectionsRead(m, coff, sec, n, sym)
    decreases n
  {
    n == 0 || (Held(meta, sec + 12, 4) && Held(meta, sec + 24, 4) && Held(meta, sec + 32, 2)
               && RelocsHeld(m, meta, coff + U32(m, sec + 24), U16(m, sec + 32), sym)
               && SectionsHeld(m, meta, coff, sec + SECTION_SIZE, n - 1, sym))
  }

  ghost predicate SameOn(meta: Meta, a: seq<u8>, b: seq<u8>)
  {
    |a| == |b| && forall i | i in meta && 0 <= i < |a| :: a[i] == b[i]
  }

  predicate OffMeta(meta: Meta, f: Fix)
  {
    f.slot !in meta && f.slot + 1 !in meta && f.slot + 2 !in meta && f.slot + 3 !in meta
  }

  /** Every patch lies inside the image and off its metadata. */
  ghost predicate Safe(meta: Meta, len: nat, fixes: seq<Fix>)
  {
    forall i | 0 <= i < |fixes| :: fixes[i].slot + 4 <= len && OffMeta(meta, fixes[i])
  }

  lemma PutU32Bytes(img: seq<u8>, off: int, v: u32)
    requires In(img, off, 4)
    ensures U32(PutU32(img, off, v), off) == v
    ensures forall i | 0 <= i < |img| && !(off <= i < off + 4) :: PutU32(img, off, v)[i] == img[i]
  {
    LE32RoundTrip(v);
    var r, b := PutU32(img, off, v), LE32(v);
    assert r[off] == b[0] && r[off + 1] == b[1] && r[off + 2] == b[2] && r[off + 3] == b[3];
  }

  /** A safe patch keeps the metadata. */
  lemma AddAtKeepsMeta(meta: Meta, img: seq<u8>, f: Fix)
    requires f.slot + 4 <= |img| && OffMeta(meta, f)
    ensures var r := AddAt(img, f.slot, f.addend); r.Some? && SameOn(meta, img, r.value)
  {
  }

  lemma SameReads(meta: Meta, a: seq<u8>, b: seq<u8>, off: nat)
    requires SameOn(meta, a, b)
    ensures Held(meta, off, 4) && In(a, off, 4) ==> U32(b, off) == U32(a, off)
    ensures Held(meta, off, 2) && In(a, off, 2) ==> U16(b, off) == U16(a, off)
  {
  }

  /** With the metadata unchanged, an entry reads the same and patches the same. */
  lemma SameReloc(meta: Meta, m: seq<u8>, img: seq<u8>, reloc: nat, secVa: u32, sym: nat, delta: u32)
    requires RelocReads(m, reloc, sym) && SameOn(meta, m, img)
    requires Held(meta, reloc, RELOC_SIZE) && Held(meta, SymAddr(m, reloc, sym), 4)
    ensures RelocReads(img, reloc, sym) && FixOf(img, reloc, secVa, sym, delta) == FixOf(m, reloc, secVa, sym, delta)
  {
  }

  lemma {:induction false} RelocsAreApply(meta: Meta, m: seq<u8>, img: seq<u8>, reloc: nat, n: nat,
                                           secVa: u32, sym: nat, delta: u32)
    requires RelocsRead(m, reloc, n, sym) && RelocsHeld(m, meta, reloc, n, sym) && SameOn(meta, m, img)
    requires Safe(meta, |m|, RelocFixes(m, reloc, n, secVa, sym, delta))
    ensures var r := RunRelocs(img, reloc, n, secVa, sym, delta);
            r.Some? && r == Apply(img, RelocFixes(m, reloc, n, secVa, sym, delta)) && SameOn(meta, m, r.value)
    decreases n
  {
    hide AddAt, FixOf, RelocReads;
    if n > 0 {
      SameReloc(meta, m, img, reloc, secVa, sym, delta);
      var all := RelocFixes(m, reloc, n, secVa, sym, delta);
      var rest := RelocFixes(m, reloc + RELOC_SIZE, n - 1, secVa, sym, delta);
      var f := FixOf(m, reloc, secVa, sym, delta);
      var next := img;
      if f.Some? {
        assert all == [f.value] + rest && all[0] == f.value && all[1..] == rest;
        AddAtKeepsMeta(meta, img, f.value);
        next := AddAt(img, f.value.slot, f.value.addend).value;
        assert Safe(meta, |m|, rest) by { assert forall i | 0 <= i < |rest| :: rest[i] == all[i + 1]; }
      } else {
        assert all == rest;
      }
      RelocsAreApply(meta, m, next, reloc + RELOC_SIZE, n - 1, secVa, sym, delta);
    }
  }

  lemma {:induction false} SectionsAreApply(meta: Meta, m: seq<u8>, img: seq<u8>, coff: nat, sec: nat,
                                             n: nat, sym: nat, delta: u32)
    requires SectionsRead(m, coff, sec, n, sym) && SectionsHeld(m, meta, coff, sec, n, sym) && SameOn(meta, m, img)
    requires Safe(meta, |m|, SectionFixes(m, coff, sec, n, sym, delta))
    ensures var r := RunSections(img, coff, sec, n, sym, delta);
            r.Some? && r == Apply(img, SectionFixes(m, coff, sec, n, sym, delta)) && SameOn(meta, m, r.value)
    decreases n
  {
    hide U32, U16, RelocFixes, RunRelocs, Apply, RelocsRead, RelocsHeld, Safe;
    if n == 0 {
      ApplyNothing(img);
    } else {
      var va, num, reloc := U32(m, sec + 12), U16(m, sec + 32), coff + U32(m, sec + 24);
      SameReads(meta, m, img, sec + 12);
      SameReads(meta, m, img, sec + 24);
      SameReads(meta, m, img, sec + 32);
      var a := RelocFixes(m, reloc, num, va, sym, delta);
      var b := SectionFixes(m, coff, sec + SECTION_SIZE, n - 1, sym, delta);
      var all := SectionFixes(m, coff, sec, n, sym, delta);
      assert all == a + b;
      SafeParts(meta, |m|, a, b);
      RelocsAreApply(meta, m, img, reloc, num, va, sym, delta);
      var next := RunRelocs(img, reloc, num, va, sym, delta).value;
      SectionsAreApply(meta, m, next, coff, sec + SECTION_SIZE, n - 1, sym, delta);
      ApplyConcat(img, a, b);
    }
  }

  lemma SafeParts(meta: Meta, len: nat, a: seq<Fix>, b: seq<Fix>)
    requires Safe(meta, len, a + b)
    ensures Safe(meta, len, a) && Safe(meta, len, b)
  {
    assert forall i | 0 <= i < |a| :: a[i] == (a + b)[i];
    assert forall i | 0 <= i < |b| :: b[i] == (a + b)[|a| + i];
  }

  lemma ApplyNothing(img: seq<u8>)
    ensures Apply(img, []) == Some(img)
  {
  }

  /** The patches of an image lie off some set that holds everything the run reads. */
  ghost predicate Sound(m: seq<u8>, coff: nat, sym: nat, delta: u32, meta: Meta)
  {
    && Readable(m, coff, sym)
    && Held(meta, coff + 2, 2) && SectionsHeld(m, meta, coff, coff + HEADER_SIZE, U16(m, coff + 2), sym)
    && Safe(meta, |m|, Fixes(m, coff, sym, delta))
  }

  /** The in-place run, which rereads its tables as it goes, is the list of patches of the original image. */
  lemma RunIsApply(m: seq<u8>, coff: nat, sym: nat, delta: u32, meta: Meta)
    requires Sound(m, coff, sym, delta, meta)
    ensures Run(m, coff, sym, delta).Some? && Run(m, coff, sym, delta) == Apply(m, Fixes(m, coff, sym, delta))
  {
    SectionsAreApply(meta, m, m, coff, coff + HEADER_SIZE, U16(m, coff + 2), sym, delta);
  }

  // ----- what each slot gains -----

  /** What all patches of the dword at `a` add together. */
  function SumAt(fixes: seq<Fix>, a: int): (s: int)
    decreases |fixes|
  {
    if fixes == [] then 0
    else (if fixes[0].slot == a then fixes[0].addend else 0) + SumAt(fixes[1..], a)
  }

  predicate Apart(a: int, b: int)
  {
    a == b || a + 4 <= b || b + 4 <= a
  }

  /** Every patch is in range and its slot is `a` itself or disjoint from it. */
  ghost predicate Clear(fixes: seq<Fix>, len: nat, a: int)
  {
    forall f | f in fixes :: f.slot + 4 <= len && Apart(f.slot, a)
  }

  lemma AddAtSlot(img: seq<u8>, f: Fix, a: int)
    requires f.slot + 4 <= |img| && In(img, a, 4) && Apart(f.slot, a)
    ensures var r := AddAt(img, f.slot, f.addend);
            r.Some? && |r.value| == |img|
            && U32(r.value, a) == if f.slot == a then Wrap32(U32(img, a) + f.addend) else U32(img, a)
  {
    PutU32Bytes(img, f.slot, Wrap32(U32(img, f.slot) + f.addend));
  }

  /** A slot gains the modular sum of its addends. */
  lemma {:induction false} ApplySlot(img: seq<u8>, fixes: seq<Fix>, a: int)
    requires In(img, a, 4) && Clear(fixes, |img|, a)
    ensures var r := Apply(img, fixes);
            r.Some? && |r.value| == |img| && U32(r.value, a) == Wrap32(U32(img, a) + SumAt(fixes, a))
    decreases |fixes|
  {
    hide AddAt, U32;
    if fixes != [] {
      AddAtSlot(img, fixes[0], a);
      ApplySlot(AddAt(img, fixes[0].slot, fixes[0].addend).value, fixes[1..], a);
    }
  }

  ghost predicate InSlot(fixes: seq<Fix>, i: int)
  {
    exists f | f in fixes :: f.slot <= i < f.slot + 4
  }

  ghost predicate InRange(fixes: seq<Fix>, len: nat)
  {
    forall f | f in fixes :: f.slot + 4 <= len
  }

  /** A byte outside every slot is unchanged. */
  lemma {:induction false} ApplyFrame(img: seq<u8>, fixes: seq<Fix>, i: int)
    requires 0 <= i < |img| && InRange(fixes, |img|) && !InSlot(fixes, i)
    ensures var r := Apply(img, fixes); r.Some? && |r.value| == |img| && r.value[i] == img[i]
    decreases |fixes|
  {
    if fixes != [] {
      var f, rest := fixes[0], fixes[1..];
      PutU32Bytes(img, f.slot, Wrap32(U32(img, f.slot) + f.addend));
      ApplyFrame(AddAt(img, f.slot, f.addend).value, rest, i);
    }
  }

  /** A slot, disjoint from or equal to every other, gains the modular sum of its addends. */
  lemma RunSlot(m: seq<u8>, coff: nat, sym: nat, delta: u32, meta: Meta, a: int)
    requires Sound(m, coff, sym, delta, meta)
    requires In(m, a, 4) && Clear(Fixes(m, coff, sym, delta), |m|, a)
    ensures var r := Run(m, coff, sym, delta);
            && r.Some? && |r.value| == |m|
            && U32(r.value, a) == Wrap32(U32(m, a) + SumAt(Fixes(m, coff, sym, delta), a))
  {
    hide Run, Apply, Fixes, U32;
    RunIsApply(m, coff, sym, delta, meta);
    ApplySlot(m, Fixes(m, coff, sym, delta), a);
  }

  /** A byte outside every slot is unchanged, whether or not slots overlap. */
  lemma RunFrame(m: seq<u8>, coff: nat, sym: nat, delta: u32, meta: Meta, i: int)
    requires Sound(m, coff, sym, delta, meta)
    requires 0 <= i < |m| && !InSlot(Fixes(m, coff, sym, delta), i)
    ensures var r := Run(m, coff, sym, delta); r.Some? && |r.value| == |m| && r.value[i] == m[i]
  {
    hide Run, Apply, Fixes, U32;
    RunIsApply(m, coff, sym, delta, meta);
    SafeInRange(meta, |m|, Fixes(m, coff, sym, delta));
    ApplyFrame(m, Fixes(m, coff, sym, delta), i);
  }

  lemma SafeInRange(meta: Meta, len: nat, fixes: seq<Fix>)
    requires Safe(meta, len, fixes)
    ensures InRange(fixes, len)
  {
  }

  // ----- the order of relocations -----

  function Gain(f: Fix, a: int): (s: int)
  {
    if f.slot == a then f.addend else 0
  }

  lemma {:induction false} SumRemove(fixes: seq<Fix>, k: nat, a: int)
    requires k < |fixes|
    ensures SumAt(fixes, a) == Gain(fixes[k], a) + SumAt(fixes[..k] + fixes[k + 1..], a)
    decreases |fixes|
  {
    var rest := fixes[..k] + fixes[k + 1..];
    if k == 0 {
      assert rest == fixes[1..];
    } else {
      SumRemove(fixes[1..], k - 1, a);
      assert rest[0] == fixes[0];
      assert rest[1..] == fixes[1..][..k - 1] + fixes[1..][k..];
    }
  }

  lemma RemoveOne(g: seq<Fix>, k: nat)
    requires k < |g|
    ensures multiset(g[..k] + g[k + 1..]) == multiset(g) - multiset{g[k]}
  {
    assert g == g[..k] + [g[k]] + g[k + 1..];
  }

  lemma RemoveSame(f: seq<Fix>, g: seq<Fix>, k: nat)
    requires f != [] && k < |g| && g[k] == f[0] && multiset(f) == multiset(g)
    ensures multiset(f[..0] + f[1..]) == multiset(g[..k] + g[k + 1..])
  {
    RemoveOne(g, k);
    RemoveOne(f, 0);
  }

  lemma {:induction false} SumPermuted(f: seq<Fix>, g: seq<Fix>, a: int)
    requires multiset(f) == multiset(g)
    ensures SumAt(f, a) == SumAt(g, a)
    decreases |f|
  {
    if f == [] {
      assert |g| == |multiset(g)|;
    } else {
      hide SumAt, Gain;
      assert f[0] in multiset(g);
      var k :| 0 <= k < |g| && g[k] == f[0];
      SumRemove(g, k, a);
      SumRemove(f, 0, a);
      RemoveSame(f, g, k);
      SumPermuted(f[..0] + f[1..], g[..k] + g[k + 1..], a);
    }
  }

  /** Slots are pairwise disjoint or equal. */
  ghost predicate Separate(fixes: seq<Fix>)
  {
    forall f, g | f in fixes && g in fixes :: Apart(f.slot, g.slot)
  }

  lemma U32Determines(x: seq<u8>, y: seq<u8>, a: int)
    requires In(x, a, 4) && In(y, a, 4) && U32(x, a) == U32(y, a)
    ensures x[a..a + 4] == y[a..a + 4]
  {
    var x0: int, x1: int, x2: int, x3: int := x[a], x[a + 1], x[a + 2], x[a + 3];
    var y0: int, y1: int, y2: int, y3: int := y[a], y[a + 1], y[a + 2], y[a + 3];
    LowDigit(x0, x1 + 256 * (x2 + 256 * x3), y0, y1 + 256 * (y2 + 256 * y3));
    LowDigit(x1, x2 + 256 * x3, y1, y2 + 256 * y3);
    LowDigit(x2, x3, y2, y3);
  }

  lemma LowDigit(a: int, x: int, b: int, y: int)
    requires 0 <= a < 256 && 0 <= b < 256 && a + 256 * x == b + 256 * y
    ensures a == b && x == y
  {
  }

  lemma SamePatches(f: seq<Fix>, g: seq<Fix>, len: nat)
    requires multiset(f) == multiset(g)
    ensures InRange(f, len) ==> InRange(g, len)
    ensures Separate(f) ==> Separate(g)
    ensures forall i :: InSlot(f, i) <==> InSlot(g, i)
    ensures forall a: int :: Clear(f, len, a) ==> Clear(g, len, a)
  {
    forall x ensures x in f <==> x in g {
      assert x in f <==> x in multiset(f);
      assert x in g <==> x in multiset(g);
    }
  }

  /** Relocations commute: any reordering of separate patches gives the same image. */
  lemma OrderIrrelevant(img: seq<u8>, f: seq<Fix>, g: seq<Fix>)
    requires multiset(f) == multiset(g) && Separate(f) && InRange(f, |img|)
    ensures Apply(img, f).Some? && Apply(img, f) == Apply(img, g)
  {
    hide Apply, U32;
    SamePatches(f, g, |img|);
    ApplyDefined(img, f);
    ApplyDefined(img, g);
    var x, y := Apply(img, f).value, Apply(img, g).value;
    forall i | 0 <= i < |img| ensures x[i] == y[i] {
      SameByte(img, f, g, i);
    }
    assert x == y;
  }

  /** The run gives what its patches give in any order. */
  lemma RunOrderIrrelevant(m: seq<u8>, coff: nat, sym: nat, delta: u32, meta: Meta, g: seq<Fix>)
    requires Sound(m, coff, sym, delta, meta) && Separate(Fixes(m, coff, sym, delta))
    requires multiset(g) == multiset(Fixes(m, coff, sym, delta))
    ensures Run(m, coff, sym, delta).Some? && Run(m, coff, sym, delta) == Apply(m, g)
  {
    hide Run, Apply, Fixes, Separate;
    RunIsApply(m, coff, sym, delta, meta);
    SafeInRange(meta, |m|, Fixes(m, coff, sym, delta));
    OrderIrrelevant(m, Fixes(m, coff, sym, delta), g);
  }

  lemma {:induction false} ApplyDefined(img: seq<u8>, fixes: seq<Fix>)
    requires InRange(fixes, |img|)
    ensures Apply(img, fixes).Some? && |Apply(img, fixes).value| == |img|
    decreases |fixes|
  {
    if fixes != [] {
      ApplyDefined(AddAt(img, fixes[0].slot, fixes[0].addend).value, fixes[1..]);
    }
  }

  lemma SameByte(img: seq<u8>, f: seq<Fix>, g: seq<Fix>, i: int)
    requires multiset(f) == multiset(g) && Separate(f) && InRange(f, |img|) && 0 <= i < |img|
    ensures Apply(img, f).Some? && Apply(img, g).Some?
    ensures var x, y := Apply(img, f).value, Apply(img, g).value; |x| == |img| == |y| && x[i] == y[i]
  {
    hide Apply, U32, SumAt;
    SamePatches(f, g, |img|);
    if InSlot(f, i) {
      var x :| x in f && x.slot <= i < x.slot + 4;
      var a := x.slot;
      assert Clear(f, |img|, a);
      ApplySlot(img, f, a);
      ApplySlot(img, g, a);
      SumPermuted(f, g, a);
      var p, q := Apply(img, f).value, Apply(img, g).value;
      U32Determines(p, q, a);
      assert p[i] == p[a..a + 4][i - a] && q[i] == q[a..a + 4][i - a];
    } else {
      ApplyFrame(img, f, i);
      ApplyFrame(img, g, i);
    }
  }

  // ----- the load address -----

  /** `g` is `f` with every slot moved by `d`: the addends do not depend on the load address. */
  ghost predicate Moved(f: seq<Fix>, g: seq<Fix>, d: int)
  {
    |f| == |g| && forall k | 0 <= k < |f| :: g[k].addend == f[k].addend && g[k].slot == Wrap32(f[k].slot + d)
  }

  lemma WrapMoves(at: int, delta: int, delta': int)
    ensures Wrap32(at + delta') == Wrap32(Wrap32(at + delta) + (delta' - delta))
  {
  }

  lemma {:induction false} RelocsMoved(m: seq<u8>, reloc: nat, n: nat, secVa: u32, sym: nat, delta: u32, delta': u32)
    requires RelocsRead(m, reloc, n, sym)
    ensures Moved(RelocFixes(m, reloc, n, secVa, sym, delta),
                  RelocFixes(m, reloc, n, secVa, sym, delta'), delta' - delta)
    decreases n
  {
    hide U32, U16, Wrap32;
    if n > 0 {
      WrapMoves(Wrap32(U32(m, reloc) + secVa), delta, delta');
      RelocsMoved(m, reloc + RELOC_SIZE, n - 1, secVa, sym, delta, delta');
    }
  }

  lemma {:induction false} DeltaOnlyMovesSlots(m: seq<u8>, coff: nat, sec: nat, n: nat, sym: nat,
                                                delta: u32, delta': u32)
    requires SectionsRead(m, coff, sec, n, sym)
    ensures Moved(SectionFixes(m, coff, sec, n, sym, delta), SectionFixes(m, coff, sec, n, sym, delta'), delta' - delta)
    decreases n
  {
    hide U32, U16, RelocReads, RelocFixes, RelocsRead, Wrap32;
    if n > 0 {
      RelocsMoved(m, coff + U32(m, sec + 24), U16(m, sec + 32), U32(m, sec + 12), sym, delta, delta');
      DeltaOnlyMovesSlots(m, coff, sec + SECTION_SIZE, n - 1, sym, delta, delta');
    }
  }
}
