/**
 COFF symbol fixup (rust_kernel/kolibri_utils/src/fix_coff_symbols.rs): external
 symbols are resolved by name, internal ones gain their section's address,
 absolute and debug symbols stay. Section headers and symbol table share one
 image, as in a loaded library; `get_proc_ex` is an arbitrary function of the
 name pointer.
 */
module CoffSymbols {
  import opened Words
  import opened CoffReloc

  const ABSOLUTE: u16 := 0xFFFF
  const DEBUG: u16 := 0xFFFE

  /** Where a symbol's name is: in the record itself, or in the string table. */
  datatype NamePtr = InlineName(at: nat) | LongName(off: u32)

  type Resolver = NamePtr -> u32

  function SectionOf(img: seq<u8>, s: nat): (n: u16)
    requires In(img, s, 14)
  {
    U16(img, s + 12)
  }

  predicate Internal(section: u16)
  {
    section != 0 && section != ABSOLUTE && section != DEBUG
  }

  /** The `VirtualAddress` field of a 1-based section number. */
  function VaField(sec: nat, section: u16): (off: nat)
    requires section > 0
  {
    sec + SECTION_SIZE * (section - 1) + 12
  }

  function NameOf(img: seq<u8>, s: nat): (p: NamePtr)
    requires In(img, s, 14)
  {
    if U32(img, s) == 0 then LongName(U32(img, s + 4)) else InlineName(s)
  }

  predicate SymReads(img: seq<u8>, sec: nat, s: nat)
  {
    In(img, s, 14) && (Internal(SectionOf(img, s)) ==> In(img, VaField(sec, SectionOf(img, s)), 4))
  }

  /** The value a symbol record ends with. */
  function NewValue(img: seq<u8>, sec: nat, s: nat, resolve: Resolver): (v: u32)
    requires SymReads(img, sec, s)
  {
    var section := SectionOf(img, s);
    if section == 0 then resolve(NameOf(img, s))
    else if Internal(section) then Wrap32(U32(img, s + 8) + U32(img, VaField(sec, section)))
    else U32(img, s + 8)
  }

  /** An external symbol that no library provides. */
  predicate Unresolved(img: seq<u8>, s: nat, resolve: Resolver)
    requires In(img, s, 14)
  {
    SectionOf(img, s) == 0 && resolve(NameOf(img, s)) == 0
  }

  /** The loop from symbol `s` on: the image and the return value, or `None` for an access outside the image. */
  function RunSymbols(img: seq<u8>, sec: nat, s: nat, n: nat, resolve: Resolver, ret: u32): (r: Option<(seq<u8>, u32)>)
    decreases n
  {
    if n == 0 then Some((img, ret))
    else if !SymReads(img, sec, s) then None
    else RunSymbols(PutU32(img, s + 8, NewValue(img, sec, s, resolve)), sec, s + SYM_SIZE, n - 1, resolve,
                    if Unresolved(img, s, resolve) then 0 else ret)
  }

  method WriteU32(image: array<u8>, off: nat, v: u32)
    requires off + 4 <= image.Length
    modifies image
    ensures image[..] == PutU32(old(image[..]), off, v)
  {
    var b := LE32(v);
    image[off], image[off + 1], image[off + 2], image[off + 3] := b[0], b[1], b[2], b[3];
  }

  /** One symbol: `value` is written unless the record is absolute or debug. */
  method FixSymbol(image: array<u8>, sec: nat, s: nat, resolve: Resolver) returns (unresolved: bool)
    requires SymReads(image[..], sec, s)
    modifies image
    ensures unresolved == Unresolved(old(image[..]), s, resolve)
    ensures image[..] == PutU32(old(image[..]), s + 8, NewValue(old(image[..]), sec, s, resolve))
  {
    hide U32, U16, LE32;
    unresolved := false;
    var section := SectionOf(image[..], s);
    if section == 0 {
      var resolved := resolve(NameOf(image[..], s));
      unresolved := resolved == 0;
      WriteU32(image, s + 8, resolved);
    } else if section != ABSOLUTE && section != DEBUG {
      var va: int := U32(image[..], VaField(sec, section));
      var cur: int := U32(image[..], s + 8);
      WriteU32(image, s + 8, Wrap32(cur + va));
    } else {
      PutSame(image[..], s + 8);
    }
  }

  lemma PutSame(img: seq<u8>, off: nat)
    requires In(img, off, 4)
    ensures PutU32(img, off, U32(img, off)) == img
  {
    PutU32Bytes(img, off, U32(img, off));
    U32Determines(PutU32(img, off, U32(img, off)), img, off);
    var r := PutU32(img, off, U32(img, off));
    assert forall i | off <= i < off + 4 :: r[i] == r[off..off + 4][i - off] && img[i] == img[off..off + 4][i - off];
  }

  /** `fix_coff_symbols`; `ok` is false where the run leaves the image. */
  method FixCoffSymbols(image: array<u8>, sec: nat, symbols: nat, symCount: nat, resolve: Resolver)
    returns (ok: bool, retval: u32)
    modifies image
    ensures var r := RunSymbols(old(image[..]), sec, symbols, symCount, resolve, 1);
            ok == r.Some? && (ok ==> image[..] == r.value.0 && retval == r.value.1)
  {
    hide NewValue, Unresolved, SymReads;
    retval := 1;
    var s: nat, n: nat := symbols, symCount;
    while n != 0
      invariant RunSymbols(image[..], sec, s, n, resolve, retval)
                == RunSymbols(old(image[..]), sec, symbols, symCount, resolve, 1)
      decreases n
    {
      if !SymReads(image[..], sec, s) {
        return false, retval;
      }
      var unresolved := FixSymbol(image, sec, s, resolve);
      if unresolved {
        retval := 0;
      }
      s, n := s + SYM_SIZE, n - 1;
    }
    ok := true;
  }

  // ----- what the fixup does to the table -----

  /** Offset of symbol `j` of a table at `s`. */
  function Sym(s: nat, j: nat): (off: nat)
  {
    s + SYM_SIZE * j
  }

  /** Record `j` is readable and its section's address lies outside the table. */
  predicate RecordOk(img: seq<u8>, sec: nat, s: nat, n: nat, j: nat)
  {
    && SymReads(img, sec, Sym(s, j))
    && var section := SectionOf(img, Sym(s, j));
       Internal(section) ==> VaField(sec, section) + 4 <= s || s + SYM_SIZE * n <= VaField(sec, section)
  }

  predicate TableOk(img: seq<u8>, sec: nat, s: nat, n: nat)
  {
    forall j: nat | j < n :: RecordOk(img, sec, s, n, j)
  }

  /** A byte of the value field of some symbol from the `k`th on. */
  predicate InValue(s: nat, k: nat, n: nat, i: int)
  {
    exists j: nat | k <= j < n :: Sym(s, j) + 8 <= i < Sym(s, j) + 12
  }

  ghost predicate SameOutsideValues(a: seq<u8>, b: seq<u8>, s: nat, k: nat, n: nat)
  {
    |a| == |b| && forall i | 0 <= i < |a| && !InValue(s, k, n, i) :: a[i] == b[i]
  }

  /** A record reads the same in both images. */
  predicate SameRecord(a: seq<u8>, b: seq<u8>, sec: nat, s: nat, resolve: Resolver)
  {
    && SymReads(a, sec, s) && SymReads(b, sec, s)
    && SectionOf(a, s) == SectionOf(b, s)
    && NewValue(a, sec, s, resolve) == NewValue(b, sec, s, resolve)
    && Unresolved(a, s, resolve) == Unresolved(b, s, resolve)
  }

  /** A four-byte write elsewhere does not disturb a record. */
  lemma RecordKept(m: seq<u8>, img: seq<u8>, sec: nat, s: nat, lo: nat, resolve: Resolver)
    requires SymReads(m, sec, s) && |img| == |m|
    requires forall i | 0 <= i < |m| && !(lo <= i < lo + 4) :: m[i] == img[i]
    requires lo + 4 <= s || s + 14 <= lo
    requires Internal(SectionOf(m, s)) ==> var va := VaField(sec, SectionOf(m, s)); va + 4 <= lo || lo + 4 <= va
    ensures SameRecord(img, m, sec, s, resolve)
  {
  }

  /** Writing the value of record `k` leaves record `j` as it was. */
  lemma LaterRecordKept(img: seq<u8>, sec: nat, s: nat, n: nat, k: nat, j: nat, v: u32, resolve: Resolver)
    requires k < j < n && RecordOk(img, sec, s, n, j)
    ensures In(img, Sym(s, k) + 8, 4)
    ensures SameRecord(PutU32(img, Sym(s, k) + 8, v), img, sec, Sym(s, j), resolve)
    ensures RecordOk(PutU32(img, Sym(s, k) + 8, v), sec, s, n, j)
  {
    hide U32, U16, LE32, NewValue, Unresolved, PutU32;
    var r := PutU32(img, Sym(s, k) + 8, v);
    PutU32Bytes(img, Sym(s, k) + 8, v);
    RecordKept(img, r, sec, Sym(s, j), Sym(s, k) + 8, resolve);
  }

  /** The records from the `k`th on are all resolved. */
  predicate AllResolved(m: seq<u8>, sec: nat, s: nat, k: nat, n: nat, resolve: Resolver)
  {
    forall j: nat | k <= j < n :: SymReads(m, sec, Sym(s, j)) && !Unresolved(m, Sym(s, j), resolve)
  }

  /** The value field of record `j` in `r` is the new value of that record in `m`. */
  predicate ValueSet(m: seq<u8>, r: seq<u8>, sec: nat, s: nat, j: nat, resolve: Resolver)
  {
    && SymReads(m, sec, Sym(s, j)) && In(r, Sym(s, j) + 8, 4)
    && U32(r, Sym(s, j) + 8) == NewValue(m, sec, Sym(s, j), resolve)
  }

  /** The rest of the loop, from record `k` on. */
  ghost predicate RestDone(m: seq<u8>, r: seq<u8>, sec: nat, s: nat, k: nat, n: nat, resolve: Resolver)
  {
    SameOutsideValues(m, r, s, k, n) && forall j: nat | k <= j < n :: ValueSet(m, r, sec, s, j, resolve)
  }

  lemma {:induction false} SymbolsFrom(img: seq<u8>, sec: nat, s: nat, k: nat, n: nat, resolve: Resolver, ret: u32)
    requires k <= n && forall j: nat | k <= j < n :: RecordOk(img, sec, s, n, j)
    ensures var r := RunSymbols(img, sec, Sym(s, k), n - k, resolve, ret);
            && r.Some? && RestDone(img, r.value.0, sec, s, k, n, resolve)
            && r.value.1 == (if AllResolved(img, sec, s, k, n, resolve) then ret else 0)
    decreases n - k
  {
    hide U32, U16, LE32, NewValue, Unresolved, PutU32;
    if k < n {
      assert RecordOk(img, sec, s, n, k);
      var v := NewValue(img, sec, Sym(s, k), resolve);
      var next := PutU32(img, Sym(s, k) + 8, v);
      forall j: nat | k < j < n ensures RecordOk(next, sec, s, n, j) && SameRecord(next, img, sec, Sym(s, j), resolve) {
        LaterRecordKept(img, sec, s, n, k, j, v, resolve);
      }
      var ret' := if Unresolved(img, Sym(s, k), resolve) then 0 else ret;
      assert Sym(s, k) + SYM_SIZE == Sym(s, k + 1);
      SymbolsFrom(next, sec, s, k + 1, n, resolve, ret');
      var r := RunSymbols(next, sec, Sym(s, k + 1), n - k - 1, resolve, ret').value.0;
      RestFromNext(img, r, sec, s, k, n, resolve);
      ResolvedFromNext(img, next, sec, s, k, n, resolve);
    }
  }

  lemma RestFromNext(img: seq<u8>, r: seq<u8>, sec: nat, s: nat, k: nat, n: nat, resolve: Resolver)
    requires k < n && RecordOk(img, sec, s, n, k)
    requires var next := PutU32(img, Sym(s, k) + 8, NewValue(img, sec, Sym(s, k), resolve));
             && RestDone(next, r, sec, s, k + 1, n, resolve)
             && forall j: nat | k < j < n :: SameRecord(next, img, sec, Sym(s, j), resolve)
    ensures RestDone(img, r, sec, s, k, n, resolve)
  {
    var v := NewValue(img, sec, Sym(s, k), resolve);
    var next := PutU32(img, Sym(s, k) + 8, v);
    PutU32Bytes(img, Sym(s, k) + 8, v);
    ValueKept(next, r, s, k, n);
    FrameFromNext(img, next, r, s, k, n);
    hide U32, U16, LE32, NewValue, PutU32, SameOutsideValues, Sym, InValue;
    forall j: nat | k <= j < n ensures ValueSet(img, r, sec, s, j, resolve) {
      if k < j {
        assert SameRecord(next, img, sec, Sym(s, j), resolve);
        assert ValueSet(next, r, sec, s, j, resolve);
      }
    }
  }

  lemma FrameFromNext(img: seq<u8>, next: seq<u8>, r: seq<u8>, s: nat, k: nat, n: nat)
    requires k < n && |next| == |img| && SameOutsideValues(next, r, s, k + 1, n)
    requires forall i | 0 <= i < |img| && !(Sym(s, k) + 8 <= i < Sym(s, k) + 12) :: next[i] == img[i]
    ensures SameOutsideValues(img, r, s, k, n)
  {
  }

  /** The later records do not touch the value of record `k`. */
  lemma ValueKept(img: seq<u8>, r: seq<u8>, s: nat, k: nat, n: nat)
    requires k < n && In(img, Sym(s, k) + 8, 4) && SameOutsideValues(img, r, s, k + 1, n)
    ensures U32(r, Sym(s, k) + 8) == U32(img, Sym(s, k) + 8)
  {
  }

  lemma ResolvedFromNext(img: seq<u8>, next: seq<u8>, sec: nat, s: nat, k: nat, n: nat, resolve: Resolver)
    requires k < n && RecordOk(img, sec, s, n, k)
    requires forall j: nat | k < j < n :: SameRecord(next, img, sec, Sym(s, j), resolve)
    ensures AllResolved(img, sec, s, k, n, resolve) <==>
            !Unresolved(img, Sym(s, k), resolve) && AllResolved(next, sec, s, k + 1, n, resolve)
  {
  }

  /**
   The fixup writes each symbol's new value, computed from the original image,
   changes no other byte, and returns 1 exactly when every external symbol was
   resolved.
   */
  lemma SymbolsMeaning(m: seq<u8>, sec: nat, s: nat, n: nat, resolve: Resolver)
    requires TableOk(m, sec, s, n)
    ensures var r := RunSymbols(m, sec, s, n, resolve, 1);
            && r.Some? && RestDone(m, r.value.0, sec, s, 0, n, resolve)
            && (r.value.1 == 1 <==> AllResolved(m, sec, s, 0, n, resolve)) && r.value.1 <= 1
  {
    assert Sym(s, 0) == s;
    SymbolsFrom(m, sec, s, 0, n, resolve, 1);
  }
}
