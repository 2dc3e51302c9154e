/**
 `exFAT_find_lfn`: looking up one path component in an exFAT directory
 (rust_kernel/kolibri_utils/src/exfat_find_lfn.rs, with the directory callbacks
 of its test module and the case folding of casefold.rs).

 The path is an abstract stream: `decode(p)` is the 16-bit unit at byte
 position `p` and the position after it. The loops call the decoder with
 whatever EAX they hold, as the source does; `Agrees` says that the unit does
 not depend on it. The first name entry of a directory
 that no file entry precedes would be copied through the caller's path
 pointer; that run ends as `Stray`.
 */
module ExfatLookup {
  import opened Words
  import EC = ExfatChecksum

  type Entry = e: seq<u8> | |e| == 32 witness seq(32, i => 0)
  type Decoder = nat -> (u16, nat)

  /** The decoder as it is called: a position and EAX in, EAX and the next position out. */
  type Stepper = (nat, u32) -> (u32, nat)

  const SLASH: u16 := 0x2F
  const LFN_UNITS: nat := 262
  const NAME_UNITS: nat := 15
  const MAX_NAMES: nat := 17

  // ----- case folding -----

  /** `utf16_to_upper`. */
  function Upper(ch: u16): (r: u16)
  {
    if ch < 0x61 then ch
    else if ch <= 0x7A then ch - 32
    else if ch < 0x430 then ch
    else if ch < 0x450 then ch - 32
    else if ch >= 0x460 then ch
    else ch - 80
  }

  /** `utf16_to_upper_eax`: the subtraction is done on the full register. */
  function UpperEax(eax: u32): (r: u32)
  {
    var ax := eax % 0x1_0000;
    if ax < 0x61 then eax
    else if ax <= 0x7A then Wrap32(eax - 32)
    else if ax < 0x430 then eax
    else if ax < 0x450 then Wrap32(eax - 32)
    else if ax >= 0x460 then eax
    else Wrap32(eax - 80)
  }

  /** The register form folds the low unit and leaves the upper half alone; folding keeps the terminators apart. */
  lemma UpperFacts(eax: u32)
    ensures UpperEax(eax) % 0x1_0000 == Upper(eax % 0x1_0000) && UpperEax(eax) / 0x1_0000 == eax / 0x1_0000
    ensures var ch := eax % 0x1_0000;
            Upper(Upper(ch)) == Upper(ch) && (Upper(ch) == 0 <==> ch == 0) && (Upper(ch) == SLASH <==> ch == SLASH)
  {
  }

  /** A small letter and its capital: Latin, Cyrillic, and the sixteen Cyrillic extras. */
  predicate CasePair(small: u16, capital: u16)
  {
    || (0x41 <= capital < 0x41 + 26 && small - 0x61 == capital - 0x41)
    || (0x410 <= capital < 0x410 + 32 && small - 0x430 == capital - 0x410)
    || (0x400 <= capital < 0x400 + 16 && small - 0x450 == capital - 0x400)
  }

  predicate SameLetter(a: u16, b: u16)
  {
    a == b || CasePair(a, b) || CasePair(b, a)
  }

  /** What folding is: each small letter becomes its capital, and every other unit stays. */
  lemma UpperIs(i: nat, ch: u16)
    ensures i < 26 ==> Upper(0x61 + i) == 0x41 + i
    ensures i < 32 ==> Upper(0x430 + i) == 0x410 + i
    ensures i < 16 ==> Upper(0x450 + i) == 0x400 + i
    ensures !(0x61 <= ch <= 0x7A) && !(0x430 <= ch <= 0x45F) ==> Upper(ch) == ch
  {
  }

  /** Two units fold alike if and only if they are equal or a small letter and its capital. */
  lemma FoldAlike(a: u16, b: u16)
    ensures Upper(a) == Upper(b) <==> SameLetter(a, b)
  {
  }

  /** Whatever EAX it is called with, the decoder leaves the unit of `decode` in AX. */
  ghost predicate Agrees(step: Stepper, decode: Decoder)
  {
    forall p: nat, eax: u32 :: step(p, eax).0 % 0x1_0000 == decode(p).0 && step(p, eax).1 == decode(p).1
  }

  /** Two names are equal up to case, unit by unit. */
  predicate SameName(a: seq<u16>, b: seq<u16>)
  {
    |a| == |b| && forall i | 0 <= i < |a| :: SameLetter(a[i], b[i])
  }

  // ----- names -----

  /** The name hash of exFAT: over the folded units. */
  function HashOf(units: seq<u16>): (h: u16)
  {
    EC.NameHash(UnitBytes(units))
  }

  lemma {:induction false} BytesOfOneMore(units: seq<u16>, u: u16)
    ensures UnitBytes(units + [u]) == UnitBytes(units) + [u % 256] + [u / 256]
  {
    if units != [] {
      assert (units + [u])[1..] == units[1..] + [u];
      BytesOfOneMore(units[1..], u);
    }
  }

  /** The name hash by one more unit: its low byte, then its high byte, each added to the rotated sum. */
  lemma HashStep(units: seq<u16>, u: u16, first: u16, second: u16)
    requires EC.Rotation(first, HashOf(units)) && EC.Rotation(second, (first + u % 256) % 0x1_0000)
    ensures HashOf([]) == 0 && HashOf(units + [u]) == (second + u / 256) % 0x1_0000
  {
    hide EC.Rotation, EC.Checksum;
    BytesOfOneMore(units, u);
    var b := UnitBytes(units);
    EC.ChecksumStep(b, u % 256, false, first);
    EC.ChecksumStep(b + [u % 256], u / 256, false, second);
  }

  function Fold(units: seq<u16>): (r: seq<u16>)
    ensures |r| == |units| && forall i | 0 <= i < |units| :: r[i] == Upper(units[i])
  {
    seq(|units|, i requires 0 <= i < |units| => Upper(units[i]))
  }

  /** The fifteen units of a file-name entry. */
  function NameUnits(e: Entry): (r: seq<u16>)
    ensures |r| == NAME_UNITS
  {
    seq(NAME_UNITS, i requires 0 <= i < NAME_UNITS => U16(e, 2 + 2 * i))
  }

  lemma UnitAt(e: Entry, k: nat)
    requires k < NAME_UNITS
    ensures NameUnits(e)[k] == U16(e, 2 + 2 * k)
  {
    hide U16;
  }

  function AllUnits(names: seq<Entry>): (r: seq<u16>)
    ensures |r| == NAME_UNITS * |names|
  {
    if names == [] then [] else AllUnits(names[..|names| - 1]) + NameUnits(names[|names| - 1])
  }

  /** The units before the first zero. */
  function UpToNul(units: seq<u16>): (r: seq<u16>)
    ensures |r| <= |units| && r == units[..|r|]
    ensures forall i | 0 <= i < |r| :: r[i] != 0
    ensures |r| < |units| ==> units[|r|] == 0
  {
    if units == [] || units[0] == 0 then [] else [units[0]] + UpToNul(units[1..])
  }

  // ----- the path component -----

  /** The folded units of the component from `p` on, its terminator included, at most `room` of them. */
  function Component(decode: Decoder, p: nat, room: nat): (r: seq<u16>)
    ensures |r| <= room && (room > 0 ==> |r| > 0)
    decreases room
  {
    if room == 0 then []
    else
      var u := Upper(decode(p).0);
      if u == 0 || u == SLASH then [u] else [u] + Component(decode, decode(p).1, room - 1)
  }

  lemma ComponentStep(decode: Decoder, p: nat, room: nat)
    requires room > 0
    ensures var c, u := Component(decode, p, room), Upper(decode(p).0);
            c[0] == u && c[1..] == if u == 0 || u == SLASH then [] else Component(decode, decode(p).1, room - 1)
  {
    hide Upper;
  }

  /** The hash the lookup filters by: the component without its terminator. */
  function PathHash(decode: Decoder, start: nat): (h: u16)
  {
    var c := Component(decode, start, LFN_UNITS);
    HashOf(c[..|c| - 1])
  }

  // ----- the callbacks and the walk, on values -----

  /** The context fields the callbacks share; `copied` counts the
   name entries kept so far and `esi` is the unit where the next one goes, -1 the path pointer. */
  datatype State = State(secondary: u32, hashFlag: bool, copied: nat, esi: int, lfn: seq<u16>)

  predicate Valid(s: State)
  {
    && |s.lfn| == LFN_UNITS
    && s.copied <= MAX_NAMES
    && -1 <= s.esi <= NAME_UNITS * s.copied
  }

  datatype Step = Skip(s: State) | Ready(s: State) | StrayName

  function Restart(s: State): (r: State)
    requires Valid(s)
    ensures Valid(r)
  {
    s.(esi := 0, lfn := s.lfn[260 := 0])
  }

  /** The name buffer after a name entry has been copied to unit `at` and terminated. */
  function CopyName(lfn: seq<u16>, at: nat, e: Entry): (r: seq<u16>)
    requires at + NAME_UNITS < |lfn|
    ensures |r| == |lfn|
  {
    lfn[..at] + NameUnits(e) + [0] + lfn[at + NAME_UNITS + 1..]
  }

  /** `get_name` on one directory entry. */
  function GetName(s: State, hash: u16, e: Entry): (r: Step)
    requires Valid(s)
    ensures !r.StrayName? ==> Valid(r.s)
    ensures r.Ready? ==> r.s.secondary == 0 && exists z | 0 <= z < 260 :: r.s.lfn[z] == 0
  {
    if e[0] == 0x85 then
      Skip(Restart(s.(secondary := Wrap32((e[1] as int) - 1), hashFlag := false, copied := 0, esi := 0)))
    else if e[0] == 0xC0 then
      Skip(Restart(s.(hashFlag := s.hashFlag || U16(e, 4) != hash)))
    else if e[0] == 0xC1 then
      if s.hashFlag || s.copied >= MAX_NAMES then Skip(s)
      else if s.esi < 0 then StrayName
      else
        var lfn := CopyName(s.lfn, s.esi, e);
        assert lfn[s.esi + NAME_UNITS] == 0;
        var left := Wrap32(s.secondary - 1);
        var s' := s.(secondary := left, copied := s.copied + 1, lfn := lfn);
        if left != 0 then Skip(s'.(esi := s.esi + NAME_UNITS)) else Ready(s')
    else
      Skip(s)
  }

  /** Comparing the path from `p` with the name buffer from unit `i`: the cursor after a match. */
  function Compare(decode: Decoder, p: nat, lfn: seq<u16>, i: nat): (r: Option<int>)
    decreases |lfn| - i
  {
    if i >= |lfn| then None
    else
      var dx := Upper(decode(p).0);
      var ax := Upper(lfn[i]);
      if ax != dx then
        if dx == SLASH && ax == 0 then Some(decode(p).1) else None
      else if ax == 0 then Some((decode(p).1 as int) - 1)
      else Compare(decode, decode(p).1, lfn, i + 1)
  }

  /** How a lookup ends: found at entry `edi` with the path at `cursor`, or not. */
  datatype Outcome = Found(cursor: int, edi: nat) | NotFound(edi: nat) | Stray(edi: nat)

  /** The constant part of a lookup. */
  datatype Query = Query(decode: Decoder, start: nat, hash: u16, dir: seq<Entry>, validDataLength: u32)

  /** Moving on from entry `edi`. */
  predicate AtEnd(q: Query, edi: nat)
  {
    q.validDataLength == 0 || edi + 1 >= |q.dir|
  }

  /** The main loop from entry `edi` on. */
  function Walk(q: Query, s: State, edi: nat): (r: Outcome)
    requires Valid(s) && edi < |q.dir|
    decreases |q.dir| - edi
  {
    var step := GetName(s, q.hash, q.dir[edi]);
    if step.StrayName? then Stray(edi)
    else
      var cursor := if step.Ready? then Compare(q.decode, q.start, step.s.lfn, 0) else None;
      if cursor.Some? then Found(cursor.value, edi)
      else if AtEnd(q, edi) then NotFound(edi)
      else Walk(q, step.s, edi + 1)
  }

  /** A whole lookup: `first`, the hash of the component, then the walk with the path pointer still in ESI. */
  function FindSpec(decode: Decoder, start: nat, dir: seq<Entry>, validDataLength: u32, s: State): (r: Outcome)
    requires Valid(s)
  {
    if dir == [] then NotFound(0)
    else
      var c := Component(decode, start, LFN_UNITS);
      Walk(Query(decode, start, PathHash(decode, start), dir, Wrap32(validDataLength - 512)),
           s.(secondary := 1, esi := -1, lfn := c + s.lfn[|c|..]), 0)
  }

  /** EAX with its low half replaced. */
  function WithAx(eax: u32, ax: u16): (r: u32)
    ensures r % 0x1_0000 == ax && r / 0x1_0000 == eax / 0x1_0000
  {
    eax / 0x1_0000 * 0x1_0000 + ax
  }

  // ----- the lookup in place -----

  class Lookup {
    var secondary: u32
    var needHash: u32
    var currentHash: u16
    var hashFlag: bool
    var copied: nat
    var esi: int
    var validDataLength: u32
    const lfn: array<u16>
    const dir: seq<Entry>
    const step: Stepper
    const lfnAddress: u32
    ghost const decode: Decoder

    ghost function Snapshot(): (s: State)
      reads this, lfn
    {
      State(secondary, hashFlag, copied, esi, lfn[..])
    }

    ghost predicate Ok()
      reads this, lfn
    {
      Valid(Snapshot()) && Agrees(step, decode)
    }

    /** A fresh context over a directory; the fields the lookup does not set keep the caller's values. */
    constructor (dir: seq<Entry>, step: Stepper, lfnAddress: u32, hashFlag: bool, copied: nat, validDataLength: u32,
                 ghost decode: Decoder)
      requires copied <= MAX_NAMES && Agrees(step, decode)
      ensures Ok() && fresh(lfn)
      ensures this.dir == dir && this.decode == decode && this.hashFlag == hashFlag && this.copied == copied
      ensures this.validDataLength == validDataLength
    {
      secondary, needHash, currentHash, esi := 0, 0, 0, -1;
      this.hashFlag, this.copied, this.validDataLength := hashFlag, copied, validDataLength;
      lfn := new u16[LFN_UNITS](i => 0);
      this.dir, this.step, this.lfnAddress := dir, step, lfnAddress;
      this.decode := decode;
    }

    /** `first`: the carry flag and the first entry. */
    method First() returns (cf: bool, edi: nat)
      modifies this`validDataLength
      ensures edi == 0 && (cf <==> dir == [])
      ensures validDataLength == if cf then old(validDataLength) else Wrap32(old(validDataLength) - 512)
    {
      edi, cf := 0, |dir| == 0;
      if !cf {
        validDataLength := Wrap32(validDataLength - 512);
      }
    }

    /** `next`: on failure the entry stays where it was. */
    method Next(edi: nat) returns (cf: bool, next: nat)
      ensures cf <==> edi + 1 >= |dir|
      ensures next == if cf then edi else edi + 1
    {
      cf := edi + 1 >= |dir|;
      next := if cf then edi else edi + 1;
    }

    /** `step_utf16`: the next unit, folded, in the low half of EAX. */
    method StepUtf16(p: nat, eax: u32) returns (folded: u32, next: nat)
      requires Agrees(step, decode)
      ensures folded % 0x1_0000 == Upper(decode(p).0) && next == decode(p).1
    {
      hide Upper, UpperEax;
      var out := step(p, eax);
      UpperFacts(out.0);
      folded, next := UpperEax(out.0), out.1;
    }

    /** Fold the component, its terminator included, into the start of the name buffer. */
    method FillComponent(path: nat) returns (filled: nat)
      requires lfn.Length == LFN_UNITS && Agrees(step, decode)
      modifies lfn
      ensures filled == |Component(decode, path, LFN_UNITS)|
      ensures lfn[..filled] == Component(decode, path, LFN_UNITS) && lfn[filled..] == old(lfn[filled..])
    {
      hide Upper, UpperEax;
      ghost var c := Component(decode, path, LFN_UNITS);
      hide Component;
      var p, eax, ax := path, lfnAddress, 1;
      filled := 0;
      while ax != 0 && ax != SLASH && filled < LFN_UNITS
        invariant filled <= |c| <= LFN_UNITS
        invariant forall k | filled <= k < LFN_UNITS :: lfn[k] == old(lfn[k])
        invariant forall k | 0 <= k < filled :: lfn[k] == c[k]
        invariant if ax == 0 || ax == SLASH then filled == |c|
                     else c[filled..] == Component(decode, p, LFN_UNITS - filled)
        decreases LFN_UNITS - filled
      {
        ComponentStep(decode, p, LFN_UNITS - filled);
        eax, p := StepUtf16(p, eax);
        ax := eax % 0x1_0000;
        assert c[filled] == c[filled..][0] == ax;
        assert c[filled + 1..] == c[filled..][1..];
        lfn[filled] := ax;
        filled := filled + 1;
      }
    }

    /** Fill the name buffer with the component and hash it without its terminator. */
    method HashComponent(path: nat)
      requires Ok()
      modifies this`currentHash, lfn
      ensures Ok()
      ensures lfn[..] == var c := Component(decode, path, LFN_UNITS); c + old(lfn[..])[|c|..]
      ensures currentHash == PathHash(decode, path)
    {
      var filled := FillComponent(path);
      assert lfn[..] == lfn[..filled] + lfn[filled..];
      assert lfn[..filled][..filled - 1] == lfn[..filled - 1];
      currentHash := HashOf(lfn[..filled - 1]);
    }

    /** `get_name` on the entry at `edi`; `ready` is a clear carry flag, `stray` a copy through the path pointer. */
    method GetNameAt(edi: nat) returns (ready: bool, stray: bool)
      requires Ok() && edi < |dir| && needHash != 0
      modifies this`secondary, this`hashFlag, this`copied, this`esi, lfn
      ensures var step := GetName(old(Snapshot()), currentHash, dir[edi]);
              stray == step.StrayName? && ready == step.Ready? && (!stray ==> Ok() && Snapshot() == step.s)
    {
      var e := dir[edi];
      ready, stray := false, false;
      if e[0] == 0x85 {
        copied, hashFlag := 0, false;
        secondary := Wrap32((e[1] as int) - 1);
        esi := 0;
        lfn[260] := 0;
      } else if e[0] == 0xC0 {
        if needHash != 0 && U16(e, 4) != currentHash {
          hashFlag := true;
        }
        esi := 0;
        lfn[260] := 0;
      } else if e[0] == 0xC1 {
        if hashFlag || copied >= MAX_NAMES {
          return;
        }
        if esi < 0 {
          stray := true;
          return;
        }
        CopyInto(esi, e);
        copied := copied + 1;
        secondary := Wrap32(secondary - 1);
        if secondary != 0 {
          esi := esi + NAME_UNITS;
        } else {
          ready := true;
        }
      }
    }

    /** Copy the fifteen units of a name entry to unit `at` and terminate them. */
    method CopyInto(at: nat, e: Entry)
      requires at + NAME_UNITS < lfn.Length
      modifies lfn
      ensures lfn[..] == CopyName(old(lfn[..]), at, e)
    {
      ghost var was, units := lfn[..], NameUnits(e);
      hide U16, NameUnits;
      for k := 0 to NAME_UNITS
        invariant forall i | 0 <= i < lfn.Length ::
                    lfn[i] == if at <= i < at + k then units[i - at] else was[i]
      {
        UnitAt(e, k);
        lfn[at + k] := U16(e, 2 + 2 * k);
      }
      lfn[at + NAME_UNITS] := 0;
    }

    /** The comparison loop: the path against the name buffer. */
    method ComparePath(path: nat) returns (cursor: Option<int>)
      requires lfn.Length == LFN_UNITS && Agrees(step, decode) && exists z | 0 <= z < 260 :: lfn[z] == 0
      ensures cursor == Compare(decode, path, lfn[..], 0)
    {
      hide Upper, UpperEax, Agrees;
      var pe, eax, i := path, 0, 0;
      UpperFacts(0);
      ghost var z :| 0 <= z < 260 && lfn[z] == 0;
      while true
        invariant 0 <= i <= z
        invariant Compare(decode, pe, lfn[..], i) == Compare(decode, path, lfn[..], 0)
        decreases z - i
      {
        eax, pe := StepUtf16(pe, eax);
        var dx := eax % 0x1_0000;
        UpperFacts(WithAx(eax, lfn[i]));
        eax := UpperEax(WithAx(eax, lfn[i]));
        var ax := eax % 0x1_0000;
        if ax != dx {
          if dx == SLASH && ax == 0 {
            return Some(pe);
          }
          return None;
        }
        if ax == 0 {
          return Some((pe as int) - 1);
        }
        i := i + 1;
      }
    }

    /** `finish_found`: a further `next` only while secondary entries remain. */
    method FinishFound(esi: int, edi: nat) returns (r: Outcome)
      ensures r == if secondary == 0 then Found(esi, edi)
                   else if edi + 1 >= |dir| then NotFound(edi) else Found(esi, edi + 1)
    {
      if secondary != 0 {
        var cf, next := Next(edi);
        if cf {
          return NotFound(next);
        }
        return Found(esi, next);
      }
      return Found(esi, edi);
    }

    /** `exfat_find_lfn_inner`. */
    method FindLfn(path: nat) returns (r: Outcome)
      requires Ok()
      modifies this, lfn
      ensures r == FindSpec(decode, path, dir, old(validDataLength), old(Snapshot()))
    {
      hide Agrees, Compare, GetName, PathHash, Component;
      secondary, needHash := 1, 1;
      var cf, edi := First();
      if cf {
        return NotFound(edi);
      }
      ghost var was := lfn[..];
      HashComponent(path);
      esi := -1;
      ghost var q := Query(decode, path, currentHash, dir, validDataLength);
      ghost var start := Snapshot();
      while true
        invariant Ok() && edi < |dir| && needHash != 0
        invariant q == Query(decode, path, currentHash, dir, validDataLength)
        invariant Walk(q, Snapshot(), edi) == Walk(q, start, 0)
        decreases |dir| - edi
      {
        var ready, stray := GetNameAt(edi);
        if stray {
          return Stray(edi);
        }
        if ready && secondary == 0 {
          var cursor := ComparePath(path);
          if cursor.Some? {
            r := FinishFound(cursor.value, edi);
            return;
          }
        }
        if validDataLength == 0 {
          return NotFound(edi);
        }
        cf, edi := Next(edi);
        if cf {
          return NotFound(edi);
        }
      }
    }
  }
}
