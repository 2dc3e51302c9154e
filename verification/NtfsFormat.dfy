/**
 The minimal NTFS formatter: boot sector, MBR, MFT with its mirror and bitmap,
 volume bitmap, every file resident in its MFT record and listed in the root
 index. The clock and the text that replaces files above 700 bytes are parameters.
 */
module NtfsFormat {
  import opened Words
  import opened NtfsRecord
  import opened NtfsIndex

  const CLUSTER: int := 4096
  const OEM: seq<u8> := [0x4E, 0x54, 0x46, 0x53, 0x20, 0x20, 0x20, 0x20]

  /** A FILETIME with room for the three increments of a standard information attribute. */
  type Time = x: int | 0 <= x < 0xFFFF_FFFF_FFFF_FFFD

  /** A file of the tree, its path and bytes. */
  datatype File = File(path: seq<u16>, data: seq<u8>)

  /**
   A call of the formatter: files in the sorted order of their paths; `stub` gives
   the replacement text of a large file, if it is ASCII; `clock(r, j)` is the
   reading taken for the `j`-th timestamped part of record `r`.
   */
  datatype Job = Job(size: int, partLba: int, files: seq<File>,
                     stub: (seq<u16>, nat) -> Option<seq<u8>>, clock: (nat, nat) -> Time)

  // ----- attributes -----

  function Unnamed(kind: u32, value: seq<u8>): (a: seq<u8>)
    requires |value| < 0x1_0000
    ensures |a| == 24 + |value|
  {
    ResidentHead(kind, 24 + |value|, 0, 0, |value|, 24) + [] + [] + value
  }

  function StandardInformation(t: Time): (a: seq<u8>)
    ensures |a| == 72
  {
    Unnamed(0x10, LE64(t) + LE64(t + 1) + LE64(t + 2) + LE64(t + 3) + LE32(0x20) + Zeros(12))
  }

  /** The parent and four times. */
  function NameTimes(t: Time): (s: seq<u8>)
    ensures |s| == 0x28
  {
    LE64(ROOT_REF) + LE64(t) + LE64(t) + LE64(t) + LE64(t)
  }

  /** Two sizes, the kind of file, and the name with its length and name space. */
  function NameRest(name: seq<u16>, isDir: bool): (s: seq<u8>)
    requires |name| <= 255
    ensures |s| == 0x1A + 2 * |name|
  {
    Zeros(16) + LE32(if isDir then 0x10 else 0x20) + Zeros(4) + [|name|, 1] + UnitBytes(name)
  }

  function FileNameValue(name: seq<u16>, isDir: bool, t: Time): (v: seq<u8>)
    requires |name| <= 255
    ensures |v| == 0x42 + 2 * |name|
  {
    NameTimes(t) + NameRest(name, isDir)
  }

  /** A name of more than 255 units raises. */
  function FileName(name: seq<u16>, isDir: bool, t: Time): (a: Option<seq<u8>>)
    ensures a.Some? ==> |a.value| == 90 + 2 * |name|
  {
    if |name| > 255 then None else Some(Unnamed(0x30, FileNameValue(name, isDir, t)))
  }

  function Data(data: seq<u8>): (a: Option<seq<u8>>)
    ensures a.Some? ==> |a.value| == 24 + |data|
  {
    if |data| > 700 then None else Some(Unnamed(0x80, data))
  }

  /** An unnamed non-resident attribute with one run; lengths and cluster numbers keep one byte. */
  function NonResident(kind: u32, clusters: nat, lcn: nat, alloc: nat, length: nat): (a: Option<seq<u8>>)
    ensures a.Some? ==> |a.value| == 0x44
  {
    if clusters == 0 || clusters >= 0x1_0000 || lcn >= 0x1_0000 || alloc >= TWO64 || length >= TWO64 then None
    else
      var last := if length == 0 then 0 else (length - 1) / CLUSTER;
      Some(LE32(kind) + LE32(0x44) + [1, 0] + LE16(0) + Zeros(4) + LE64(0) + LE64(last) + LE16(0x40) + Zeros(6)
           + LE64(alloc) + LE64(length) + LE64(length) + [0x11, clusters % 256, lcn % 256, 0])
  }

  // ----- sectors -----

  /** The parameter block of the boot sector. */
  function BootFront(sectors: u64): (f: seq<u8>)
    ensures |f| == 0x48
  {
    [0xEB, 0x52, 0x90] + OEM + LE16(512) + [8] + Zeros(26) + LE64(sectors) + LE64(4) + LE64(32)
    + [0xF6, 0, 0, 0, 0xF4, 0, 0, 0]
  }

  function Boot(sectors: u64): (b: seq<u8>)
    ensures |b| == 512
  {
    BootFront(sectors) + Zeros(438) + [0x55, 0xAA]
  }

  function Mbr(lba: u32, sectors: u32): (m: seq<u8>)
    ensures |m| == 512
  {
    Zeros(0x1BE) + [0, 0, 0, 0, 7, 0, 0, 0] + LE32(lba) + LE32(sectors) + Zeros(48) + [0x55, 0xAA]
  }

  // ----- bitmaps -----

  /** `x | 1 << b`. */
  function SetBit(x: nat, b: nat): (r: nat)
    ensures forall n: nat | x < Pow2(n) && b < n :: r < Pow2(n)
    decreases b
  {
    if b == 0 then x - x % 2 + 1
    else
      assert forall n: nat | x < Pow2(n) && b < n :: x / 2 < Pow2(n - 1) && b - 1 < n - 1;
      2 * SetBit(x / 2, b - 1) + x % 2
  }

  lemma {:induction false} SetBitBits(x: nat, b: nat, i: nat)
    ensures Bit(SetBit(x, b), i) <==> Bit(x, i) || i == b
    decreases b
  {
    var y := SetBit(x, b);
    if b != 0 && i != 0 {
      SetBitBits(x / 2, b - 1, i - 1);
      assert y / 2 == SetBit(x / 2, b - 1);
    } else if i != 0 {
      assert y / 2 == x / 2;
    }
  }

  /** Exactly the first `count` bits of the bitmap are set. */
  ghost predicate MarksFirst(bitmap: seq<u8>, count: nat)
  {
    forall c: nat | c < 8 * |bitmap| :: Bit(bitmap[c / 8], c % 8) <==> c < count
  }

  /** Marking a number past the end of the bitmap raises. */
  method MarkFirst(bytes: nat, count: nat) returns (r: Option<seq<u8>>)
    ensures r.Some? <==> count <= 8 * bytes
    ensures r.Some? ==> |r.value| == bytes && MarksFirst(r.value, count)
  {
    var bitmap := Zeros(bytes);
    forall c: nat | c < 8 * bytes ensures !Bit(bitmap[c / 8], c % 8) {
      ZeroHasNoBits(c % 8);
    }
    for n := 0 to count
      invariant n <= 8 * bytes && |bitmap| == bytes && MarksFirst(bitmap, n)
    {
      if n / 8 >= bytes {
        return None;
      }
      bitmap := Marked(bitmap, n);
    }
    return Some(bitmap);
  }

  method Marked(bitmap: seq<u8>, n: nat) returns (r: seq<u8>)
    requires n < 8 * |bitmap| && MarksFirst(bitmap, n)
    ensures |r| == |bitmap| && MarksFirst(r, n + 1)
  {
    var was: nat := bitmap[n / 8];
    assert Pow2(8) == 256;
    r := bitmap[n / 8 := SetBit(was, n % 8)];
    forall c: nat | c < 8 * |r| ensures Bit(r[c / 8], c % 8) <==> c < n + 1 {
      if c / 8 == n / 8 {
        SetBitBits(was, n % 8, c % 8);
      }
    }
  }

  // ----- what each record holds -----

  /** The last component of a path. */
  function BaseName(path: seq<u16>): (r: seq<u16>)
    ensures 0x2F !in r && |r| <= |path| && path[|path| - |r|..] == r
    ensures |r| < |path| ==> path[|path| - |r| - 1] == 0x2F
  {
    if path == [] || path[|path| - 1] == 0x2F then []
    else BaseName(path[..|path| - 1]) + [path[|path| - 1]]
  }

  function VolumeOffset(job: Job): (n: int)
  {
    512 * job.partLba
  }

  function VolumeBytes(job: Job): (n: int)
  {
    job.size - VolumeOffset(job)
  }

  function Content(job: Job, i: nat): (c: Option<seq<u8>>)
    requires i < |job.files|
  {
    var f := job.files[i];
    if |f.data| <= 700 then Some(f.data) else job.stub(f.path, |f.data|)
  }

  /** What is stored for each file, when no stub raises. */
  ghost predicate Resolves(job: Job, contents: seq<seq<u8>>)
  {
    |contents| == |job.files| && forall i: nat | i < |contents| :: Content(job, i) == Some(contents[i])
  }

  /** The reference to record `n` with sequence number `n`. */
  function Reference(n: nat): (r: nat)
  {
    n + 0x1_0000_0000_0000 * n
  }

  function RootEntryOf(job: Job, contents: seq<seq<u8>>, i: nat): (e: RootEntry)
    requires i < |contents| == |job.files|
  {
    RootEntry(BaseName(job.files[i].path), Reference(16 + i), false, |contents[i]|, job.clock(5, 2 + i))
  }

  function RootEntries(job: Job, contents: seq<seq<u8>>): (es: seq<RootEntry>)
    requires |contents| == |job.files|
    ensures |es| == |contents|
    ensures forall i: nat | i < |es| :: es[i] == RootEntryOf(job, contents, i)
  {
    seq(|contents|, i requires 0 <= i < |contents| => RootEntryOf(job, contents, i))
  }

  /** Clusters of the MFT when there are `n` files. */
  function MftClusters(n: nat): (c: nat)
    ensures 4 * c >= n + 26
  {
    Max(4, (n + 25) * RECORD / CLUSTER + 1)
  }

  function Max(a: nat, b: nat): (m: nat)
  {
    if a >= b then a else b
  }

  function VolumeBitmapBytes(job: Job): (n: nat)
    requires VolumeBytes(job) >= 0
  {
    (VolumeBytes(job) / CLUSTER + 7) / 8
  }

  function Assembled(no: nat, a: Option<seq<u8>>, b: Option<seq<u8>>, c: Option<seq<u8>>, isDir: bool)
    : (r: Option<seq<u8>>)
    ensures r.Some? ==> |r.value| == RECORD
  {
    if a.None? || b.None? || c.None? then None
    else Record(no, true, RECORD, [a.value, b.value, c.value], isDir)
  }

  const VOLUME_NAME: seq<u16> := [0x24, 0x56, 0x6F, 0x6C, 0x75, 0x6D, 0x65]
  const BITMAP_NAME: seq<u16> := [0x24, 0x42, 0x69, 0x74, 0x6D, 0x61, 0x70]
  const ROOT_NAME: seq<u16> := [0x2E]

  /** Records the formatter fills in; all others are zero. */
  predicate Live(n: nat, files: nat)
  {
    n == 0 || n == 3 || n == 5 || n == 6 || 16 <= n < 16 + files
  }

  function SystemRecord(job: Job, contents: seq<seq<u8>>, n: nat): (r: Option<seq<u8>>)
    requires |contents| == |job.files| && VolumeBytes(job) >= 0 && n in {0, 3, 5, 6}
    ensures r.Some? ==> |r.value| == RECORD
  {
    var info := Some(StandardInformation(job.clock(n, 0)));
    if n == 0 then
      var bytes := MftClusters(|contents|) * CLUSTER;
      Assembled(1, info, NonResident(0x80, MftClusters(|contents|), 4, bytes, bytes),
                NonResident(0xB0, 1, 33, CLUSTER, 16), false)
    else if n == 3 then
      Assembled(3, info, FileName(VOLUME_NAME, false, job.clock(3, 1)), Data(Zeros(8)), false)
    else if n == 5 then
      Assembled(5, info, FileName(ROOT_NAME, true, job.clock(5, 1)), IndexRoot(RootEntries(job, contents)), true)
    else
      Assembled(6, info, FileName(BITMAP_NAME, false, job.clock(6, 1)),
                NonResident(0x80, 1, 34, CLUSTER, VolumeBitmapBytes(job)), false)
  }

  function FileRecord(job: Job, contents: seq<seq<u8>>, i: nat): (r: Option<seq<u8>>)
    requires i < |contents| == |job.files|
    ensures r.Some? ==> |r.value| == RECORD
  {
    Assembled(16 + i, Some(StandardInformation(job.clock(16 + i, 0))),
              FileName(BaseName(job.files[i].path), false, job.clock(16 + i, 1)), Data(contents[i]), false)
  }

  function MftRecord(job: Job, contents: seq<seq<u8>>, n: nat): (r: Option<seq<u8>>)
    requires |contents| == |job.files| && VolumeBytes(job) >= 0 && Live(n, |contents|)
    ensures r.Some? ==> |r.value| == RECORD
  {
    if n < 16 then SystemRecord(job, contents, n) else FileRecord(job, contents, n - 16)
  }

  // ----- building them -----

  method ResolveContents(job: Job) returns (r: Option<seq<seq<u8>>>)
    ensures r.None? ==> exists i: nat | i < |job.files| :: Content(job, i).None?
    ensures r.Some? ==> Resolves(job, r.value)
  {
    var contents := [];
    for i := 0 to |job.files|
      invariant |contents| == i && forall j: nat | j < i :: Content(job, j) == Some(contents[j])
    {
      var c := Content(job, i);
      if c.None? {
        return None;
      }
      contents := contents + [c.value];
    }
    return Some(contents);
  }

  method ListRoot(job: Job, contents: seq<seq<u8>>) returns (es: seq<RootEntry>)
    requires |contents| == |job.files|
    ensures es == RootEntries(job, contents)
  {
    hide RootEntryOf;
    es := [];
    for i := 0 to |contents|
      invariant |es| == i && forall j: nat | j < i :: es[j] == RootEntryOf(job, contents, j)
    {
      es := es + [RootEntryOf(job, contents, i)];
    }
  }

  method Assemble(no: nat, a: Option<seq<u8>>, b: Option<seq<u8>>, c: Option<seq<u8>>, isDir: bool)
    returns (r: Option<seq<u8>>)
    ensures r == Assembled(no, a, b, c, isDir)
  {
    if a.None? || b.None? || c.None? {
      return None;
    }
    r := BuildFileRecord(no, true, RECORD, [a.value, b.value, c.value], isDir);
  }

  method BuildSystemRecord(job: Job, contents: seq<seq<u8>>, n: nat) returns (r: Option<seq<u8>>)
    requires |contents| == |job.files| && VolumeBytes(job) >= 0 && n in {0, 3, 5, 6}
    ensures r == SystemRecord(job, contents, n)
  {
    hide Assembled, StandardInformation, FileName, Data, NonResident, IndexRoot;
    var info := Some(StandardInformation(job.clock(n, 0)));
    if n == 0 {
      var bytes := MftClusters(|contents|) * CLUSTER;
      r := Assemble(1, info, NonResident(0x80, MftClusters(|contents|), 4, bytes, bytes),
                    NonResident(0xB0, 1, 33, CLUSTER, 16), false);
    } else if n == 3 {
      r := Assemble(3, info, FileName(VOLUME_NAME, false, job.clock(3, 1)), Data(Zeros(8)), false);
    } else if n == 5 {
      var entries := ListRoot(job, contents);
      var index := AttrIndexRoot(entries);
      r := Assemble(5, info, FileName(ROOT_NAME, true, job.clock(5, 1)), index, true);
    } else {
      r := Assemble(6, info, FileName(BITMAP_NAME, false, job.clock(6, 1)),
                    NonResident(0x80, 1, 34, CLUSTER, VolumeBitmapBytes(job)), false);
    }
  }

  /** The dictionary of records built so far holds what they should be, for numbers below `upTo`. */
  ghost predicate Holds(job: Job, contents: seq<seq<u8>>, records: map<nat, seq<u8>>, upTo: nat)
    requires |contents| == |job.files| && VolumeBytes(job) >= 0
  {
    forall n: nat :: if n in records then Live(n, |contents|) && MftRecord(job, contents, n) == Some(records[n])
                     else !Live(n, |contents|) || n >= upTo
  }

  ghost predicate AllBuild(job: Job, contents: seq<seq<u8>>)
    requires |contents| == |job.files| && VolumeBytes(job) >= 0
  {
    forall n: nat | Live(n, |contents|) :: MftRecord(job, contents, n).Some?
  }

  method BuildRecords(job: Job, contents: seq<seq<u8>>) returns (r: Option<map<nat, seq<u8>>>)
    requires |contents| == |job.files| && VolumeBytes(job) >= 0
    ensures r.Some? <==> AllBuild(job, contents)
    ensures r.Some? ==> Holds(job, contents, r.value, 16 + |contents|)
  {
    hide SystemRecord, FileRecord;
    var r0 := BuildSystemRecord(job, contents, 0);
    var r3 := BuildSystemRecord(job, contents, 3);
    var r5 := BuildSystemRecord(job, contents, 5);
    var r6 := BuildSystemRecord(job, contents, 6);
    assert r0 == MftRecord(job, contents, 0) && r3 == MftRecord(job, contents, 3);
    assert r5 == MftRecord(job, contents, 5) && r6 == MftRecord(job, contents, 6);
    if r0.None? || r3.None? || r5.None? || r6.None? {
      return None;
    }
    r := BuildFiles(job, contents, map[0 := r0.value, 3 := r3.value, 5 := r5.value, 6 := r6.value]);
  }

  method BuildFile(job: Job, contents: seq<seq<u8>>, i: nat) returns (r: Option<seq<u8>>)
    requires i < |contents| == |job.files| && VolumeBytes(job) >= 0
    ensures r == MftRecord(job, contents, 16 + i)
  {
    hide SystemRecord, Assembled, StandardInformation, FileName, Data;
    r := Assemble(16 + i, Some(StandardInformation(job.clock(16 + i, 0))),
                  FileName(BaseName(job.files[i].path), false, job.clock(16 + i, 1)), Data(contents[i]), false);
  }

  method BuildFiles(job: Job, contents: seq<seq<u8>>, system: map<nat, seq<u8>>)
    returns (r: Option<map<nat, seq<u8>>>)
    requires |contents| == |job.files| && VolumeBytes(job) >= 0
    requires Holds(job, contents, system, 16)
    ensures r.Some? <==> AllBuild(job, contents)
    ensures r.Some? ==> Holds(job, contents, r.value, 16 + |contents|)
  {
    hide MftRecord;
    var records: map<nat, seq<u8>> := system;
    for i := 0 to |contents|
      invariant Holds(job, contents, records, 16 + i)
    {
      var rec := BuildFile(job, contents, i);
      assert Live(16 + i, |contents|);
      if rec.None? {
        return None;
      }
      records := records[16 + i := rec.value];
    }
    forall n: nat | Live(n, |contents|) ensures MftRecord(job, contents, n).Some? {
      assert n in records;
    }
    return Some(records);
  }

  // ----- the MFT as one run of bytes -----

  /** Record `n` as it goes to disk, zero when the formatter does not fill it. */
  function MftSlot(job: Job, contents: seq<seq<u8>>, n: nat): (s: seq<u8>)
    requires |contents| == |job.files| && VolumeBytes(job) >= 0
    requires Live(n, |contents|) ==> MftRecord(job, contents, n).Some?
    ensures |s| == RECORD
  {
    if Live(n, |contents|) then MftRecord(job, contents, n).value else Zeros(RECORD)
  }

  lemma {:induction false} JoinedRecords(slots: seq<seq<u8>>, k: nat, i: nat)
    requires k <= |slots| && forall s | s in slots :: |s| == RECORD
    ensures |Flat(slots, k)| == RECORD * (|slots| - k)
    ensures k <= i < |slots| ==> At(Flat(slots, k), RECORD * (i - k), slots[i])
    decreases |slots| - k
  {
    if k < |slots| {
      JoinedRecords(slots, k + 1, i);
      var rest := Flat(slots, k + 1);
      assert At(slots[k] + rest, 0, slots[k]) && At(slots[k] + rest, RECORD, rest);
      if k < i < |slots| {
        AtSub(slots[k] + rest, RECORD, rest, RECORD * (i - k - 1), slots[i]);
      }
    }
  }

  /** The records in number order, padded to whole clusters. */
  method ListSlots(job: Job, contents: seq<seq<u8>>, records: map<nat, seq<u8>>) returns (slots: seq<seq<u8>>)
    requires |contents| == |job.files| && VolumeBytes(job) >= 0
    requires AllBuild(job, contents) && Holds(job, contents, records, 16 + |contents|)
    ensures |slots| == 4 * MftClusters(|contents|)
    ensures forall n: nat | n < |slots| :: slots[n] == MftSlot(job, contents, n)
  {
    hide MftRecord, MftClusters;
    slots := [];
    for n := 0 to 24 + |contents|
      invariant |slots| == n && forall k: nat | k < n :: slots[k] == MftSlot(job, contents, k)
    {
      slots := slots + [if n in records then records[n] else Zeros(RECORD)];
    }
    while |slots| * RECORD < MftClusters(|contents|) * CLUSTER
      invariant 24 + |contents| <= |slots| <= 4 * MftClusters(|contents|)
      invariant forall k: nat | k < |slots| :: slots[k] == MftSlot(job, contents, k)
      decreases 4 * MftClusters(|contents|) - |slots|
    {
      slots := slots + [Zeros(RECORD)];
    }
  }

  // ----- the image -----

  /** Where the MFT starts. */
  function MftOffset(job: Job): (n: int)
  {
    VolumeOffset(job) + 4 * CLUSTER
  }

  ghost predicate SlotsLaid(job: Job, contents: seq<seq<u8>>, image: seq<u8>, at: int, count: nat)
    requires |contents| == |job.files| && VolumeBytes(job) >= 0 && AllBuild(job, contents)
  {
    forall n: nat | n < count :: At(image, at + RECORD * n, MftSlot(job, contents, n))
  }

  /** A bitmap of one byte per eight numbers, padded to a cluster, with the first `count` bits set. */
  ghost predicate BitmapLaid(image: seq<u8>, at: int, bytes: nat, count: nat)
  {
    In(image, at, Max(bytes, CLUSTER))
    && MarksFirst(image[at..at + bytes], count)
    && forall p | at + bytes <= p < at + CLUSTER :: image[p] == 0
  }

  /** Byte `p` belongs to something the formatter writes. */
  predicate Occupied(job: Job, p: int)
    requires VolumeBytes(job) >= 0
  {
    var at := VolumeOffset(job);
    || (job.partLba > 0 && 0 <= p < 512)
    || at <= p < at + 512
    || at + 6 * 512 <= p < at + 7 * 512
    || at + 4 * CLUSTER <= p < at + (4 + MftClusters(|job.files|)) * CLUSTER
    || at + 32 * CLUSTER <= p < at + 34 * CLUSTER + Max(VolumeBitmapBytes(job), CLUSTER)
  }

  /**
   A finished image: boot sector and its copy, MBR, every MFT record, the mirror of
   the first four, MFT bitmap and volume bitmap, each in its place and whole, and zero
   everywhere else.
   */
  ghost predicate Laid(job: Job, contents: seq<seq<u8>>, image: seq<u8>)
    requires |contents| == |job.files| && VolumeBytes(job) >= 0 && AllBuild(job, contents)
    requires VolumeBytes(job) / 512 < TWO64 && 0 <= job.partLba < TWO32
    requires job.partLba > 0 ==> 0 <= job.size / 512 - job.partLba < TWO32
  {
    var at := VolumeOffset(job);
    |image| == job.size
    && At(image, at, Boot(VolumeBytes(job) / 512)) && At(image, at + 6 * 512, Boot(VolumeBytes(job) / 512))
    && (job.partLba > 0 ==> At(image, 0, Mbr(job.partLba, job.size / 512 - job.partLba)))
    && SlotsLaid(job, contents, image, MftOffset(job), 4 * MftClusters(|contents|))
    && SlotsLaid(job, contents, image, at + 32 * CLUSTER, 4)
    && BitmapLaid(image, at + 33 * CLUSTER, 16, 16 + |contents|)
    && BitmapLaid(image, at + 34 * CLUSTER, VolumeBitmapBytes(job), 35)
    && forall p | 0 <= p < |image| && !Occupied(job, p) :: image[p] == 0
  }

  lemma EntryAtLeast(e: RootEntry)
    requires Packs(e)
    ensures |EntryBytes(e)| >= 88
  {
    hide EntryHead, UnitBytes;
  }

  lemma {:induction false} EntriesLength(es: seq<RootEntry>, k: nat)
    requires forall e | e in es :: Packs(e)
    requires k <= |es|
    ensures |EntriesFrom(es, k)| >= 88 * (|es| - k)
    decreases |es| - k
  {
    hide EntryBytes, Packs, RoundUp8;
    if k < |es| {
      assert es[k] in es;
      EntryAtLeast(es[k]);
      EntriesLength(es, k + 1);
    }
  }

  lemma Flat3(a: seq<u8>, b: seq<u8>, c: seq<u8>)
    ensures Flat([a, b, c], 0) == a + b + c
  {
    var l := [a, b, c];
    assert Flat(l, 3) == [];
    assert Flat(l, 2) == c + [];
    assert Flat(l, 1) == b + Flat(l, 2);
  }

  /** The root record has room for at most eight index entries, so for at most eight files. */
  lemma FewFiles(job: Job, contents: seq<seq<u8>>)
    requires |contents| == |job.files| && VolumeBytes(job) >= 0
    requires MftRecord(job, contents, 5).Some?
    ensures |contents| <= 8
    ensures forall e | e in RootEntries(job, contents) :: Packs(e)
  {
    hide Record, StandardInformation, FileName, EntriesFrom, RootHead;
    var es := RootEntries(job, contents);
    var a, b, c := StandardInformation(job.clock(5, 0)), FileName(ROOT_NAME, true, job.clock(5, 1)), IndexRoot(es);
    assert Assembled(5, Some(a), b, c, true).Some?;
    assert Record(5, true, RECORD, [a, b.value, c.value], true).Some?;
    RecordFits(5, true, RECORD, [a, b.value, c.value], true);
    Flat3(a, b.value, c.value);
    EntriesLength(es, 0);
  }

  lemma RecordFits(seqNo: nat, inUse: bool, realSize: nat, attrs: seq<seq<u8>>, isDir: bool)
    requires Record(seqNo, inUse, realSize, attrs, isDir).Some?
    ensures 0x38 + |Flat(attrs, 0)| + 4 <= RECORD
  {
  }

  // ----- writing -----

  /** `t` differs from `s` only in the `n` bytes at `off`. */
  ghost predicate OnlyAt(s: seq<u8>, t: seq<u8>, off: int, n: nat)
  {
    |s| == |t| && forall p | 0 <= p < |s| && !(off <= p < off + n) :: s[p] == t[p]
  }

  /** Seek and write, inside the file. */
  method WriteAt(image: seq<u8>, off: nat, d: seq<u8>) returns (r: seq<u8>)
    requires In(image, off, |d|)
    ensures At(r, off, d) && OnlyAt(image, r, off, |d|)
  {
    r := Put(image, off, d);
  }

  /** A region survives a write that does not touch it. */
  lemma Survives(s: seq<u8>, t: seq<u8>, off: int, n: nat, at: int, d: seq<u8>)
    requires OnlyAt(s, t, off, n) && At(s, at, d)
    requires at + |d| <= off || off + n <= at
    ensures At(t, at, d)
  {
  }

  lemma PrefixSurvives(s: seq<u8>, t: seq<u8>, n: nat, at: int, d: seq<u8>)
    requires n <= |s| && n <= |t| && s[..n] == t[..n]
    requires At(s, at, d) && at + |d| <= n
    ensures At(t, at, d)
  {
    forall i | 0 <= i < |d| ensures t[at + i] == d[i] {
      AtByte(s, at, d, i);
      assert t[at + i] == t[..n][at + i];
    }
  }

  /** Boot sector, its copy six sectors on, and the MBR of a partitioned disk. */
  method WriteBoot(job: Job) returns (image: seq<u8>)
    requires 0 <= job.partLba < TWO32 && VolumeBytes(job) >= 0x80_0000 && VolumeBytes(job) / 512 < TWO64
    requires job.partLba > 0 ==> 0 <= job.size / 512 - job.partLba < TWO32
    ensures |image| == job.size
    ensures At(image, VolumeOffset(job), Boot(VolumeBytes(job) / 512))
    ensures At(image, VolumeOffset(job) + 6 * 512, Boot(VolumeBytes(job) / 512))
    ensures job.partLba > 0 ==> At(image, 0, Mbr(job.partLba, job.size / 512 - job.partLba))
    ensures forall p | 0 <= p < |image| && !Occupied(job, p) :: image[p] == 0
  {
    hide At, Boot, Mbr, MftClusters, VolumeBitmapBytes, Max;
    var at, boot := VolumeOffset(job), Boot(VolumeBytes(job) / 512);
    image := Zeros(job.size);
    image := WriteAt(image, at, boot);
    ghost var i1 := image;
    image := WriteAt(image, at + 6 * 512, boot);
    ghost var i2 := image;
    Survives(i1, i2, at + 6 * 512, 512, at, boot);
    if job.partLba > 0 {
      image := WriteAt(image, 0, Mbr(job.partLba, job.size / 512 - job.partLba));
      Survives(i2, image, 0, 512, at, boot);
      Survives(i2, image, 0, 512, at + 6 * 512, boot);
    }
  }

  /** MFT, mirror and the two bitmaps: four writes that leave each other and the boot area alone. */
  method WriteTables(image: seq<u8>, at: nat, mft: seq<u8>, marks: seq<u8>, used: seq<u8>) returns (r: seq<u8>)
    requires CLUSTER <= |mft| <= 28 * CLUSTER && |marks| == CLUSTER
    requires at + 34 * CLUSTER + |used| <= |image|
    ensures At(r, at + 4 * CLUSTER, mft) && At(r, at + 32 * CLUSTER, mft[..CLUSTER])
    ensures At(r, at + 33 * CLUSTER, marks) && At(r, at + 34 * CLUSTER, used)
    ensures |r| == |image| && r[..at + 4 * CLUSTER] == image[..at + 4 * CLUSTER]
    ensures forall p | 0 <= p < |image| && !(at + 4 * CLUSTER <= p < at + 4 * CLUSTER + |mft|)
              && !(at + 32 * CLUSTER <= p < at + 34 * CLUSTER + |used|) :: r[p] == image[p]
  {
    hide At;
    var mirror := mft[..CLUSTER];
    var i1 := WriteAt(image, at + 4 * CLUSTER, mft);
    var i2 := WriteAt(i1, at + 32 * CLUSTER, mirror);
    Survives(i1, i2, at + 32 * CLUSTER, |mirror|, at + 4 * CLUSTER, mft);
    var i3 := WriteAt(i2, at + 33 * CLUSTER, marks);
    Survives(i2, i3, at + 33 * CLUSTER, |marks|, at + 4 * CLUSTER, mft);
    Survives(i2, i3, at + 33 * CLUSTER, |marks|, at + 32 * CLUSTER, mirror);
    r := WriteAt(i3, at + 34 * CLUSTER, used);
    Survives(i3, r, at + 34 * CLUSTER, |used|, at + 4 * CLUSTER, mft);
    Survives(i3, r, at + 34 * CLUSTER, |used|, at + 32 * CLUSTER, mirror);
    Survives(i3, r, at + 34 * CLUSTER, |used|, at + 33 * CLUSTER, marks);
  }

  function Padded(b: seq<u8>): (r: seq<u8>)
    ensures |r| == Max(|b|, CLUSTER)
  {
    b + Zeros(Max(|b|, CLUSTER) - |b|)
  }

  lemma PaddedLaid(image: seq<u8>, at: int, b: seq<u8>, count: nat)
    requires At(image, at, Padded(b)) && MarksFirst(b, count)
    ensures BitmapLaid(image, at, |b|, count)
  {
    AtSlice(image, at, Padded(b), 0, |b|);
    assert Padded(b)[0..|b|] == b;
    forall p | at + |b| <= p < at + CLUSTER ensures image[p] == 0 {
      AtByte(image, at, Padded(b), p - at);
    }
  }

  lemma AtInPrefix(f: seq<u8>, m: nat, off: nat, s: seq<u8>)
    requires At(f, off, s) && off + |s| <= m <= |f|
    ensures At(f[..m], off, s)
  {
    assert f[..m][off..off + |s|] == f[off..off + |s|];
  }

  lemma SlotsAt(job: Job, contents: seq<seq<u8>>, image: seq<u8>, at: int, slots: seq<seq<u8>>, count: nat)
    requires |contents| == |job.files| && VolumeBytes(job) >= 0 && AllBuild(job, contents)
    requires count <= |slots| && forall n: nat | n < |slots| :: slots[n] == MftSlot(job, contents, n)
    requires |Flat(slots, 0)| >= RECORD * count && At(image, at, Flat(slots, 0)[..RECORD * count])
    ensures SlotsLaid(job, contents, image, at, count)
  {
    hide MftSlot, Flat, At;
    var part := Flat(slots, 0)[..RECORD * count];
    forall n: nat | n < count ensures At(image, at + RECORD * n, MftSlot(job, contents, n)) {
      JoinedRecords(slots, 0, n);
      var s := slots[n];
      AtInPrefix(Flat(slots, 0), RECORD * count, RECORD * n, s);
      AtSub(image, at, part, RECORD * n, s);
    }
  }

  ghost function Stored(job: Job): (contents: seq<seq<u8>>)
    ensures |contents| == |job.files|
  {
    seq(|job.files|, i requires 0 <= i < |job.files| =>
      match Content(job, i) case Some(c) => c case None => [])
  }

  /** The calls that do not raise. */
  ghost predicate Accepts(job: Job)
  {
    0 <= job.partLba < TWO32 && VolumeBytes(job) >= 0x80_0000 && VolumeBytes(job) / 512 < TWO64
    && (job.partLba > 0 ==> job.size / 512 - job.partLba < TWO32)
    && (forall i: nat | i < |job.files| :: Content(job, i).Some?)
    && AllBuild(job, Stored(job))
  }

  method FormatMinimalNtfs(job: Job) returns (r: Option<seq<u8>>)
    ensures r.Some? <==> Accepts(job)
    ensures r.Some? ==> Laid(job, Stored(job), r.value)
  {
    hide At, MftRecord, Boot, Mbr, Flat, MarksFirst, SlotsLaid, BitmapLaid, MftClusters, Content;
    if job.partLba < 0 || job.partLba >= TWO32 || VolumeBytes(job) < 0x80_0000 || VolumeBytes(job) / 512 >= TWO64
       || (job.partLba > 0 && job.size / 512 - job.partLba >= TWO32) {
      return None;
    }
    var resolved := ResolveContents(job);
    if resolved.None? {
      return None;
    }
    var contents := resolved.value;
    assert contents == Stored(job);
    var image := WriteBoot(job);
    var records := BuildRecords(job, contents);
    if records.None? {
      return None;
    }
    assert Live(5, |contents|);
    FewFiles(job, contents);
    var slots := ListSlots(job, contents, records.value);
    var whole := WriteSlots(job, contents, image, slots);
    ghost var at, boot := VolumeOffset(job), Boot(VolumeBytes(job) / 512);
    PrefixSurvives(image, whole, MftOffset(job), at, boot);
    PrefixSurvives(image, whole, MftOffset(job), at + 6 * 512, boot);
    if job.partLba > 0 {
      PrefixSurvives(image, whole, MftOffset(job), 0, Mbr(job.partLba, job.size / 512 - job.partLba));
    }
    return Some(whole);
  }

  method WriteSlots(job: Job, contents: seq<seq<u8>>, image: seq<u8>, slots: seq<seq<u8>>) returns (r: seq<u8>)
    requires |contents| == |job.files| <= 8 && VolumeBytes(job) >= 0x80_0000 && AllBuild(job, contents)
    requires job.partLba >= 0 && |image| == job.size && |slots| == 4 * MftClusters(|contents|)
    requires forall n: nat | n < |slots| :: slots[n] == MftSlot(job, contents, n)
    ensures |r| == job.size && r[..MftOffset(job)] == image[..MftOffset(job)]
    ensures SlotsLaid(job, contents, r, MftOffset(job), 4 * MftClusters(|contents|))
    ensures SlotsLaid(job, contents, r, VolumeOffset(job) + 32 * CLUSTER, 4)
    ensures BitmapLaid(r, VolumeOffset(job) + 33 * CLUSTER, 16, 16 + |contents|)
    ensures BitmapLaid(r, VolumeOffset(job) + 34 * CLUSTER, VolumeBitmapBytes(job), 35)
    ensures forall p | 0 <= p < |r| && !Occupied(job, p) :: r[p] == image[p]
  {
    hide At, MftRecord, MftSlot, Flat, MarksFirst, Padded, SlotsLaid, BitmapLaid;
    var at := VolumeOffset(job);
    var mft := Flat(slots, 0);
    JoinedRecords(slots, 0, 0);
    var live := MarkFirst(16, 16 + |contents|);
    var total := VolumeBytes(job) / CLUSTER;
    var used := MarkFirst(VolumeBitmapBytes(job), if total < 35 then total else 35);
    r := WriteTables(image, at, mft, Padded(live.value), Padded(used.value));
    PaddedLaid(r, at + 33 * CLUSTER, live.value, 16 + |contents|);
    PaddedLaid(r, at + 34 * CLUSTER, used.value, 35);
    assert mft[..RECORD * |slots|] == mft;
    SlotsAt(job, contents, r, at + 4 * CLUSTER, slots, |slots|);
    SlotsAt(job, contents, r, at + 32 * CLUSTER, slots, 4);
  }
}
