/**
 The oracle's NTFS reader, from an image down to the bytes of a root file, and the
 theorem that it inverts the formatter. Names are UTF-16LE byte strings; `upper`
 is the case mapping of the host, an arbitrary function.
 */
module NtfsExtract {
  import opened Words
  import opened NtfsRecord
  import opened NtfsIndex
  import opened NtfsFormat

  // ----- finding the volume -----

  predicate IsBoot(raw: seq<u8>, off: nat)
  {
    off + 512 <= |raw| && Slice(raw, off + 3, off + 11) == OEM
  }

  /** The first of the partition entries from `k` on that leads to an NTFS boot sector. */
  function BootFrom(raw: seq<u8>, k: nat): (r: Option<nat>)
    requires |raw| >= 512
    decreases 4 - k
  {
    if k >= 4 then None
    else
      var lba: nat := U32(raw, 0x1BE + 16 * k + 8);
      if lba != 0 && IsBoot(raw, lba * 512) then Some(lba * 512) else BootFrom(raw, k + 1)
  }

  function BootOffset(raw: seq<u8>): (r: Option<nat>)
  {
    if |raw| < 512 then None
    else if raw[3..11] == OEM then Some(0)
    else if raw[510..512] != [0x55, 0xAA] then None
    else BootFrom(raw, 0)
  }

  method FindNtfsBootOffset(raw: seq<u8>) returns (r: Option<nat>)
    ensures r == BootOffset(raw)
  {
    if |raw| < 512 {
      return None;
    }
    if raw[3..11] == OEM {
      return Some(0);
    }
    if raw[510..512] != [0x55, 0xAA] {
      return None;
    }
    r := FollowPartitions(raw);
  }

  method FollowPartitions(raw: seq<u8>) returns (r: Option<nat>)
    requires |raw| >= 512
    ensures r == BootFrom(raw, 0)
  {
    hide U32, IsBoot;
    for k := 0 to 4
      invariant BootFrom(raw, 0) == BootFrom(raw, k)
    {
      var lba: nat := U32(raw, 0x1BE + 16 * k + 8);
      if lba != 0 && IsBoot(raw, lba * 512) {
        return Some(lba * 512);
      }
    }
    return None;
  }

  datatype Volume = Volume(bootOffset: nat, bytesPerSector: nat, sectorsPerCluster: nat, clusterSize: nat,
                           mftLcn: nat, mirrorLcn: nat, recordSize: nat)

  function ParsedBoot(raw: seq<u8>, off: nat): (r: Option<Volume>)
  {
    var boot := Slice(raw, off, off + 512);
    if Slice(boot, 3, 11) != OEM || |boot| < 0x41 then None
    else
      var bps: nat, spc: nat, perRecord: nat := U16(boot, 11), boot[13], boot[0x40];
      Some(Volume(off, bps, spc, Times(bps, spc), U64(boot, 0x30), U64(boot, 0x38),
                  RecordSize(perRecord, Times(bps, spc))))
  }

  /** Clusters per record, or minus the power of two, as a signed byte. */
  function RecordSize(perRecord: u8, cluster: nat): (n: nat)
  {
    if perRecord < 128 then Times(perRecord, cluster) else Pow2(256 - perRecord)
  }

  /** A fixed-up MFT record, when it lies inside the image. */
  function ReadRecord(raw: seq<u8>, vol: Volume, n: nat): (r: Option<Fixed>)
  {
    var off := vol.bootOffset + vol.mftLcn * vol.clusterSize + n * vol.recordSize;
    if off + vol.recordSize > |raw| then None
    else Fixup(raw[off..off + vol.recordSize], vol.bytesPerSector)
  }

  // ----- finding a file -----

  predicate IsI30(a: Attribute)
  {
    a.kind == 0x90 && a.name == I30 && !a.nonResident
  }

  function IndexValue(attrs: seq<Attribute>, k: nat): (r: Option<seq<u8>>)
    decreases |attrs| - k
  {
    if k >= |attrs| then None else if IsI30(attrs[k]) then Some(attrs[k].value) else IndexValue(attrs, k + 1)
  }

  method FindIndexRootI30(attrs: seq<Attribute>) returns (r: Option<seq<u8>>)
    ensures r == IndexValue(attrs, 0)
  {
    for k := 0 to |attrs|
      invariant IndexValue(attrs, 0) == IndexValue(attrs, k)
    {
      if IsI30(attrs[k]) {
        return Some(attrs[k].value);
      }
    }
    return None;
  }

  type Upper = seq<u8> -> seq<u8>

  function EntryNamed(es: seq<Entry>, name: seq<u8>, upper: Upper, k: nat): (r: Option<Entry>)
    decreases |es| - k
  {
    if k >= |es| then None
    else if upper(es[k].name) == upper(name) then Some(es[k])
    else EntryNamed(es, name, upper, k + 1)
  }

  /** The entry of the root index with this name; `None` for every way the search raises. */
  function FoundEntry(raw: seq<u8>, vol: Volume, name: seq<u8>, upper: Upper): (r: Option<Entry>)
  {
    var rec := ReadRecord(raw, vol, 5);
    if rec.None? then None
    else
      var attrs := Attributes(rec.value.logical);
      if attrs.None? then None
      else
        var value := IndexValue(attrs.value, 0);
        if value.None? then None
        else
          var entries := Parsed(value.value);
          if entries.None? then None else EntryNamed(entries.value, name, upper, 0)
  }

  method FindIndexEntryByName(raw: seq<u8>, vol: Volume, name: seq<u8>, upper: Upper) returns (r: Option<Entry>)
    ensures r == FoundEntry(raw, vol, name, upper)
  {
    var rec := ReadMftRecord(raw, vol, 5);
    if rec.None? {
      return None;
    }
    var attrs := IterAttributes(rec.value.logical);
    if attrs.None? {
      return None;
    }
    var value := FindIndexRootI30(attrs.value);
    if value.None? {
      return None;
    }
    var entries := ParseIndexEntries(value.value);
    if entries.None? {
      return None;
    }
    r := MatchName(entries.value, name, upper);
  }

  method MatchName(es: seq<Entry>, name: seq<u8>, upper: Upper) returns (r: Option<Entry>)
    ensures r == EntryNamed(es, name, upper, 0)
  {
    var key := upper(name);
    for k := 0 to |es|
      invariant EntryNamed(es, name, upper, 0) == EntryNamed(es, name, upper, k)
    {
      if upper(es[k].name) == key {
        return Some(es[k]);
      }
    }
    return None;
  }

  method ReadMftRecord(raw: seq<u8>, vol: Volume, n: nat) returns (r: Option<Fixed>)
    ensures r == ReadRecord(raw, vol, n)
  {
    hide Fixup;
    var off := vol.bootOffset + vol.mftLcn * vol.clusterSize + n * vol.recordSize;
    if off + vol.recordSize > |raw| {
      return None;
    }
    r := ApplyUsaFixup(raw[off..off + vol.recordSize], vol.bytesPerSector);
  }

  function FirstData(attrs: seq<Attribute>, k: nat, limit: nat): (r: Option<seq<u8>>)
    decreases |attrs| - k
  {
    if k >= |attrs| then None
    else if attrs[k].kind == 0x80 && !attrs[k].nonResident then Some(Slice(attrs[k].value, 0, limit))
    else FirstData(attrs, k + 1, limit)
  }

  /** The bytes of a root file, as the reader extracts them. */
  function Extracted(raw: seq<u8>, name: seq<u8>, upper: Upper, limit: nat): (r: Option<seq<u8>>)
  {
    var off := BootOffset(raw);
    if off.None? then None
    else
      var vol := ParsedBoot(raw, off.value);
      if vol.None? then None
      else
        var e := FoundEntry(raw, vol.value, name, upper);
        if e.None? then None else ExtractedFrom(raw, vol.value, RecordOf(e.value), limit)
  }

  function ExtractedFrom(raw: seq<u8>, vol: Volume, n: nat, limit: nat): (r: Option<seq<u8>>)
  {
    var rec := ReadRecord(raw, vol, n);
    if rec.None? then None
    else
      var attrs := Attributes(rec.value.logical);
      if attrs.None? then None else FirstData(attrs.value, 0, limit)
  }

  method ExtractNtfsRootFile(raw: seq<u8>, name: seq<u8>, upper: Upper, limit: nat) returns (r: Option<seq<u8>>)
    ensures r == Extracted(raw, name, upper, limit)
  {
    hide BootOffset, ParsedBoot, FoundEntry;
    var off := FindNtfsBootOffset(raw);
    if off.None? {
      return None;
    }
    var vol := ParsedBoot(raw, off.value);
    if vol.None? {
      return None;
    }
    var e := FindIndexEntryByName(raw, vol.value, name, upper);
    if e.None? {
      return None;
    }
    var rec := ReadMftRecord(raw, vol.value, RecordOf(e.value));
    if rec.None? {
      return None;
    }
    var attrs := IterAttributes(rec.value.logical);
    if attrs.None? {
      return None;
    }
    for k := 0 to |attrs.value|
      invariant Extracted(raw, name, upper, limit) == FirstData(attrs.value, k, limit)
    {
      var a := attrs.value[k];
      if a.kind == 0x80 && !a.nonResident {
        return Some(Slice(a.value, 0, limit));
      }
    }
    return None;
  }

  // ----- the volume of a finished image -----

  lemma FrontFields(sectors: u64)
    ensures var f := BootFront(sectors);
            f[3..11] == OEM && U16(f, 11) == 512 && f[13] == 8 && U64(f, 0x30) == 4 && U64(f, 0x38) == 32
            && f[0x40] == 0xF6
  {
    hide U64;
    var f := BootFront(sectors);
    LE64RoundTrip(4);
    LE64RoundTrip(32);
    LE16RoundTrip(512);
    assert At(f, 11, LE16(512)) && At(f, 0x30, LE64(4)) && At(f, 0x38, LE64(32));
    AtFields(f, 11, LE16(512), 0);
    U64At(f, 0x30, LE64(4), 0);
    U64At(f, 0x38, LE64(32), 0);
  }

  lemma BootFields(sectors: u64)
    ensures var b := Boot(sectors);
            b[3..11] == OEM && U16(b, 11) == 512 && b[13] == 8 && U64(b, 0x30) == 4 && U64(b, 0x38) == 32
            && b[0x40] == 0xF6
  {
    var b, f := Boot(sectors), BootFront(sectors);
    assert At(b, 0, f);
    hide Boot, BootFront, At, U16, U64;
    FrontFields(sectors);
    AtSlice(b, 0, f, 3, 11);
    AtFields(b, 0, f, 11);
    AtByte(b, 0, f, 13);
    AtByte(b, 0, f, 0x40);
    U64At(b, 0, f, 0x30);
    U64At(b, 0, f, 0x38);
  }

  lemma MbrFields(lba: u32, sectors: u32)
    ensures var m := Mbr(lba, sectors);
            m[3..11] != OEM && m[510..512] == [0x55, 0xAA] && U32(m, 0x1C6) == lba
  {
    var m := Mbr(lba, sectors);
    LE32RoundTrip(lba);
    assert m[3..11][0] == 0;
    assert At(m, 0x1C6, LE32(lba));
    AtFields(m, 0x1C6, LE32(lba), 0);
  }

  /** The volume every finished image describes. */
  function VolumeOf(job: Job): (v: Volume)
    requires job.partLba >= 0
  {
    Volume(VolumeOffset(job), 512, 8, CLUSTER, 4, 32, RECORD)
  }

  lemma BootParses(raw: seq<u8>, off: nat, sectors: u64)
    requires At(raw, off, Boot(sectors))
    ensures IsBoot(raw, off)
    ensures ParsedBoot(raw, off) == Some(Volume(off, 512, 8, CLUSTER, 4, 32, RECORD))
  {
    hide Boot, U16, U64;
    BootFields(sectors);
    var b := Boot(sectors);
    AtSlice(raw, off, b, 3, 11);
    assert Slice(raw, off, off + 512) == b;
    assert Pow2(10) == 1024;
  }

  /** A finished image of an accepted call. */
  ghost predicate Finished(job: Job, image: seq<u8>)
  {
    Accepts(job) && Laid(job, Stored(job), image)
  }

  lemma BootFound(job: Job, image: seq<u8>)
    requires Finished(job, image)
    ensures job.partLba >= 0
    ensures BootOffset(image) == Some(VolumeOffset(job))
    ensures ParsedBoot(image, VolumeOffset(job)) == Some(VolumeOf(job))
  {
    hide Boot, Mbr, ParsedBoot, SlotsLaid, BitmapLaid, AllBuild, BootOffset;
    var at := VolumeOffset(job);
    BootParses(image, at, VolumeBytes(job) / 512);
    if job.partLba > 0 {
      MbrLeads(image, job.partLba, job.size / 512 - job.partLba);
    } else {
      BootAtStart(image);
    }
  }

  lemma BootAtStart(image: seq<u8>)
    requires IsBoot(image, 0)
    ensures BootOffset(image) == Some(0)
  {
  }

  lemma MbrLeads(image: seq<u8>, lba: u32, sectors: u32)
    requires lba > 0 && At(image, 0, Mbr(lba, sectors)) && IsBoot(image, lba * 512)
    ensures BootOffset(image) == Some(lba * 512)
  {
    hide Mbr, IsBoot, U32;
    var m := Mbr(lba, sectors);
    MbrFields(lba, sectors);
    AtSlice(image, 0, m, 3, 11);
    AtSlice(image, 0, m, 510, 512);
    AtFields(image, 0, m, 0x1C6);
    assert BootFrom(image, 0) == Some(lba * 512);
  }

  // ----- the records of a finished image -----

  lemma SlotRead(job: Job, image: seq<u8>, n: nat)
    requires Finished(job, image) && Live(n, |job.files|)
    ensures MftRecord(job, Stored(job), n).Some?
    ensures ReadRecord(image, VolumeOf(job), n) == Fixup(MftRecord(job, Stored(job), n).value, 512)
  {
    hide MftRecord, Boot, Mbr, BitmapLaid, Fixup;
    var contents := Stored(job);
    var rec := MftRecord(job, contents, n).value;
    assert n < 4 * MftClusters(|contents|);
    assert MftSlot(job, contents, n) == rec;
    assert At(image, MftOffset(job) + RECORD * n, rec);
  }

  lemma UnnamedReads(kind: u32, value: seq<u8>)
    requires kind != END && kind != 0 && |value| < 0x1_0000
    ensures Sound(Unnamed(kind, value))
    ensures AttributeAt(Unnamed(kind, value), 0) == Attribute(kind, 24 + |value|, false, [], value, 0)
  {
    hide ResidentHead, Sound, AttributeAt;
    ResidentReadsBack(kind, [], [], value);
  }

  lemma IndexAttribute(es: seq<RootEntry>)
    requires Buildable(es)
    ensures var a := IndexRoot(es).value;
            Sound(a) && AttributeAt(a, 0) == Attribute(0x90, |a|, false, I30, RootValue(es), 0)
  {
    hide ResidentHead, Sound, AttributeAt, EntriesFrom, ValueHead;
    var a := IndexRoot(es).value;
    var used := 0x60 + |EntriesFrom(es, 0)|;
    var value := RootValue(es);
    ResidentReadsBack(0x90, I30, Zeros(16), value);
    assert a == ResidentHead(0x90, used, 4, 0x18, used - 0x30, 0x30) + I30 + Zeros(16) + value;
  }

  lemma ListedThree(a: seq<u8>, b: seq<u8>, c: seq<u8>)
    requires |a| >= 24 && |b| >= 24 && |c| >= 24
    ensures Listed([a, b, c], 0, 0x38)
            == [AttributeAt(a, 0).(offset := 0x38), AttributeAt(b, 0).(offset := 0x38 + |a|),
                AttributeAt(c, 0).(offset := 0x38 + |a| + |b|)]
  {
    hide AttributeAt;
    var l := [a, b, c];
    assert Listed(l, 3, 0x38 + |a| + |b| + |c|) == [];
    assert Listed(l, 2, 0x38 + |a| + |b|) == [AttributeAt(c, 0).(offset := 0x38 + |a| + |b|)];
    assert Listed(l, 1, 0x38 + |a|) == [AttributeAt(b, 0).(offset := 0x38 + |a|)] + Listed(l, 2, 0x38 + |a| + |b|);
  }

  /** A record of three sound attributes lists them when read back. */
  lemma AssembledReads(no: nat, a: seq<u8>, b: seq<u8>, c: seq<u8>, isDir: bool)
    requires Sound(a) && Sound(b) && Sound(c)
    requires Assembled(no, Some(a), Some(b), Some(c), isDir).Some?
    ensures var f := Fixup(Assembled(no, Some(a), Some(b), Some(c), isDir).value, 512);
            f.Some? && f.value.valid
            && Attributes(f.value.logical) == Some(Listed([a, b, c], 0, 0x38))
  {
    hide Record, Fixup, Attributes, Listed, Sound;
    RecordReadsBack(no, true, RECORD, [a, b, c], isDir);
  }

  /** The base name of file `k`, as the index stores it. */
  function StoredName(job: Job, k: nat): (n: seq<u8>)
    requires k < |job.files|
  {
    UnitBytes(BaseName(job.files[k].path))
  }

  /** The first file, from the `k`-th on, whose base name equals `name` under `upper`. */
  ghost function FirstFile(job: Job, name: seq<u8>, upper: Upper, k: nat): (r: Option<nat>)
    ensures r.Some? ==> k <= r.value < |job.files|
    decreases |job.files| - k
  {
    if k >= |job.files| then None
    else if upper(StoredName(job, k)) == upper(name) then Some(k)
    else FirstFile(job, name, upper, k + 1)
  }

  lemma DataThird(x: Attribute, y: Attribute, z: Attribute)
    requires x.kind != 0x80 && y.kind != 0x80 && z.kind == 0x80 && !z.nonResident && |z.value| <= 4096
    ensures FirstData([x, y, z], 0, 4096) == Some(z.value)
  {
    var l := [x, y, z];
    assert z.value[0..|z.value|] == z.value;
    assert FirstData(l, 2, 4096) == Some(z.value);
    assert FirstData(l, 1, 4096) == FirstData(l, 2, 4096);
  }

  lemma FileListed(name: seq<u16>, data: seq<u8>, t0: Time, t1: Time)
    requires |name| <= 255 && |data| <= 700
    ensures var a, b, c := StandardInformation(t0), FileName(name, false, t1).value, Data(data).value;
            Sound(a) && Sound(b) && Sound(c) && FirstData(Listed([a, b, c], 0, 0x38), 0, 4096) == Some(data)
  {
    hide AttributeAt, Unnamed, Listed, FirstData, StandardInformation;
    var a, b, c := StandardInformation(t0), FileName(name, false, t1).value, Data(data).value;
    FileAttributes(name, data, t0, t1);
    ListedThree(a, b, c);
    DataThird(AttributeAt(a, 0).(offset := 0x38), AttributeAt(b, 0).(offset := 0x38 + |a|),
              AttributeAt(c, 0).(offset := 0x38 + |a| + |b|));
  }

  lemma FileRecordReads(job: Job, contents: seq<seq<u8>>, i: nat)
    requires i < |contents| == |job.files| && FileRecord(job, contents, i).Some?
    ensures var f := Fixup(FileRecord(job, contents, i).value, 512);
            f.Some? && f.value.valid && Attributes(f.value.logical).Some?
            && FirstData(Attributes(f.value.logical).value, 0, 4096) == Some(contents[i])
  {
    hide Fixup, Attributes, Sound, Unnamed, Listed, FirstData, StandardInformation, Record;
    var t0, t1 := job.clock(16 + i, 0), job.clock(16 + i, 1);
    var name := BaseName(job.files[i].path);
    var a, b, c := StandardInformation(t0), FileName(name, false, t1), Data(contents[i]);
    assert FileRecord(job, contents, i) == Assembled(16 + i, Some(a), b, c, false);
    FileListed(name, contents[i], t0, t1);
    AssembledReads(16 + i, a, b.value, c.value, false);
  }

  lemma FileRead(job: Job, image: seq<u8>, i: nat)
    requires Finished(job, image) && i < |job.files|
    ensures ExtractedFrom(image, VolumeOf(job), 16 + i, 4096) == Some(Stored(job)[i])
  {
    hide Fixup, Attributes, Laid, AllBuild, ReadRecord, FileRecord, FirstData;
    assert Live(16 + i, |job.files|);
    SlotRead(job, image, 16 + i);
    assert MftRecord(job, Stored(job), 16 + i) == FileRecord(job, Stored(job), i);
    FileRecordReads(job, Stored(job), i);
  }

  /** The three attributes of a file record: no data attribute before the data. */
  lemma FileAttributes(name: seq<u16>, data: seq<u8>, t0: Time, t1: Time)
    requires |name| <= 255 && |data| <= 700
    ensures var a, b, c := StandardInformation(t0), FileName(name, false, t1).value, Data(data).value;
            Sound(a) && Sound(b) && Sound(c)
            && AttributeAt(a, 0).kind == 0x10 && AttributeAt(b, 0).kind == 0x30
            && AttributeAt(c, 0) == Attribute(0x80, 24 + |data|, false, [], data, 0)
  {
    hide Sound, AttributeAt, Unnamed, FileNameValue;
    UnnamedReads(0x10, LE64(t0) + LE64(t0 + 1) + LE64(t0 + 2) + LE64(t0 + 3) + LE32(0x20) + Zeros(12));
    UnnamedReads(0x30, FileNameValue(name, false, t1));
    UnnamedReads(0x80, data);
  }

  // ----- the root directory of a finished image -----

  lemma RootListed(es: seq<RootEntry>, t0: Time, t1: Time)
    requires Buildable(es)
    ensures var a, b, c := StandardInformation(t0), FileName(ROOT_NAME, true, t1).value, IndexRoot(es).value;
            Sound(a) && Sound(b) && Sound(c) && IndexValue(Listed([a, b, c], 0, 0x38), 0) == Some(RootValue(es))
  {
    hide AttributeAt, Unnamed, Listed, FileNameValue, RootHead, EntriesFrom, RootValue;
    var a, b, c := StandardInformation(t0), FileName(ROOT_NAME, true, t1).value, IndexRoot(es).value;
    UnnamedReads(0x10, LE64(t0) + LE64(t0 + 1) + LE64(t0 + 2) + LE64(t0 + 3) + LE32(0x20) + Zeros(12));
    UnnamedReads(0x30, FileNameValue(ROOT_NAME, true, t1));
    IndexAttribute(es);
    ListedThree(a, b, c);
    IndexThird(AttributeAt(a, 0).(offset := 0x38), AttributeAt(b, 0).(offset := 0x38 + |a|),
               AttributeAt(c, 0).(offset := 0x38 + |a| + |b|));
  }

  lemma IndexThird(x: Attribute, y: Attribute, z: Attribute)
    requires x.kind != 0x90 && y.kind != 0x90 && IsI30(z)
    ensures IndexValue([x, y, z], 0) == Some(z.value)
  {
    var l := [x, y, z];
    assert IndexValue(l, 2) == Some(z.value);
    assert IndexValue(l, 1) == IndexValue(l, 2);
  }

  lemma RootRecordReads(job: Job, contents: seq<seq<u8>>)
    requires |contents| == |job.files| && VolumeBytes(job) >= 0 && SystemRecord(job, contents, 5).Some?
    ensures Buildable(RootEntries(job, contents))
    ensures var f := Fixup(SystemRecord(job, contents, 5).value, 512);
            f.Some? && f.value.valid && Attributes(f.value.logical).Some?
            && IndexValue(Attributes(f.value.logical).value, 0) == Some(RootValue(RootEntries(job, contents)))
  {
    hide Fixup, Attributes, Sound, Unnamed, Listed, IndexValue, StandardInformation, Record, RootValue, RootHead,
         RootEntries;
    var t0, t1 := job.clock(5, 0), job.clock(5, 1);
    var es := RootEntries(job, contents);
    var a, b, c := StandardInformation(t0), FileName(ROOT_NAME, true, t1), IndexRoot(es);
    assert SystemRecord(job, contents, 5) == Assembled(5, Some(a), b, c, true);
    RootListed(es, t0, t1);
    AssembledReads(5, a, b.value, c.value, true);
  }

  lemma {:induction false} ViewAt(es: seq<RootEntry>, k: nat, j: nat, pos: nat)
    requires Listable(es) && k <= j < |es|
    ensures |Views(es, k, pos)| == |es| - k
    ensures exists p: nat :: Views(es, k, pos)[j - k] == View(es[j], p)
    decreases |es| - k
  {
    hide View, Packs, RoundUp8;
    assert es[k] in es;
    AllListed(es, k, pos);
    var next := pos + RoundUp8(BodyLength(es[k]));
    if j == k {
      assert Views(es, k, pos)[0] == View(es[k], pos);
    } else {
      ViewAt(es, k + 1, j, next);
      var p: nat :| Views(es, k + 1, next)[j - k - 1] == View(es[j], p);
      assert Views(es, k, pos)[j - k] == View(es[j], p);
    }
  }

  /** The entry refers to record `n` with sequence number `n`, and tells size, times and kind. */
  predicate EntryTells(e: Entry, n: nat, size: nat, t: Time)
  {
    && e.ref == n + 0x1_0000_0000_0000 * n && e.realSize == size && e.flags == 0x20
    && e.created == t && e.modified == t && e.recordModified == t && e.accessed == t
  }

  lemma RootView(job: Job, contents: seq<seq<u8>>, k: nat, p: nat)
    requires k < |contents| == |job.files| <= 8 && Packs(RootEntryOf(job, contents, k))
    ensures View(RootEntryOf(job, contents, k), p).name == StoredName(job, k)
    ensures RecordOf(View(RootEntryOf(job, contents, k), p)) == 16 + k
    ensures EntryTells(View(RootEntryOf(job, contents, k), p), 16 + k, |contents[k]|, job.clock(5, 2 + k))
  {
    hide BaseName, UnitBytes;
  }

  /** Searching the parsed entries finds the record of the first file with that name, or none. */
  lemma {:induction false} SearchFinds(job: Job, contents: seq<seq<u8>>, name: seq<u8>, upper: Upper, k: nat)
    requires |contents| == |job.files| <= 8
    requires forall e | e in RootEntries(job, contents) :: Packs(e)
    ensures var e := EntryNamed(Views(RootEntries(job, contents), 0, 0x20), name, upper, k);
            match FirstFile(job, name, upper, k)
            case None => e.None?
            case Some(i) => e.Some? && RecordOf(e.value) == 16 + i
                            && EntryTells(e.value, 16 + i, |contents[i]|, job.clock(5, 2 + i))
    decreases |contents| - k
  {
    hide Views, RootEntries, StoredName, RecordOf, View, RootEntryOf, EntryTells;
    var es := RootEntries(job, contents);
    ListableRoot(job, contents);
    AllListed(es, 0, 0x20);
    if k < |contents| {
      ViewAt(es, 0, k, 0x20);
      ghost var p: nat :| Views(es, 0, 0x20)[k] == View(es[k], p);
      assert es[k] == RootEntryOf(job, contents, k);
      RootView(job, contents, k, p);
      SearchFinds(job, contents, name, upper, k + 1);
    }
  }

  lemma RootFound(job: Job, image: seq<u8>, name: seq<u8>, upper: Upper)
    requires Finished(job, image)
    ensures var e := FoundEntry(image, VolumeOf(job), name, upper);
            match FirstFile(job, name, upper, 0)
            case None => e.None?
            case Some(i) => e.Some? && RecordOf(e.value) == 16 + i
                            && EntryTells(e.value, 16 + i, |Stored(job)[i]|, job.clock(5, 2 + i))
  {
    hide Fixup, Attributes, Laid, ReadRecord, SystemRecord, IndexValue, Views, Parsed, RootEntries, RootValue,
         Buildable, EntryNamed, FirstFile, RecordOf, EntryTells;
    var contents := Stored(job);
    assert Live(5, |job.files|);
    SlotRead(job, image, 5);
    assert MftRecord(job, contents, 5) == SystemRecord(job, contents, 5);
    RootRecordReads(job, contents);
    FewFiles(job, contents);
    ListableRoot(job, contents);
    IndexReadsBack(RootEntries(job, contents));
    SearchFinds(job, contents, name, upper, 0);
  }

  lemma ListableRoot(job: Job, contents: seq<seq<u8>>)
    requires |contents| == |job.files| <= 8
    requires forall e | e in RootEntries(job, contents) :: Packs(e)
    ensures Listable(RootEntries(job, contents))
  {
  }

  /**
   The reader inverts the formatter. Whatever call the formatter accepts, partitioned
   or whole-disk, and whatever the case mapping: extracting a name from the image
   yields, byte for byte, what was stored for the first file (in path order) whose
   base name matches, and fails exactly when no base name matches.
   */
  lemma ImageReadsBack(job: Job, image: seq<u8>, name: seq<u8>, upper: Upper)
    requires Finished(job, image)
    ensures Extracted(image, name, upper, 4096)
            == match FirstFile(job, name, upper, 0) case None => None case Some(i) => Some(Stored(job)[i])
  {
    hide Finished, BootOffset, ParsedBoot, FoundEntry, ExtractedFrom, Content, RecordOf, FirstFile, Stored;
    BootFound(job, image);
    RootFound(job, image, name, upper);
    var first := FirstFile(job, name, upper, 0);
    if first.Some? {
      FileRead(job, image, first.value);
    }
  }

  /** A small file whose base name no other file shares under `upper` comes back unchanged. */
  lemma SmallFileReadsBack(job: Job, image: seq<u8>, i: nat, upper: Upper)
    requires Finished(job, image) && i < |job.files| && |job.files[i].data| <= 700
    requires forall j: nat | j < |job.files| && j != i ::
               upper(StoredName(job, j)) != upper(StoredName(job, i))
    ensures Extracted(image, StoredName(job, i), upper, 4096) == Some(job.files[i].data)
  {
    hide Finished, Extracted, StoredName, FirstFile;
    StoredSmall(job, i);
    ImageReadsBack(job, image, StoredName(job, i), upper);
    OnlyMatch(job, i, upper, 0);
  }

  /** A file above 700 bytes comes back as its stub. */
  lemma LargeFileIsStub(job: Job, image: seq<u8>, i: nat, upper: Upper)
    requires Finished(job, image) && i < |job.files| && |job.files[i].data| > 700
    requires forall j: nat | j < |job.files| && j != i ::
               upper(StoredName(job, j)) != upper(StoredName(job, i))
    ensures Extracted(image, StoredName(job, i), upper, 4096) == job.stub(job.files[i].path, |job.files[i].data|)
  {
    assert Content(job, i).Some?;
    assert Some(Stored(job)[i]) == job.stub(job.files[i].path, |job.files[i].data|);
    hide Finished, Extracted, StoredName, FirstFile, Stored, Content;
    ImageReadsBack(job, image, StoredName(job, i), upper);
    OnlyMatch(job, i, upper, 0);
  }

  lemma StoredSmall(job: Job, i: nat)
    requires i < |job.files| && |job.files[i].data| <= 700
    ensures Stored(job)[i] == job.files[i].data
  {
  }

  lemma {:induction false} OnlyMatch(job: Job, i: nat, upper: Upper, k: nat)
    requires k <= i < |job.files|
    requires forall j: nat | j < |job.files| && j != i ::
               upper(StoredName(job, j)) != upper(StoredName(job, i))
    ensures FirstFile(job, StoredName(job, i), upper, k) == Some(i)
    decreases i - k
  {
    hide StoredName;
    if k < i {
      OnlyMatch(job, i, upper, k + 1);
    }
  }

  // ----- two promises that hold only up to a size -----

  /** Where the terminator of a file record stands. */
  function TerminatorOf(name: seq<u16>, data: seq<u8>): (n: nat)
  {
    242 + 2 * |name| + |data|
  }

  lemma FileEnd(name: seq<u16>, data: seq<u8>, t0: Time, t1: Time)
    requires |name| <= 255 && |data| <= 700
    ensures EndOf([StandardInformation(t0), FileName(name, false, t1).value, Data(data).value])
            == TerminatorOf(name, data)
  {
    hide StandardInformation, FileNameValue, Unnamed;
    Flat3(StandardInformation(t0), FileName(name, false, t1).value, Data(data).value);
  }

  /**
   The kernel's walk over a file record the formatter built reaches the terminator if
   and only if the terminator stands at or below byte 1016; the builder itself lets it
   stand up to byte 1020.
   */
  lemma FileTerminatorFound(job: Job, contents: seq<seq<u8>>, i: nat)
    requires i < |contents| == |job.files| && FileRecord(job, contents, i).Some?
    ensures Fixup(FileRecord(job, contents, i).value, 512).Some?
    ensures TerminatorOf(BaseName(job.files[i].path), contents[i]) <= 1020
    ensures Scan(Fixup(FileRecord(job, contents, i).value, 512).value.logical).Terminator?
            <==> TerminatorOf(BaseName(job.files[i].path), contents[i]) <= 1016
  {
    hide Fixup, Attributes, Sound, Unnamed, Listed, StandardInformation, Record, Scan, FileNameValue, Flat;
    var t0, t1 := job.clock(16 + i, 0), job.clock(16 + i, 1);
    var name := BaseName(job.files[i].path);
    var a, b, c := StandardInformation(t0), FileName(name, false, t1), Data(contents[i]);
    assert FileRecord(job, contents, i) == Assembled(16 + i, Some(a), b, c, false);
    var attrs := [a, b.value, c.value];
    FileAttributes(name, contents[i], t0, t1);
    FileEnd(name, contents[i], t0, t1);
    RecordFits(16 + i, true, RECORD, attrs, false);
    RecordReadsBack(16 + i, true, RECORD, attrs, false);
  }

  lemma RecordBuilds(seqNo: nat, attrs: seq<seq<u8>>)
    ensures Record(seqNo, true, RECORD, attrs, false).Some? <==> seqNo < 0x1_0000 && EndOf(attrs) + 4 <= RECORD
  {
  }

  /** Exactly which files get a record: name, data, record number and terminator within their limits. */
  lemma FileBuilds(job: Job, contents: seq<seq<u8>>, i: nat)
    requires i < |contents| == |job.files|
    ensures var name := BaseName(job.files[i].path);
            FileRecord(job, contents, i).Some?
            <==> |name| <= 255 && |contents[i]| <= 700 && 16 + i < 0x1_0000
                 && TerminatorOf(name, contents[i]) <= 1020
  {
    hide Assembled, FileName, Data, StandardInformation, BaseName, TerminatorOf;
    var t0, t1 := job.clock(16 + i, 0), job.clock(16 + i, 1);
    ThreeBuild(16 + i, BaseName(job.files[i].path), contents[i], t0, t1);
  }

  lemma ThreeBuild(no: nat, name: seq<u16>, data: seq<u8>, t0: Time, t1: Time)
    ensures Assembled(no, Some(StandardInformation(t0)), FileName(name, false, t1), Data(data), false).Some?
            <==> |name| <= 255 && |data| <= 700 && no < 0x1_0000 && TerminatorOf(name, data) <= 1020
  {
    hide Record, StandardInformation, FileNameValue, Unnamed, EndOf, TerminatorOf;
    if |name| <= 255 && |data| <= 700 {
      var attrs := [StandardInformation(t0), FileName(name, false, t1).value, Data(data).value];
      FileEnd(name, data, t0, t1);
      RecordBuilds(no, attrs);
    }
  }

  /** The last cluster the formatter writes to. */
  function LastCluster(job: Job): (c: nat)
    requires VolumeBytes(job) >= 0
  {
    34 + (Max(VolumeBitmapBytes(job), CLUSTER) - 1) / CLUSTER
  }

  /** Cluster `c` is marked in the volume bitmap of the image. */
  predicate ClusterMarked(job: Job, image: seq<u8>, c: nat)
  {
    var p := VolumeOffset(job) + 34 * CLUSTER + c / 8;
    0 <= p < |image| && Bit(image[p], c % 8)
  }

  /**
   The volume bitmap marks every cluster the formatter writes if and only if the
   volume has at most 32768 clusters: above that the bitmap itself spills past the
   one cluster reserved for it.
   */
  lemma WrittenClustersMarked(job: Job, image: seq<u8>)
    requires Finished(job, image)
    ensures (forall c: nat | c <= LastCluster(job) :: ClusterMarked(job, image, c))
            <==> VolumeBytes(job) / CLUSTER <= 32768
  {
    hide Boot, Mbr, SlotsLaid, AllBuild, Content, MarksFirst, Stored, Bit;
    var bytes := VolumeBitmapBytes(job);
    assert VolumeBytes(job) / CLUSTER >= 2048;
    assert bytes >= 256;
    forall c: nat | c < 40 ensures ClusterMarked(job, image, c) <==> c < 35 {
      BitmapBit(job, image, c);
    }
    if VolumeBytes(job) / CLUSTER > 32768 {
      assert bytes > CLUSTER && LastCluster(job) >= 35;
      assert !ClusterMarked(job, image, 35);
    } else {
      assert LastCluster(job) == 34;
    }
  }

  lemma BitmapBit(job: Job, image: seq<u8>, c: nat)
    requires VolumeBytes(job) >= 0 && job.partLba >= 0 && c < 8 * VolumeBitmapBytes(job)
    requires BitmapLaid(image, VolumeOffset(job) + 34 * CLUSTER, VolumeBitmapBytes(job), 35)
    ensures ClusterMarked(job, image, c) <==> c < 35
  {
    hide Bit;
    var at, n := VolumeOffset(job) + 34 * CLUSTER, VolumeBitmapBytes(job);
    var bits := image[at..at + n];
    assert bits[c / 8] == image[at + c / 8];
    assert Bit(bits[c / 8], c % 8) <==> c < 35;
  }
}
