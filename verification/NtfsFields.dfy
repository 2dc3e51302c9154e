/**
 The remaining fields of a finished NTFS image, read where the on-disk format has them: boot
 sector and partition entry, record headers, standard information, file names, and the head of
 the root index.
 */
module NtfsFields {
  import opened Words
  import opened NtfsRecord
  import opened NtfsIndex
  import opened NtfsFormat
  import opened NtfsExtract
  import opened NtfsRuns

  // ----- boot sector and partition table -----

  lemma BootSays(sectors: u64)
    ensures var b := Boot(sectors);
            && b[..3] == [0xEB, 0x52, 0x90] && U64(b, 0x28) == sectors
            && b[0x44] == 0xF4 && b[510..512] == [0x55, 0xAA]
  {
    hide LE64, U64;
    var b, f := Boot(sectors), BootFront(sectors);
    assert At(b, 0, f) && At(f, 0x28, LE64(sectors));
    assert b[0x44] == f[0x44] == 0xF4;
    assert b[..3] == f[..3] == [0xEB, 0x52, 0x90];
    AtSub(b, 0, f, 0x28, LE64(sectors));
    Field64(b, 0x28, sectors);
  }

  /** The volume's size in sectors, its index block size and the signature, in boot sector and copy. */
  lemma BootFieldsRead(job: Job, image: seq<u8>, copy: bool)
    requires Finished(job, image)
    ensures var at := 512 * job.partLba + (if copy then 6 * 512 else 0);
            && 0 <= at && at + 512 <= |image|
            && U64(image, at + 0x28) == (job.size - 512 * job.partLba) / 512
            && image[at + 0x44] == 256 - 12 && image[at + 510..at + 512] == [0x55, 0xAA]
  {
    hide Boot, U64, SlotsLaid, BitmapLaid, AllBuild, Mbr;
    var at := 512 * job.partLba + (if copy then 6 * 512 else 0);
    var b := Boot(VolumeBytes(job) / 512);
    BootSays(VolumeBytes(job) / 512);
    assert At(image, at, b);
    U64At(image, at, b, 0x28);
    AtByte(image, at, b, 0x44);
    AtSlice(image, at, b, 510, 512);
  }

  lemma MbrSays(lba: u32, sectors: u32)
    ensures var m := Mbr(lba, sectors);
            && m[0x1BE + 4] == 7 && U32(m, 0x1BE + 8) == lba && U32(m, 0x1BE + 12) == sectors
            && m[0x1CE..0x1FE] == Zeros(48) && m[510..512] == [0x55, 0xAA]
  {
    hide LE32, U32;
    var m := Mbr(lba, sectors);
    assert At(m, 0x1C6, LE32(lba)) && At(m, 0x1CA, LE32(sectors));
    Field32(m, 0x1C6, lba);
    Field32(m, 0x1CA, sectors);
  }

  /** A partitioned disk: one entry of type 7, from the partition's first sector to the end; the other three blank. */
  lemma PartitionRead(job: Job, image: seq<u8>)
    requires Finished(job, image) && job.partLba > 0
    ensures |image| >= 512 && image[0x1C2] == 7 && U32(image, 0x1C6) == job.partLba
    ensures U32(image, 0x1CA) == job.size / 512 - job.partLba && image[0x1CE..0x1FE] == Zeros(48)
  {
    hide Boot, Mbr, U32, SlotsLaid, BitmapLaid, AllBuild;
    var m := Mbr(job.partLba, job.size / 512 - job.partLba);
    MbrSays(job.partLba, job.size / 512 - job.partLba);
    assert At(image, 0, m);
    AtByte(image, 0, m, 0x1C2);
    AtFields(image, 0, m, 0x1C6);
    AtFields(image, 0, m, 0x1CA);
    AtSlice(image, 0, m, 0x1CE, 0x1FE);
  }

  // ----- record headers -----

  lemma HeaderSays(seqNo: u16, flags: u16, realSize: u32)
    ensures var h := Header(seqNo, flags, realSize);
            && U16(h, 0x10) == seqNo && U16(h, 0x12) == 1 && U16(h, 0x16) == flags
            && U32(h, 0x18) == realSize && U32(h, 0x1C) == RECORD && U64(h, 0x20) == 0
  {
    hide LE16, LE32, U16, U32;
    var h := Header(seqNo, flags, realSize);
    assert At(h, 0x10, LE16(seqNo)) && At(h, 0x12, LE16(1)) && At(h, 0x16, LE16(flags));
    assert At(h, 0x18, LE32(realSize)) && At(h, 0x1C, LE32(RECORD));
    assert h[0x20..0x28] == Zeros(8);
    Field16(h, 0x10, seqNo);
    Field16(h, 0x12, 1);
    Field16(h, 0x16, flags);
    Field32(h, 0x18, realSize);
    Field32(h, 0x1C, RECORD);
    ZeroField64(h, 0x20);
  }

  lemma ZeroField64(s: seq<u8>, off: nat)
    requires In(s, off, 8) && s[off..off + 8] == Zeros(8)
    ensures U64(s, off) == 0
  {
    assert forall i | off <= i < off + 8 :: s[i] == s[off..off + 8][i - off] == 0;
  }

  lemma PrefixField(s: seq<u8>, t: seq<u8>, n: nat, k: nat)
    requires n <= |s| && n <= |t| && s[..n] == t[..n]
    ensures k + 2 <= n ==> U16(s, k) == U16(t, k)
    ensures k + 4 <= n ==> U32(s, k) == U32(t, k)
    ensures k + 8 <= n ==> U64(s, k) == U64(t, k)
  {
    assert forall i | 0 <= i < n :: s[i] == s[..n][i] && t[i] == t[..n][i];
  }

  /** The record a number stands for, as one call of the builder. */
  lemma RecordShape(job: Job, contents: seq<seq<u8>>, n: nat) returns (attrs: seq<seq<u8>>)
    requires |contents| == |job.files| && VolumeBytes(job) >= 0 && Live(n, |contents|)
    requires MftRecord(job, contents, n).Some?
    ensures MftRecord(job, contents, n) == Record(if n == 0 then 1 else n, true, RECORD, attrs, n == 5)
  {
    hide Record, StandardInformation, FileName, Data, NonResident, IndexRoot;
    var info := Some(StandardInformation(job.clock(n, 0)));
    if n == 0 {
      var c, bytes := MftClusters(|contents|), MftClusters(|contents|) * CLUSTER;
      attrs := [info.value, NonResident(0x80, c, 4, bytes, bytes).value, NonResident(0xB0, 1, 33, CLUSTER, 16).value];
    } else if n == 3 {
      attrs := [info.value, FileName(VOLUME_NAME, false, job.clock(3, 1)).value, Data(Zeros(8)).value];
    } else if n == 5 {
      attrs := [info.value, FileName(ROOT_NAME, true, job.clock(5, 1)).value,
                IndexRoot(RootEntries(job, contents)).value];
    } else if n == 6 {
      attrs := [info.value, FileName(BITMAP_NAME, false, job.clock(6, 1)).value,
                NonResident(0x80, 1, 34, CLUSTER, VolumeBitmapBytes(job)).value];
    } else {
      attrs := [info.value, FileName(BaseName(job.files[n - 16].path), false, job.clock(n, 1)).value,
                Data(contents[n - 16]).value];
    }
  }

  /**
   Every record of a finished image that the formatter fills: its sequence number is its own
   number, 1 for record 0; it has one link, is in use, and is a directory only as the root; it is
   a base record whose two sizes are those of a record.
   */
  lemma RecordHeaderRead(job: Job, image: seq<u8>, n: nat)
    requires Finished(job, image) && Live(n, |job.files|)
    ensures var r := ReadRecord(image, VolumeOf(job), n);
            && r.Some? && r.value.valid && |r.value.logical| == 1024
            && var s := r.value.logical;
               && U16(s, 0x10) == (if n == 0 then 1 else n) && U16(s, 0x12) == 1
               && U16(s, 0x16) == (if n == 5 then 3 else 1)
               && U32(s, 0x18) == 1024 && U32(s, 0x1C) == 1024 && U64(s, 0x20) == 0
  {
    hide Finished, MftRecord, Record, Fixup, ReadRecord, Header, U16, U32, U64, At, Flat, Stored;
    Accepted(job, image);
    SlotRead(job, image, n);
    var attrs := RecordShape(job, Stored(job), n);
    var no := if n == 0 then 1 else n;
    RecordHolds(no, true, RECORD, attrs, n == 5);
    HeaderSays(no, Flags(true, n == 5), RECORD);
    var s, h := ReadRecord(image, VolumeOf(job), n).value.logical, Header(no, Flags(true, n == 5), RECORD);
    PrefixField(s, h, 0x30, 0x10);
    PrefixField(s, h, 0x30, 0x12);
    PrefixField(s, h, 0x30, 0x16);
    PrefixField(s, h, 0x30, 0x18);
    PrefixField(s, h, 0x30, 0x1C);
    PrefixField(s, h, 0x30, 0x20);
  }

  // ----- standard information and file names -----

  /** Four times one tick apart, and the archive flag. */
  predicate InfoSays(v: seq<u8>, t: Time)
  {
    && |v| == 48
    && U64(v, 0) == t && U64(v, 8) == t + 1 && U64(v, 16) == t + 2 && U64(v, 24) == t + 3 && U32(v, 0x20) == 0x20
  }

  lemma InfoReads(t: Time)
    ensures var a := StandardInformation(t);
            Sound(a) && AttributeAt(a, 0).(value := []) == Attribute(0x10, 72, false, [], [], 0)
            && InfoSays(AttributeAt(a, 0).value, t)
  {
    hide LE64, LE32, U64, U32, Unnamed, Sound, AttributeAt;
    var v := LE64(t) + LE64(t + 1) + LE64(t + 2) + LE64(t + 3) + LE32(0x20) + Zeros(12);
    UnnamedReads(0x10, v);
    assert At(v, 0, LE64(t)) && At(v, 8, LE64(t + 1)) && At(v, 16, LE64(t + 2)) && At(v, 24, LE64(t + 3));
    assert At(v, 0x20, LE32(0x20));
    Field64(v, 0, t);
    Field64(v, 8, t + 1);
    Field64(v, 16, t + 2);
    Field64(v, 24, t + 3);
    Field32(v, 0x20, 0x20);
  }

  /** The root as parent, four equal times, no sizes, the kind of file, and the name in the Win32 name space. */
  predicate NameSays(v: seq<u8>, name: seq<u16>, isDir: bool, t: Time)
    requires |name| <= 255
  {
    && |v| == 0x42 + 2 * |name|
    && U64(v, 0) % 0x1_0000_0000_0000 == 5 && U64(v, 0) / 0x1_0000_0000_0000 == 5
    && U64(v, 8) == t && U64(v, 0x10) == t && U64(v, 0x18) == t && U64(v, 0x20) == t
    && U64(v, 0x28) == 0 && U64(v, 0x30) == 0 && U32(v, 0x38) == (if isDir then 0x10 else 0x20)
    && v[0x40] == |name| && v[0x41] == 1 && v[0x42..] == UnitBytes(name)
  }

  lemma NameParts(name: seq<u16>, isDir: bool, t: Time)
    requires |name| <= 255
    ensures var v := FileNameValue(name, isDir, t);
            && At(v, 0, LE64(ROOT_REF)) && At(v, 8, LE64(t)) && At(v, 0x10, LE64(t)) && At(v, 0x18, LE64(t))
            && At(v, 0x20, LE64(t)) && v[0x28..0x30] == Zeros(8) && v[0x30..0x38] == Zeros(8)
            && At(v, 0x38, LE32(if isDir then 0x10 else 0x20))
            && v[0x40] == |name| && v[0x41] == 1 && v[0x42..] == UnitBytes(name)
  {
    hide LE64, LE32, UnitBytes, At, NameTimes, NameRest, FileNameValue;
    NameStands(name, isDir, t);
    TimesParts(t);
    RestParts(name, isDir);
    TimesIn(FileNameValue(name, isDir, t), NameTimes(t), LE64(ROOT_REF), LE64(t));
    RestIn(FileNameValue(name, isDir, t), NameRest(name, isDir), LE32(if isDir then 0x10 else 0x20), UnitBytes(name));
  }

  lemma TimesIn(v: seq<u8>, times: seq<u8>, parent: seq<u8>, time: seq<u8>)
    requires At(v, 0, times) && At(times, 0, parent) && At(times, 8, time) && At(times, 0x10, time)
    requires At(times, 0x18, time) && At(times, 0x20, time)
    ensures At(v, 0, parent) && At(v, 8, time) && At(v, 0x10, time) && At(v, 0x18, time) && At(v, 0x20, time)
  {
    hide At;
    AtSub(v, 0, times, 0, parent);
    AtSub(v, 0, times, 8, time);
    AtSub(v, 0, times, 0x10, time);
    AtSub(v, 0, times, 0x18, time);
    AtSub(v, 0, times, 0x20, time);
  }

  lemma RestIn(v: seq<u8>, rest: seq<u8>, flags: seq<u8>, name: seq<u8>)
    requires At(v, 0x28, rest) && |v| == 0x28 + |rest| && |rest| == 0x1A + |name| && At(rest, 0x10, flags)
    requires rest[0..8] == Zeros(8) && rest[8..16] == Zeros(8) && rest[0x1A..|rest|] == name
    ensures v[0x28..0x30] == Zeros(8) && v[0x30..0x38] == Zeros(8) && At(v, 0x38, flags)
    ensures v[0x40] == rest[0x18] && v[0x41] == rest[0x19] && v[0x42..] == name
  {
    hide At, Zeros;
    AtSub(v, 0x28, rest, 0x10, flags);
    AtSlice(v, 0x28, rest, 0, 8);
    AtSlice(v, 0x28, rest, 8, 16);
    AtByte(v, 0x28, rest, 0x18);
    AtByte(v, 0x28, rest, 0x19);
    AtSlice(v, 0x28, rest, 0x1A, |rest|);
    assert v[0x42..] == v[0x42..|v|];
  }

  lemma NameStands(name: seq<u16>, isDir: bool, t: Time)
    requires |name| <= 255
    ensures var v := FileNameValue(name, isDir, t); At(v, 0, NameTimes(t)) && At(v, 0x28, NameRest(name, isDir))
  {
    hide NameTimes, NameRest;
    Joined(NameTimes(t), NameRest(name, isDir));
  }

  lemma Joined(a: seq<u8>, b: seq<u8>)
    ensures At(a + b, 0, a) && At(a + b, |a|, b)
  {
  }

  lemma TimesParts(t: Time)
    ensures var s := NameTimes(t);
            && At(s, 0, LE64(ROOT_REF)) && At(s, 8, LE64(t)) && At(s, 0x10, LE64(t)) && At(s, 0x18, LE64(t))
            && At(s, 0x20, LE64(t))
  {
    hide LE64;
  }

  lemma RestParts(name: seq<u16>, isDir: bool)
    requires |name| <= 255
    ensures var s := NameRest(name, isDir);
            && At(s, 0x10, LE32(if isDir then 0x10 else 0x20)) && s[0x18] == |name| && s[0x19] == 1
            && s[0..8] == Zeros(8) && s[8..16] == Zeros(8) && s[0x1A..|s|] == UnitBytes(name)
  {
    hide LE32, UnitBytes;
  }

  lemma NameReads(name: seq<u16>, isDir: bool, t: Time)
    requires |name| <= 255
    ensures var a := FileName(name, isDir, t).value;
            Sound(a) && AttributeAt(a, 0).(value := []) == Attribute(0x30, 90 + 2 * |name|, false, [], [], 0)
            && NameSays(AttributeAt(a, 0).value, name, isDir, t)
  {
    hide LE64, LE32, U64, U32, Unnamed, Sound, AttributeAt, FileNameValue, At;
    var v := FileNameValue(name, isDir, t);
    UnnamedReads(0x30, v);
    NameParts(name, isDir, t);
    Field64(v, 0, ROOT_REF);
    Field64(v, 8, t);
    Field64(v, 0x10, t);
    Field64(v, 0x18, t);
    Field64(v, 0x20, t);
    ZeroField64(v, 0x28);
    ZeroField64(v, 0x30);
    Field32(v, 0x38, if isDir then 0x10 else 0x20);
  }

  /** The record of file `i` in a finished image: standard information, the file's name, its bytes. */
  lemma FileRecordRead(job: Job, image: seq<u8>, i: nat)
    requires Finished(job, image) && i < |job.files|
    ensures var r := ReadRecord(image, VolumeOf(job), 16 + i);
            && r.Some? && Attributes(r.value.logical).Some?
            && var l := Attributes(r.value.logical).value;
               && |l| == 3 && l[0].kind == 0x10 && l[1].kind == 0x30 && l[2].kind == 0x80
               && !l[0].nonResident && !l[1].nonResident && !l[2].nonResident
               && InfoSays(l[0].value, job.clock(16 + i, 0)) && |BaseName(job.files[i].path)| <= 255
               && NameSays(l[1].value, BaseName(job.files[i].path), false, job.clock(16 + i, 1))
               && l[2].value == Stored(job)[i]
  {
    hide Finished, Fixup, ReadRecord, Attributes, Assembled, StandardInformation, FileName, Data, Sound, AttributeAt,
         Listed, InfoSays, NameSays, BaseName, Stored;
    var name, data := BaseName(job.files[i].path), Stored(job)[i];
    var t0, t1 := job.clock(16 + i, 0), job.clock(16 + i, 1);
    FileShape(job, image, i);
    var a, b, c := StandardInformation(t0), FileName(name, false, t1), Data(data);
    BothBuild(16 + i, Some(a), b, c, false);
    Limits(name, t1, data);
    InfoReads(t0);
    NameReads(name, false, t1);
    FileAttributes(name, data, t0, t1);
    AssembledReads(16 + i, a, b.value, c.value, false);
    ListedThree(a, b.value, c.value);
  }

  lemma Limits(name: seq<u16>, t: Time, data: seq<u8>)
    requires FileName(name, false, t).Some? && Data(data).Some?
    ensures |name| <= 255 && |data| <= 700
  {
  }

  lemma FileShape(job: Job, image: seq<u8>, i: nat)
    requires Finished(job, image) && i < |job.files|
    ensures var rec := Assembled(16 + i, Some(StandardInformation(job.clock(16 + i, 0))),
                                 FileName(BaseName(job.files[i].path), false, job.clock(16 + i, 1)),
                                 Data(Stored(job)[i]), false);
            rec.Some? && ReadRecord(image, VolumeOf(job), 16 + i) == Fixup(rec.value, 512)
  {
    hide StandardInformation, ReadRecord, Fixup, Laid, Assembled, AllBuild, FileName, Data;
    assert Live(16 + i, |job.files|);
    SlotRead(job, image, 16 + i);
  }

  // ----- the system files -----

  /** An ASCII text in UTF-16. */
  function Units(s: string): (u: seq<u16>)
  {
    seq(|s|, i requires 0 <= i < |s| => s[i] as int % 0x1_0000)
  }

  lemma SystemNames()
    ensures VOLUME_NAME == Units("$Volume") && ROOT_NAME == Units(".") && BITMAP_NAME == Units("$Bitmap")
  {
  }

  /** The attributes of record `n`, none if it cannot be read. */
  ghost function Listing(image: seq<u8>, job: Job, n: nat): (l: seq<Attribute>)
    requires job.partLba >= 0
  {
    var r := ReadRecord(image, VolumeOf(job), n);
    if r.None? || Attributes(r.value.logical).None? then [] else Attributes(r.value.logical).value
  }

  /** Three attributes: standard information, a file name, and another one. */
  ghost predicate Named(l: seq<Attribute>, job: Job, n: nat, name: seq<u16>, isDir: bool)
  {
    && |name| <= 255 && |l| == 3 && l[0].kind == 0x10 && l[1].kind == 0x30 && !l[0].nonResident && !l[1].nonResident
    && InfoSays(l[0].value, job.clock(n, 0)) && NameSays(l[1].value, name, isDir, job.clock(n, 1))
  }

  /** The third attribute is resident, of that type and name. */
  predicate ThirdIs(l: seq<Attribute>, kind: u32, name: seq<u8>)
  {
    |l| == 3 && l[2].kind == kind && !l[2].nonResident && l[2].name == name
  }

  lemma NamedRecord(job: Job, image: seq<u8>, n: nat, name: seq<u16>, isDir: bool, c: Option<seq<u8>>)
    requires job.partLba >= 0 && |name| <= 255
    requires var rec := Assembled(n, Some(StandardInformation(job.clock(n, 0))),
                                  FileName(name, isDir, job.clock(n, 1)), c, isDir);
             rec.Some? && ReadRecord(image, VolumeOf(job), n) == Fixup(rec.value, 512)
    requires c.Some? && Sound(c.value) && |c.value| >= 24
    ensures var l := Listing(image, job, n);
            Named(l, job, n, name, isDir) && |l| == 3 && l[2] == AttributeAt(c.value, 0).(offset := l[2].offset)
  {
    hide Fixup, ReadRecord, Attributes, Assembled, StandardInformation, FileName, Sound, AttributeAt, Listed, InfoSays,
         NameSays;
    var a, b := StandardInformation(job.clock(n, 0)), FileName(name, isDir, job.clock(n, 1));
    assert b.Some? by { BothBuild(n, Some(a), b, c, isDir); }
    InfoReads(job.clock(n, 0));
    NameReads(name, isDir, job.clock(n, 1));
    AssembledReads(n, a, b.value, c.value, isDir);
    ListedThree(a, b.value, c.value);
  }

  /** Record 3 is `$Volume`, with eight zero bytes. */
  lemma VolumeRecordRead(job: Job, image: seq<u8>)
    requires Finished(job, image)
    ensures job.partLba >= 0
    ensures var l := Listing(image, job, 3);
            Named(l, job, 3, Units("$Volume"), false) && ThirdIs(l, 0x80, []) && l[2].value == [0, 0, 0, 0, 0, 0, 0, 0]
  {
    hide StandardInformation, ReadRecord, Fixup, Laid, Assembled, AllBuild, FileName, Unnamed, Sound, AttributeAt,
         Attributes, Named, Units, Listing;
    SystemNames();
    assert Live(3, |job.files|);
    SlotRead(job, image, 3);
    UnnamedReads(0x80, Zeros(8));
    NamedRecord(job, image, 3, VOLUME_NAME, false, Data(Zeros(8)));
  }

  /** Record 5 is the root directory, named by a dot, with an index named `$I30`. */
  lemma RootRecordRead(job: Job, image: seq<u8>)
    requires Finished(job, image)
    ensures job.partLba >= 0 && Named(Listing(image, job, 5), job, 5, Units("."), true)
    ensures ThirdIs(Listing(image, job, 5), 0x90, UnitBytes(Units("$I30")))
  {
    hide Finished, StandardInformation, ReadRecord, Fixup, Assembled, FileName, Sound, AttributeAt, Listing, Named,
         RootEntries, Stored, IndexRoot, RootValue, Units, UnitBytes;
    Accepted(job, image);
    SystemNames();
    RecordFive(job, image);
    var es := RootEntries(job, Stored(job));
    var a, b := StandardInformation(job.clock(5, 0)), FileName(ROOT_NAME, true, job.clock(5, 1));
    BothBuild(5, Some(a), b, IndexRoot(es), true);
    IndexBuilt(es);
    IndexAttribute(es);
    NamedRecord(job, image, 5, ROOT_NAME, true, IndexRoot(es));
    IndexName();
  }

  lemma IndexBuilt(es: seq<RootEntry>)
    requires IndexRoot(es).Some?
    ensures Buildable(es) && |IndexRoot(es).value| >= 24
  {
    hide EntriesFrom;
  }

  lemma RecordFive(job: Job, image: seq<u8>)
    requires Finished(job, image)
    ensures var rec := Assembled(5, Some(StandardInformation(job.clock(5, 0))),
                                 FileName(ROOT_NAME, true, job.clock(5, 1)),
                                 IndexRoot(RootEntries(job, Stored(job))), true);
            rec.Some? && ReadRecord(image, VolumeOf(job), 5) == Fixup(rec.value, 512)
  {
    hide StandardInformation, ReadRecord, Fixup, Laid, Assembled, AllBuild, FileName, IndexRoot, RootEntries;
    assert Live(5, |job.files|);
    SlotRead(job, image, 5);
  }

  lemma IndexName()
    ensures I30 == UnitBytes(Units("$I30"))
  {
    var u := Units("$I30");
    assert u == [0x24, 0x49, 0x33, 0x30];
    assert u[1..] == [0x49, 0x33, 0x30] && u[1..][1..] == [0x33, 0x30] && u[1..][1..][1..] == [0x30];
    assert UnitBytes([0x30]) == [0x30, 0];
  }

  /** Record 6 is `$Bitmap`. */
  lemma BitmapRecordRead(job: Job, image: seq<u8>)
    requires Finished(job, image)
    ensures job.partLba >= 0 && Named(Listing(image, job, 6), job, 6, Units("$Bitmap"), false)
  {
    hide Finished, StandardInformation, ReadRecord, Fixup, Assembled, FileName, Sound, AttributeAt, Listing, Named,
         NonResident, VolumeBitmapBytes;
    Accepted(job, image);
    SystemNames();
    RecordSix(job, image);
    var n := VolumeBitmapBytes(job);
    var a, b := StandardInformation(job.clock(6, 0)), FileName(BITMAP_NAME, false, job.clock(6, 1));
    BothBuild(6, Some(a), b, NonResident(0x80, 1, 34, CLUSTER, n), false);
    StreamReads(0x80, 1, 34, CLUSTER, n);
    NamedRecord(job, image, 6, BITMAP_NAME, false, NonResident(0x80, 1, 34, CLUSTER, n));
  }

  // ----- the root index -----

  /** The head of the root index: it indexes file names, by the file name rule, in blocks of one 4096-byte cluster. */
  lemma IndexHeadReads(es: seq<RootEntry>)
    requires Buildable(es)
    ensures var v := RootValue(es);
            && |v| >= 0x30 && U32(v, 0) == 0x30 && U32(v, 4) == 1 && U32(v, 8) == 4096 && v[12] == 1
            && U32(v, 0x10) == 0x10 && U32(v, 0x14) == |v| - 0x10 && U32(v, 0x18) == |v| - 0x10
  {
    hide U32, EntriesFrom, ValueHead, At;
    var n := 0x20 + |EntriesFrom(es, 0)|;
    var v, h := RootValue(es), ValueHead(n);
    Joined(h, EntriesFrom(es, 0) + END_ENTRY);
    ValueHeadSays(n);
    AtByte(v, 0, h, 12);
    AtFields(v, 0, h, 0);
    AtFields(v, 0, h, 4);
    AtFields(v, 0, h, 8);
    AtFields(v, 0, h, 0x10);
    AtFields(v, 0, h, 0x14);
    AtFields(v, 0, h, 0x18);
  }

  lemma ValueHeadSays(n: u32)
    ensures var h := ValueHead(n);
            && U32(h, 0) == 0x30 && U32(h, 4) == 1 && U32(h, 8) == 4096 && h[12] == 1
            && U32(h, 0x10) == 0x10 && U32(h, 0x14) == n && U32(h, 0x18) == n
  {
    hide LE32, U32;
    var h := ValueHead(n);
    assert At(h, 0, LE32(0x30)) && At(h, 4, LE32(1)) && At(h, 8, LE32(4096)) && h[12] == 1;
    assert At(h, 0x10, LE32(0x10)) && At(h, 0x14, LE32(n)) && At(h, 0x18, LE32(n));
    hide ValueHead, At;
    Field32(h, 0, 0x30);
    Field32(h, 4, 1);
    Field32(h, 8, 4096);
    Field32(h, 0x10, 0x10);
    Field32(h, 0x14, n);
    Field32(h, 0x18, n);
  }

  /** What the parser skips in an entry: the root as parent, a size on disk of at least one, the Win32 name space. */
  lemma EntryRestReads(e: RootEntry)
    requires Packs(e)
    ensures var b := EntryBytes(e);
            && U64(b, 0x10) % 0x1_0000_0000_0000 == 5 && U64(b, 0x10) / 0x1_0000_0000_0000 == 5
            && U64(b, 0x38) == (if e.size > 1 then e.size else 1) && b[0x51] == 1
  {
    hide LE64, U64, EntryBytes, EntryHead, HeadFront, HeadBack, At;
    var size: u64 := if e.size == 0 then 1 else e.size;
    var b, h, front, back := EntryBytes(e), EntryHead(e), HeadFront(e), HeadBack(e);
    HeadSays(e);
    HeadAt(e);
    AtSub(h, 0, front, 0x10, LE64(ROOT_REF));
    AtSub(h, 0x38, back, 0, LE64(size));
    AtByte(h, 0x38, back, 0x19);
    AtSub(b, 0, h, 0x10, LE64(ROOT_REF));
    AtSub(b, 0, h, 0x38, LE64(size));
    AtByte(b, 0, h, 0x51);
    Field64(b, 0x10, ROOT_REF);
    Field64(b, 0x38, size);
  }

  lemma HeadSays(e: RootEntry)
    requires Packs(e)
    ensures At(EntryHead(e), 0, HeadFront(e)) && At(EntryHead(e), 0x38, HeadBack(e))
    ensures At(HeadFront(e), 0x10, LE64(ROOT_REF))
    ensures At(HeadBack(e), 0, LE64(if e.size == 0 then 1 else e.size)) && HeadBack(e)[0x19] == 1
  {
    hide LE64, LE32, LE16;
    HeadParts(e);
  }
}
