/**
 Non-resident attributes as NTFS defines them, and what a finished image says with them: where
 its MFT and its two bitmaps lie. The reader is written from the on-disk format: a mapping pair
 is a byte whose low nibble counts the bytes of a length and whose high nibble counts the bytes
 of a signed cluster step, then those bytes, least significant first; a zero byte ends the list.
 */
module NtfsRuns {
  import opened Words
  import opened NtfsRecord
  import opened NtfsIndex
  import opened NtfsFormat
  import opened NtfsExtract

  // ----- mapping pairs -----

  /** `length` clusters from cluster `lcn` on. */
  datatype Run = Run(lcn: int, length: nat)

  /** `n` bytes at `off`, the least significant first. */
  function Little(s: seq<u8>, off: nat, n: nat): (v: nat)
    requires In(s, off, n)
    decreases n
  {
    if n == 0 then 0
    else
      var b: int := s[off];
      b + 256 * Little(s, off + 1, n - 1)
  }

  /** The same in two's complement. */
  function LittleSigned(s: seq<u8>, off: nat, n: nat): (v: int)
    requires In(s, off, n)
  {
    if n > 0 && s[off + n - 1] >= 128 then Little(s, off, n) - Pow2(8 * n) else Little(s, off, n)
  }

  /** The runs listed at `off`, the cluster number counted on from `lcn`; `None` if the list leaves the bytes. */
  function RunsAt(s: seq<u8>, off: nat, lcn: int): (r: Option<seq<Run>>)
    decreases |s| - off
  {
    if off >= |s| then None
    else if s[off] == 0 then Some([])
    else
      var lengthBytes: nat, stepBytes: nat := s[off] % 16, s[off] / 16;
      if off + 1 + lengthBytes + stepBytes > |s| then None
      else
        var next := lcn + LittleSigned(s, off + 1 + lengthBytes, stepBytes);
        var rest := RunsAt(s, off + 1 + lengthBytes + stepBytes, next);
        if rest.None? then None else Some([Run(next, Little(s, off + 1, lengthBytes))] + rest.value)
  }

  // ----- non-resident attributes -----

  datatype Stream = Stream(kind: u32, firstVcn: nat, lastVcn: nat, room: nat, size: nat, filled: nat,
                           runs: seq<Run>)

  /** The stream an attribute describes; `None` if it is resident, too short or its runs leave it. */
  function StreamIn(a: seq<u8>): (r: Option<Stream>)
  {
    if |a| < 0x40 || a[8] == 0 then None
    else
      var runs := RunsAt(a, U16(a, 0x20), 0);
      if runs.None? then None
      else Some(Stream(U32(a, 0), U64(a, 0x10), U64(a, 0x18), U64(a, 0x28), U64(a, 0x30), U64(a, 0x38), runs.value))
  }

  /** The first attribute of that type. */
  function FirstOf(attrs: seq<Attribute>, kind: u32, k: nat): (r: Option<Attribute>)
    decreases |attrs| - k
  {
    if k >= |attrs| then None else if attrs[k].kind == kind then Some(attrs[k]) else FirstOf(attrs, kind, k + 1)
  }

  /** The stream that the attribute of that type in MFT record `n` describes. */
  function StreamOf(image: seq<u8>, vol: Volume, n: nat, kind: u32): (r: Option<Stream>)
  {
    var rec := ReadRecord(image, vol, n);
    if rec.None? then None
    else
      var attrs := Attributes(rec.value.logical);
      if attrs.None? then None
      else
        var a := FirstOf(attrs.value, kind, 0);
        if a.None? then None
        else StreamIn(Slice(rec.value.logical, a.value.offset, a.value.offset + a.value.size))
  }

  function Clusters(runs: seq<Run>): (n: nat)
  {
    if runs == [] then 0 else runs[0].length + Clusters(runs[1..])
  }

  /** The sizes and the last cluster agree with the runs, and the bytes fit into them. */
  predicate Consistent(st: Stream, cluster: nat)
  {
    && st.firstVcn == 0 && st.lastVcn + 1 == Clusters(st.runs)
    && st.room == Times(Clusters(st.runs), cluster)
    && st.filled == st.size <= st.room
  }

  function RunBytes(image: seq<u8>, vol: Volume, runs: seq<Run>): (b: seq<u8>)
  {
    if runs == [] then []
    else
      var at := vol.bootOffset + runs[0].lcn * vol.clusterSize;
      (if at < 0 then [] else Slice(image, at, at + Times(runs[0].length, vol.clusterSize)))
      + RunBytes(image, vol, runs[1..])
  }

  /** What a reader that follows the runs gets. */
  function Fetched(image: seq<u8>, vol: Volume, st: Stream): (b: seq<u8>)
  {
    Slice(RunBytes(image, vol, st.runs), 0, st.size)
  }

  // ----- what the formatter's attributes say -----

  lemma Field64(s: seq<u8>, off: nat, v: u64)
    requires At(s, off, LE64(v))
    ensures U64(s, off) == v
  {
    hide U64, LE64;
    LE64RoundTrip(v);
    U64At(s, off, LE64(v), 0);
  }

  lemma Field32(s: seq<u8>, off: nat, v: u32)
    requires At(s, off, LE32(v))
    ensures U32(s, off) == v
  {
    hide U32, LE32;
    LE32RoundTrip(v);
    AtFields(s, off, LE32(v), 0);
  }

  lemma Field16(s: seq<u8>, off: nat, v: u16)
    requires At(s, off, LE16(v))
    ensures U16(s, off) == v
  {
    hide U16, LE16;
    LE16RoundTrip(v);
    AtFields(s, off, LE16(v), 0);
  }

  /** One pair of single bytes. */
  lemma OnePair(s: seq<u8>, off: nat, length: u8, step: u8)
    requires At(s, off, [0x11, length, step, 0])
    ensures RunsAt(s, off, 0) == Some([Run(if step < 128 then step else step - 256, length)])
  {
    var d: seq<u8> := [0x11, length, step, 0];
    AtByte(s, off, d, 0);
    AtByte(s, off, d, 1);
    AtByte(s, off, d, 2);
    AtByte(s, off, d, 3);
    hide At;
    var lengthBytes: nat, stepBytes: nat := s[off] % 16, s[off] / 16;
    assert lengthBytes == 1 && stepBytes == 1;
    assert Little(s, off + 1, 1) == length && Little(s, off + 2, 1) == step;
    assert Pow2(8) == 256;
    var next: int := if step < 128 then step else step - 256;
    assert LittleSigned(s, off + 2, 1) == next;
    assert RunsAt(s, off + 3, next) == Some([]);
    assert [Run(next, length)] + [] == [Run(next, length)];
  }

  /** The parts of a non-resident attribute. */
  lemma NonResidentParts(kind: u32, clusters: nat, lcn: nat, alloc: nat, length: nat)
    requires NonResident(kind, clusters, lcn, alloc, length).Some?
    ensures var a := NonResident(kind, clusters, lcn, alloc, length).value;
            && alloc < TWO64 && length < TWO64
            && At(a, 0, LE32(kind)) && At(a, 4, LE32(0x44)) && a[8] == 1 && a[9] == 0
            && At(a, 0x10, LE64(0)) && At(a, 0x18, LE64(if length == 0 then 0 else (length - 1) / CLUSTER))
            && At(a, 0x20, LE16(0x40)) && At(a, 0x28, LE64(alloc)) && At(a, 0x30, LE64(length))
            && At(a, 0x38, LE64(length)) && At(a, 0x40, [0x11, clusters % 256, lcn % 256, 0])
  {
    hide LE64, LE32, LE16;
    var last := if length == 0 then 0 else (length - 1) / CLUSTER;
    var front := LE32(kind) + LE32(0x44) + [1, 0] + LE16(0) + Zeros(4);
    var vcns := LE64(0) + LE64(last) + LE16(0x40) + Zeros(6);
    var sizes := LE64(alloc) + LE64(length) + LE64(length);
    var pair: seq<u8> := [0x11, clusters % 256, lcn % 256, 0];
    var a := NonResident(kind, clusters, lcn, alloc, length).value;
    assert a == front + vcns + sizes + pair;
    assert At(a, 0, front) && At(a, 0x10, vcns) && At(a, 0x28, sizes) && At(a, 0x40, pair);
    assert At(front, 0, LE32(kind)) && At(front, 4, LE32(0x44)) && front[8] == 1 && front[9] == 0;
    assert At(vcns, 0, LE64(0)) && At(vcns, 8, LE64(last)) && At(vcns, 0x10, LE16(0x40));
    assert At(sizes, 0, LE64(alloc)) && At(sizes, 8, LE64(length)) && At(sizes, 0x10, LE64(length));
    hide At;
    AtSub(a, 0, front, 0, LE32(kind));
    AtSub(a, 0, front, 4, LE32(0x44));
    AtByte(a, 0, front, 8);
    AtByte(a, 0, front, 9);
    AtSub(a, 0x10, vcns, 0, LE64(0));
    AtSub(a, 0x10, vcns, 8, LE64(last));
    AtSub(a, 0x10, vcns, 0x10, LE16(0x40));
    AtSub(a, 0x28, sizes, 0, LE64(alloc));
    AtSub(a, 0x28, sizes, 8, LE64(length));
    AtSub(a, 0x28, sizes, 0x10, LE64(length));
  }

  /**
   What a reader makes of a non-resident attribute the formatter builds: its sizes, the last
   cluster that holds a byte, and one run. Length and cluster keep one byte, the cluster a signed
   one, so the run is the one asked for if and only if there are fewer than 256 clusters and the
   first is below 128.
   */
  lemma StreamReads(kind: u32, clusters: nat, lcn: nat, alloc: nat, length: nat)
    requires NonResident(kind, clusters, lcn, alloc, length).Some? && kind != END && kind != 0
    ensures var a := NonResident(kind, clusters, lcn, alloc, length).value;
            && Sound(a) && AttributeAt(a, 0) == Attribute(kind, 0x44, true, [], [], 0)
            && StreamIn(a).Some?
            && var st := StreamIn(a).value;
               && st == Stream(kind, 0, if length == 0 then 0 else (length - 1) / CLUSTER, alloc, length, length,
                               st.runs)
               && (st.runs == [Run(lcn, clusters)] <==> clusters < 256 && lcn < 128)
  {
    hide LE64, LE32, LE16, U64, U32, U16, At, NonResident, RunsAt;
    var a := NonResident(kind, clusters, lcn, alloc, length).value;
    NonResidentParts(kind, clusters, lcn, alloc, length);
    Field32(a, 0, kind);
    Field32(a, 4, 0x44);
    Field64(a, 0x10, 0);
    Field64(a, 0x18, if length == 0 then 0 else (length - 1) / CLUSTER);
    Field16(a, 0x20, 0x40);
    Field64(a, 0x28, alloc);
    Field64(a, 0x30, length);
    Field64(a, 0x38, length);
    OnePair(a, 0x40, clusters % 256, lcn % 256);
    OneByteNumbers(clusters, lcn);
  }

  lemma OneByteNumbers(clusters: nat, lcn: nat)
    ensures var step := lcn % 256;
            [Run(if step < 128 then step else step - 256, clusters % 256)] == [Run(lcn, clusters)]
            <==> clusters < 256 && lcn < 128
  {
    var step := lcn % 256;
    var x, y := Run(if step < 128 then step else step - 256, clusters % 256), Run(lcn, clusters);
    assert [x] == [y] <==> x == y by { assert [x][0] == x && [y][0] == y; }
  }

  // ----- streams of a record -----

  /** The three attributes of a record stand in it one after another. */
  lemma ThreeStand(no: nat, a: seq<u8>, b: seq<u8>, c: seq<u8>, isDir: bool)
    requires Assembled(no, Some(a), Some(b), Some(c), isDir).Some?
    ensures var f := Fixup(Assembled(no, Some(a), Some(b), Some(c), isDir).value, 512);
            && f.Some? && At(f.value.logical, 0x38, a) && At(f.value.logical, 0x38 + |a|, b)
            && At(f.value.logical, 0x38 + |a| + |b|, c)
  {
    hide Record, Fixup, At, Flat;
    RecordHolds(no, true, RECORD, [a, b, c], isDir);
    var s := Fixup(Record(no, true, RECORD, [a, b, c], isDir).value, 512).value.logical;
    Flat3(a, b, c);
    assert Flat([a, b, c], 0) + TERMINATOR == a + (b + (c + TERMINATOR));
    AtSplit(s, 0x38, a, b + (c + TERMINATOR));
    AtSplit(s, 0x38 + |a|, b, c + TERMINATOR);
    AtSplit(s, 0x38 + |a| + |b|, c, TERMINATOR);
  }

  lemma WholeSlice(s: seq<u8>, off: nat, d: seq<u8>)
    requires At(s, off, d)
    ensures Slice(s, off, off + |d|) == d
  {
    if d == [] {
      assert Slice(s, off, off) == [];
    }
  }

  lemma FirstOfThree(x: Attribute, y: Attribute, z: Attribute, kind: u32)
    requires x.kind != kind && (y.kind == kind || z.kind == kind)
    ensures FirstOf([x, y, z], kind, 0) == Some(if y.kind == kind then y else z)
  {
    var l := [x, y, z];
    assert FirstOf(l, kind, 1) == if y.kind == kind then Some(y) else FirstOf(l, kind, 2);
  }

  /** The stream of a record is that of its second or third attribute. */
  lemma RecordStream(image: seq<u8>, vol: Volume, n: nat, no: nat, a: seq<u8>, b: seq<u8>, c: seq<u8>, isDir: bool,
                     kind: u32)
    requires Sound(a) && Sound(b) && Sound(c) && Assembled(no, Some(a), Some(b), Some(c), isDir).Some?
    requires ReadRecord(image, vol, n) == Fixup(Assembled(no, Some(a), Some(b), Some(c), isDir).value, 512)
    requires U32(a, 0) != kind && (U32(b, 0) == kind || U32(c, 0) == kind)
    ensures StreamOf(image, vol, n, kind) == StreamIn(if U32(b, 0) == kind then b else c)
  {
    hide Record, Fixup, At, Attributes, ReadRecord, Assembled, Listed, StreamIn, U32, Slice, FirstOf, U16;
    AssembledReads(no, a, b, c, isDir);
    ListedThree(a, b, c);
    ThreeStand(no, a, b, c, isDir);
    var s := ReadRecord(image, vol, n).value.logical;
    var x, y, z := AttributeAt(a, 0).(offset := 0x38), AttributeAt(b, 0).(offset := 0x38 + |a|),
                   AttributeAt(c, 0).(offset := 0x38 + |a| + |b|);
    FirstOfThree(x, y, z, kind);
    WholeSlice(s, 0x38 + |a|, b);
    WholeSlice(s, 0x38 + |a| + |b|, c);
  }

  lemma InfoSound(t: Time)
    ensures Sound(StandardInformation(t)) && U32(StandardInformation(t), 0) == 0x10
  {
    hide Unnamed, Sound, U32;
    UnnamedReads(0x10, LE64(t) + LE64(t + 1) + LE64(t + 2) + LE64(t + 3) + LE32(0x20) + Zeros(12));
  }

  lemma NameSound(name: seq<u16>, isDir: bool, t: Time)
    requires |name| <= 255
    ensures var b := FileName(name, isDir, t).value; Sound(b) && U32(b, 0) == 0x30
  {
    hide Unnamed, Sound, U32, FileNameValue;
    UnnamedReads(0x30, FileNameValue(name, isDir, t));
  }

  // ----- what a finished image says of itself -----

  lemma Accepted(job: Job, image: seq<u8>)
    requires Finished(job, image)
    ensures job.partLba >= 0 && VolumeBytes(job) >= 0x80_0000 && AllBuild(job, Stored(job))
  {
    hide AllBuild, Laid;
  }

  lemma FewClusters(job: Job, image: seq<u8>)
    requires Finished(job, image)
    ensures |job.files| <= 8 && 4 <= MftClusters(|job.files|) < 256
  {
    hide MftRecord, Laid;
    assert Live(5, |job.files|);
    FewFiles(job, Stored(job));
  }

  lemma OneRun(image: seq<u8>, vol: Volume, st: Stream, lcn: nat, n: nat)
    requires st.runs == [Run(lcn, n)] && vol.clusterSize == CLUSTER
    requires vol.bootOffset + (lcn + n) * CLUSTER <= |image| && st.size <= n * CLUSTER
    ensures Clusters(st.runs) == n
    ensures var at := vol.bootOffset + lcn * CLUSTER; Fetched(image, vol, st) == image[at..at + st.size]
  {
    var at := vol.bootOffset + lcn * CLUSTER;
    assert st.runs[1..] == [];
    assert Clusters(st.runs[1..]) == 0 && RunBytes(image, vol, st.runs[1..]) == [];
    assert Times(n, CLUSTER) == n * CLUSTER;
    assert RunBytes(image, vol, st.runs) == Slice(image, at, at + n * CLUSTER) + [];
    assert Slice(image, at, at + n * CLUSTER) == image[at..at + n * CLUSTER];
    assert image[at..at + n * CLUSTER][0..st.size] == image[at..at + st.size];
  }

  /** Record 0: its data attribute is the MFT, its bitmap attribute the MFT's bitmap. */
  lemma MftStreams(job: Job, image: seq<u8>)
    requires Finished(job, image)
    ensures var c := MftClusters(|job.files|); var vol := VolumeOf(job);
            && StreamOf(image, vol, 0, 0x80)
               == Some(Stream(0x80, 0, c - 1, c * CLUSTER, c * CLUSTER, c * CLUSTER, [Run(4, c)]))
            && StreamOf(image, vol, 0, 0xB0) == Some(Stream(0xB0, 0, 0, CLUSTER, 16, 16, [Run(33, 1)]))
  {
    hide Finished, NonResident, StandardInformation, Sound, ReadRecord, Fixup, StreamOf, StreamIn, MftClusters, U32,
         Assembled, MftRecord, Stored, Live;
    FewClusters(job, image);
    var clusters, bytes := MftClusters(|job.files|), MftClusters(|job.files|) * CLUSTER;
    var a := StandardInformation(job.clock(0, 0));
    var b, c := NonResident(0x80, clusters, 4, bytes, bytes), NonResident(0xB0, 1, 33, CLUSTER, 16);
    RecordZero(job, image);
    BothBuild(1, Some(a), b, c, false);
    InfoSound(job.clock(0, 0));
    StreamReads(0x80, clusters, 4, bytes, bytes);
    StreamReads(0xB0, 1, 33, CLUSTER, 16);
    KindIs(b.value);
    KindIs(c.value);
    RecordStream(image, VolumeOf(job), 0, 1, a, b.value, c.value, false, 0x80);
    RecordStream(image, VolumeOf(job), 0, 1, a, b.value, c.value, false, 0xB0);
    LastOf(clusters);
  }

  lemma LastOf(n: nat)
    requires n > 0
    ensures (n * CLUSTER - 1) / CLUSTER == n - 1
  {
  }

  lemma RecordZero(job: Job, image: seq<u8>)
    requires Finished(job, image)
    ensures var n := MftClusters(|job.files|);
            var rec := Assembled(1, Some(StandardInformation(job.clock(0, 0))),
                                 NonResident(0x80, n, 4, n * CLUSTER, n * CLUSTER),
                                 NonResident(0xB0, 1, 33, CLUSTER, 16), false);
            rec.Some? && ReadRecord(image, VolumeOf(job), 0) == Fixup(rec.value, 512)
  {
    hide NonResident, StandardInformation, ReadRecord, Fixup, Laid, Assembled, AllBuild, MftClusters;
    assert Live(0, |job.files|);
    SlotRead(job, image, 0);
  }

  lemma BothBuild(no: nat, a: Option<seq<u8>>, b: Option<seq<u8>>, c: Option<seq<u8>>, isDir: bool)
    requires Assembled(no, a, b, c, isDir).Some?
    ensures a.Some? && b.Some? && c.Some?
  {
  }

  lemma KindIs(a: seq<u8>)
    requires |a| >= 24
    ensures AttributeAt(a, 0).kind == U32(a, 0)
  {
  }

  /** Room for the 24 records up to eight past the last file's, two more, and one cluster. */
  lemma MftClustersIs(n: nat)
    ensures MftClusters(n) == (n + 25) / 4 + 1
  {
  }

  /**
   Following its own mapping pair, a reader of a finished image gets the whole MFT: the run is the
   clusters it was written to, sizes and last cluster agree, and every record stands in its place.
   */
  lemma MftDescribed(job: Job, image: seq<u8>)
    requires Finished(job, image)
    ensures var vol := VolumeOf(job); var r := StreamOf(image, vol, 0, 0x80);
            && r.Some? && r.value.runs == [Run(4, MftClusters(|job.files|))] && Consistent(r.value, vol.clusterSize)
            && MftClusters(|job.files|) == (|job.files| + 25) / 4 + 1
            && vol.bootOffset + 4 * vol.clusterSize == MftOffset(job)
            && var mft := Fetched(image, vol, r.value);
               |mft| == RECORD * (4 * MftClusters(|job.files|))
               && forall n: nat | n < 4 * MftClusters(|job.files|) ::
                    At(mft, RECORD * n, MftSlot(job, Stored(job), n))
  {
    hide Finished, StreamOf, MftSlot, At, MftClusters, Fetched, Clusters, MftRecord, Live, Stored;
    Accepted(job, image);
    MftClustersIs(|job.files|);
    var vol, c := VolumeOf(job), MftClusters(|job.files|);
    FewClusters(job, image);
    MftStreams(job, image);
    var st := StreamOf(image, vol, 0, 0x80).value;
    MftInside(job, image);
    OneRun(image, vol, st, 4, c);
    assert Times(c, CLUSTER) == c * CLUSTER;
    var mft := Fetched(image, vol, st);
    forall n: nat | n < 4 * c ensures At(mft, RECORD * n, MftSlot(job, Stored(job), n)) {
      SlotStands(job, image, n);
      AtInside(image, MftOffset(job), c * CLUSTER, RECORD * n, MftSlot(job, Stored(job), n));
    }
  }

  lemma SlotStands(job: Job, image: seq<u8>, n: nat)
    requires Finished(job, image) && n < 4 * MftClusters(|job.files|)
    ensures AllBuild(job, Stored(job)) && At(image, MftOffset(job) + RECORD * n, MftSlot(job, Stored(job), n))
  {
    hide MftSlot, At, BitmapLaid, Boot, Mbr, AllBuild, MftClusters, Content;
  }

  lemma MftInside(job: Job, image: seq<u8>)
    requires Finished(job, image)
    ensures MftOffset(job) + MftClusters(|job.files|) * CLUSTER <= |image|
  {
    hide Finished, MftSlot, At, MftClusters, Stored, Live, MftRecord;
    Accepted(job, image);
    var n := 4 * MftClusters(|job.files|) - 1;
    FewClusters(job, image);
    SlotStands(job, image, n);
    InsideAt(image, MftOffset(job) + RECORD * n, MftSlot(job, Stored(job), n));
  }

  lemma InsideAt(s: seq<u8>, off: int, d: seq<u8>)
    requires At(s, off, d)
    ensures 0 <= off && off + |d| <= |s|
  {
  }

  lemma AtInside(s: seq<u8>, at: nat, n: nat, k: nat, d: seq<u8>)
    requires at + n <= |s| && k + |d| <= n && At(s, at + k, d)
    ensures At(s[at..at + n], k, d)
  {
    var part := s[at..at + n];
    forall i | 0 <= i < |d| ensures part[k..k + |d|][i] == d[i] {
      AtByte(s, at + k, d, i);
    }
  }

  /** The MFT bitmap, through its own mapping pair: it marks exactly the records the formatter counts as live. */
  lemma MftBitmapDescribed(job: Job, image: seq<u8>)
    requires Finished(job, image)
    ensures var vol := VolumeOf(job); var r := StreamOf(image, vol, 0, 0xB0);
            && r.Some? && r.value.runs == [Run(33, 1)] && Consistent(r.value, vol.clusterSize)
            && var marks := Fetched(image, vol, r.value);
               |marks| == 16 && MarksFirst(marks, 16 + |job.files|)
  {
    hide StreamOf, SlotsLaid, Boot, Mbr, AllBuild, Content, Fetched, Clusters, MarksFirst;
    var vol := VolumeOf(job);
    MftStreams(job, image);
    OneRun(image, vol, StreamOf(image, vol, 0, 0xB0).value, 33, 1);
  }

  /**
   The volume bitmap, through the mapping pair of record 6: one cluster. Sizes and last cluster
   agree with it if and only if the volume has at most 32768 clusters, and then the bytes mark
   exactly the first 35.
   */
  lemma VolumeBitmapDescribed(job: Job, image: seq<u8>)
    requires Finished(job, image)
    ensures var vol := VolumeOf(job); var r := StreamOf(image, vol, 6, 0x80);
            && r.Some? && r.value.runs == [Run(34, 1)] && r.value.size == (VolumeBytes(job) / CLUSTER + 7) / 8
            && (Consistent(r.value, vol.clusterSize) <==> VolumeBytes(job) / CLUSTER <= 32768)
            && (VolumeBytes(job) / CLUSTER <= 32768 ==>
                  var used := Fetched(image, vol, r.value); |used| == r.value.size && MarksFirst(used, 35))
  {
    hide StreamOf, SlotsLaid, Boot, Mbr, AllBuild, Content, Fetched, Clusters, MarksFirst;
    var vol := VolumeOf(job);
    VolumeStream(job, image);
    var st := StreamOf(image, vol, 6, 0x80).value;
    assert Clusters([Run(34, 1)]) == 1 by { OneCluster(34); }
    if VolumeBytes(job) / CLUSTER <= 32768 {
      OneRun(image, vol, st, 34, 1);
    }
  }

  lemma OneCluster(lcn: nat)
    ensures Clusters([Run(lcn, 1)]) == 1
  {
    assert [Run(lcn, 1)][1..] == [];
  }

  lemma VolumeStream(job: Job, image: seq<u8>)
    requires Finished(job, image)
    ensures var n := VolumeBitmapBytes(job);
            n > 0 && StreamOf(image, VolumeOf(job), 6, 0x80)
                     == Some(Stream(0x80, 0, (n - 1) / CLUSTER, CLUSTER, n, n, [Run(34, 1)]))
  {
    hide Finished, NonResident, StandardInformation, Sound, ReadRecord, Fixup, StreamOf, StreamIn, U32, Assembled,
         FileName, VolumeBitmapBytes, MftRecord;
    Accepted(job, image);
    RecordSix(job, image);
    var n := VolumeBitmapBytes(job);
    var a, b := StandardInformation(job.clock(6, 0)), FileName(BITMAP_NAME, false, job.clock(6, 1));
    var c := NonResident(0x80, 1, 34, CLUSTER, n);
    BothBuild(6, Some(a), b, c, false);
    InfoSound(job.clock(6, 0));
    NameSound(BITMAP_NAME, false, job.clock(6, 1));
    StreamReads(0x80, 1, 34, CLUSTER, n);
    KindIs(c.value);
    RecordStream(image, VolumeOf(job), 6, 6, a, b.value, c.value, false, 0x80);
  }

  lemma RecordSix(job: Job, image: seq<u8>)
    requires Finished(job, image)
    ensures VolumeBitmapBytes(job) > 0
    ensures var rec := Assembled(6, Some(StandardInformation(job.clock(6, 0))),
                                 FileName(BITMAP_NAME, false, job.clock(6, 1)),
                                 NonResident(0x80, 1, 34, CLUSTER, VolumeBitmapBytes(job)), false);
            rec.Some? && ReadRecord(image, VolumeOf(job), 6) == Fixup(rec.value, 512)
  {
    hide NonResident, StandardInformation, ReadRecord, Fixup, Laid, Assembled, AllBuild, FileName;
    assert Live(6, |job.files|);
    SlotRead(job, image, 6);
    SomeBytes(job);
  }

  lemma SomeBytes(job: Job)
    requires VolumeBytes(job) >= 0x80_0000
    ensures VolumeBitmapBytes(job) > 0
  {
  }
}
