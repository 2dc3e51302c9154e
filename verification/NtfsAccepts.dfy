/**
 Exactly which calls the NTFS formatter accepts.
 */
module NtfsAccepts {
  import opened Words
  import opened NtfsRecord
  import opened NtfsIndex
  import opened NtfsFormat
  import opened NtfsExtract

  /** Partition, volume and sector numbers within their fields. */
  predicate SizesFit(job: Job)
  {
    0 <= job.partLba < TWO32 && VolumeBytes(job) >= 0x80_0000 && VolumeBytes(job) / 512 < TWO64
    && (job.partLba > 0 ==> job.size / 512 - job.partLba < TWO32)
  }

  /** File `i`: replacement text available, and name, data and record within their limits. */
  ghost predicate FileFits(job: Job, i: nat)
    requires i < |job.files|
  {
    Content(job, i).Some? && |BaseName(job.files[i].path)| <= 255 && |Stored(job)[i]| <= 700
    && TerminatorOf(BaseName(job.files[i].path), Stored(job)[i]) <= 1020
  }

  function EntrySize(job: Job, k: nat): (n: nat)
    requires k < |job.files|
    ensures n >= 88
  {
    RoundUp8(0x52 + 2 * |BaseName(job.files[k].path)|)
  }

  /** Bytes of the root index taken by files `k` onwards. */
  function RootUse(job: Job, k: nat): (n: nat)
    decreases |job.files| - k
  {
    if k >= |job.files| then 0
    else EntrySize(job, k) + RootUse(job, k + 1)
  }

  lemma {:induction false} RootUseIs(job: Job, contents: seq<seq<u8>>, k: nat)
    requires |contents| == |job.files| && k <= |contents|
    requires forall e | e in RootEntries(job, contents) :: Packs(e)
    ensures |EntriesFrom(RootEntries(job, contents), k)| == RootUse(job, k)
    decreases |contents| - k
  {
    hide RootEntries, EntryBytes, EntrySize, RootEntryOf, RoundUp8, BodyLength;
    if k < |contents| {
      var es := RootEntries(job, contents);
      assert es[k] == RootEntryOf(job, contents, k) && es[k] in es;
      EntrySizeIs(job, contents, k);
      RootUseIs(job, contents, k + 1);
    }
  }

  lemma EntrySizeIs(job: Job, contents: seq<seq<u8>>, k: nat)
    requires k < |contents| == |job.files|
    ensures RoundUp8(BodyLength(RootEntryOf(job, contents, k))) == EntrySize(job, k)
  {
    hide BaseName;
  }

  lemma {:induction false} RootUseCounts(job: Job, k: nat)
    requires k <= |job.files|
    ensures RootUse(job, k) >= 88 * (|job.files| - k)
    decreases |job.files| - k
  {
    hide EntrySize;
    if k < |job.files| {
      RootUseCounts(job, k + 1);
    }
  }

  /** Names and stored data within their limits. */
  ghost predicate Small(job: Job, contents: seq<seq<u8>>, i: nat)
    requires i < |contents| == |job.files|
  {
    |BaseName(job.files[i].path)| <= 255 && |contents[i]| <= 700
  }

  /** When every file has a record, the root record builds if and only if 704 bytes hold its entries. */
  lemma RootBuilds(job: Job, contents: seq<seq<u8>>)
    requires |contents| == |job.files| && VolumeBytes(job) >= 0
    requires forall i: nat | i < |contents| :: Small(job, contents, i)
    ensures SystemRecord(job, contents, 5).Some? <==> RootUse(job, 0) <= 704
  {
    hide Record, StandardInformation, FileNameValue, Unnamed, RootEntries, EntriesFrom, RootHead, EndOf, RootUse, Small,
         Packs;
    var es := RootEntries(job, contents);
    var t0, t1 := job.clock(5, 0), job.clock(5, 1);
    var a, b := StandardInformation(t0), FileName(ROOT_NAME, true, t1).value;
    RootUseCounts(job, 0);
    if |contents| <= 8 {
      EntriesPack(job, contents);
      RootUseIs(job, contents, 0);
      if Buildable(es) {
        var c := IndexRoot(es).value;
        Flat3(a, b, c);
        RecordBuildsDir(5, [a, b, c]);
        RootEnd(a, b, c);
      }
    } else if SystemRecord(job, contents, 5).Some? {
      FewFiles(job, contents);
    }
  }

  lemma RecordBuildsDir(seqNo: nat, attrs: seq<seq<u8>>)
    ensures Record(seqNo, true, RECORD, attrs, true).Some? <==> seqNo < 0x1_0000 && EndOf(attrs) + 4 <= RECORD
  {
    hide Body, Protect, Flat;
  }

  lemma RootEnd(a: seq<u8>, b: seq<u8>, c: seq<u8>)
    ensures EndOf([a, b, c]) == 0x38 + |a| + |b| + |c|
  {
    Flat3(a, b, c);
  }

  lemma EntriesPack(job: Job, contents: seq<seq<u8>>)
    requires |contents| == |job.files| <= 8
    requires forall i: nat | i < |contents| :: Small(job, contents, i)
    ensures forall e | e in RootEntries(job, contents) :: Packs(e)
  {
    hide RootEntryOf, Small, Packs;
    var es := RootEntries(job, contents);
    forall e | e in es ensures Packs(e) {
      var i: nat :| i < |es| && es[i] == e;
      EntryPacks(job, contents, i);
    }
  }

  lemma EntryPacks(job: Job, contents: seq<seq<u8>>, i: nat)
    requires i < |contents| == |job.files| <= 8 && Small(job, contents, i)
    ensures Packs(RootEntryOf(job, contents, i))
  {
    hide BaseName;
  }

  /** The records that do not depend on the files always build. */
  lemma FixedRecordsBuild(job: Job, contents: seq<seq<u8>>, n: nat)
    requires |contents| == |job.files| <= 8 && VolumeBytes(job) >= 0 && VolumeBytes(job) / 512 < TWO64
    requires n == 0 || n == 3 || n == 6
    ensures SystemRecord(job, contents, n).Some?
  {
    hide Record, StandardInformation, FileNameValue, Unnamed, EndOf, Zeros;
    var a := StandardInformation(job.clock(n, 0));
    if n == 0 {
      var clusters := MftClusters(|contents|);
      assert clusters <= 9;
      ThreeBuild(1, a, NonResident(0x80, clusters, 4, clusters * CLUSTER, clusters * CLUSTER).value,
                 NonResident(0xB0, 1, 33, CLUSTER, 16).value);
    } else if n == 3 {
      ThreeBuild(3, a, FileName(VOLUME_NAME, false, job.clock(3, 1)).value, Data(Zeros(8)).value);
    } else {
      ThreeBuild(6, a, FileName(BITMAP_NAME, false, job.clock(6, 1)).value,
                 NonResident(0x80, 1, 34, CLUSTER, VolumeBitmapBytes(job)).value);
    }
  }

  lemma ThreeBuild(seqNo: nat, a: seq<u8>, b: seq<u8>, c: seq<u8>)
    requires seqNo < 0x1_0000 && |a| + |b| + |c| <= 964
    ensures Record(seqNo, true, RECORD, [a, b, c], false).Some?
  {
    hide Record, EndOf;
    RootEnd(a, b, c);
    RecordBuilds(seqNo, [a, b, c]);
  }

  /**
   The formatter accepts a call if and only if the sizes fit their fields, every file fits
   its record, and the index entries fit the root record. In particular every call with few
   enough short names and small files is accepted.
   */
  lemma AcceptsExactly(job: Job)
    ensures Accepts(job) <==>
            SizesFit(job) && (forall i: nat | i < |job.files| :: FileFits(job, i)) && RootUse(job, 0) <= 704
  {
    hide MftRecord, Stored, Content, RootUse, FileFits;
    var contents := Stored(job);
    if Accepts(job) {
      forall i: nat | i < |job.files| ensures FileFits(job, i) {
        FileFitsIfBuilt(job, i);
      }
      assert Live(5, |contents|);
      RootFitsIfBuilt(job);
    } else if SizesFit(job) && RootUse(job, 0) <= 704 && forall i: nat | i < |job.files| :: FileFits(job, i) {
      RootUseCounts(job, 0);
      forall i: nat | i < |job.files| ensures Content(job, i).Some? {
        assert FileFits(job, i);
        FitsHasContent(job, i);
      }
      forall n: nat | Live(n, |contents|) ensures MftRecord(job, contents, n).Some? {
        BuildsIfFits(job, n);
      }
    }
  }

  lemma FitsHasContent(job: Job, i: nat)
    requires i < |job.files| && FileFits(job, i)
    ensures Content(job, i).Some? && Small(job, Stored(job), i)
  {
  }

  lemma FileFitsIfBuilt(job: Job, i: nat)
    requires Accepts(job) && i < |job.files|
    ensures FileFits(job, i)
  {
    hide Stored, TerminatorOf, FileRecord, BaseName, Content;
    assert Live(16 + i, |Stored(job)|);
    assert MftRecord(job, Stored(job), 16 + i) == FileRecord(job, Stored(job), i);
    FileBuilds(job, Stored(job), i);
  }

  lemma RootFitsIfBuilt(job: Job)
    requires Accepts(job)
    ensures RootUse(job, 0) <= 704
  {
    hide Stored, SystemRecord, RootUse, FileFits, Accepts;
    forall i: nat | i < |job.files| ensures Small(job, Stored(job), i) {
      FileFitsIfBuilt(job, i);
      FitsHasContent(job, i);
    }
    RootMade(job);
    RootBuilds(job, Stored(job));
  }

  lemma RootMade(job: Job)
    requires Accepts(job)
    ensures VolumeBytes(job) >= 0 && SystemRecord(job, Stored(job), 5).Some?
  {
    hide Stored, SystemRecord;
    assert Live(5, |Stored(job)|);
    assert MftRecord(job, Stored(job), 5) == SystemRecord(job, Stored(job), 5);
  }

  lemma BuildsIfFits(job: Job, n: nat)
    requires SizesFit(job) && Live(n, |job.files|) && |job.files| <= 8
    requires RootUse(job, 0) <= 704 && forall i: nat | i < |job.files| :: FileFits(job, i)
    ensures MftRecord(job, Stored(job), n).Some?
  {
    hide Stored, RootUse, FileRecord, SystemRecord, FileFits;
    var contents := Stored(job);
    forall i: nat | i < |contents| ensures Small(job, contents, i) {
      FitsHasContent(job, i);
    }
    if n == 5 {
      RootBuilds(job, contents);
    } else if n < 16 {
      FixedRecordsBuild(job, contents, n);
    } else {
      FileBuildsIfFits(job, n - 16);
    }
  }

  lemma FileBuildsIfFits(job: Job, i: nat)
    requires i < |job.files| <= 8 && FileFits(job, i)
    ensures FileRecord(job, Stored(job), i).Some?
  {
    hide Stored, TerminatorOf, FileRecord, BaseName, Content;
    FileBuilds(job, Stored(job), i);
  }

  /** One file, with a base name of 38 units and 700 bytes of data. */
  predicate LongRecord(job: Job)
  {
    |job.files| == 1 && |BaseName(job.files[0].path)| == 38 && |job.files[0].data| == 700
  }

  /**
   The formatter accepts calls whose records the kernel's walk cannot finish: such a file makes
   an accepted call, and in every image of it the walk over the file's record misses the terminator.
   */
  lemma TerminatorMissed(job: Job)
    requires SizesFit(job) && LongRecord(job)
    ensures Accepts(job)
    ensures forall image | Finished(job, image) ::
              var rec := ReadRecord(image, VolumeOf(job), 16);
              rec.Some? && !Scan(rec.value.logical).Terminator?
  {
    hide BaseName, Scan, Fixup, Finished, ReadRecord, FileRecord;
    assert RootUse(job, 0) <= 704 by { OneEntry(job); }
    assert FileFits(job, 0) by { OneFits(job); }
    AcceptsExactly(job);
    forall image | Finished(job, image)
      ensures var rec := ReadRecord(image, VolumeOf(job), 16);
              rec.Some? && !Scan(rec.value.logical).Terminator?
    {
      MissedInImage(job, image);
    }
  }

  lemma OneEntry(job: Job)
    requires LongRecord(job)
    ensures RootUse(job, 0) <= 704
  {
    hide BaseName;
    assert EntrySize(job, 0) == 160;
    assert RootUse(job, 1) == 0;
  }

  lemma OneFits(job: Job)
    requires LongRecord(job)
    ensures FileFits(job, 0) && Stored(job)[0] == job.files[0].data
  {
    hide BaseName;
    StoredSmall(job, 0);
  }

  lemma MissedInImage(job: Job, image: seq<u8>)
    requires LongRecord(job) && Finished(job, image)
    ensures job.partLba >= 0
    ensures var rec := ReadRecord(image, VolumeOf(job), 16);
            rec.Some? && !Scan(rec.value.logical).Terminator?
  {
    hide BaseName, Scan, Fixup, ReadRecord, FileRecord, Laid, AllBuild, Stored, Content;
    assert Live(16, |job.files|);
    SlotRead(job, image, 16);
    assert MftRecord(job, Stored(job), 16) == FileRecord(job, Stored(job), 0);
    OneFits(job);
    FileTerminatorFound(job, Stored(job), 0);
  }
}
