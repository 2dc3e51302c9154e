/**
 What the append achieves: on an image whose directories have unique labels and
 whose two chains are disjoint, the file reads back as the old text with the line,
 and every other file reads as before.
 */
module Fat12Append {
  import opened Words
  import opened Fat12

  // ----- clusters -----

  /** The FAT entry of the cluster lies in the FAT. */
  predicate InFat(d: Disk, c: nat)
  {
    EntryAt(d, c) + 2 <= d.rootOff
  }

  /** The cluster lies in the image. */
  predicate InImage(img: seq<u8>, d: Disk, c: nat)
    requires c >= 2
  {
    ClusterAt(d, c) + d.chunk <= |img|
  }

  ghost predicate ChainLaid(img: seq<u8>, d: Disk, cs: seq<nat>)
  {
    forall c | c in cs :: IsData(c) && InFat(d, c) && InImage(img, d, c)
  }

  /** Nothing changed but the clusters of `cs`. */
  ghost predicate OnlyIn(img: seq<u8>, now: seq<u8>, d: Disk, cs: seq<nat>)
  {
    |now| == |img| && d.dataOff <= |img| && now[..d.dataOff] == img[..d.dataOff]
    && forall c: nat | IsData(c) && c !in cs :: Cluster(now, d, c) == Cluster(img, d, c)
  }

  lemma {:induction false} CellsApart(d: Disk, c1: nat, c2: nat)
    requires 2 <= c1 < c2
    ensures d.dataOff <= ClusterAt(d, c1) && ClusterAt(d, c1) + d.chunk <= ClusterAt(d, c2)
    decreases c2
  {
    hide Times;
    TimesNext(c2 - 3, d.chunk);
    if c1 < c2 - 1 {
      CellsApart(d, c1, c2 - 1);
    }
  }

  lemma AssignOne(img: seq<u8>, d: Disk, c: nat, b: seq<u8>)
    requires IsData(c) && InImage(img, d, c) && |b| == d.chunk
    ensures var now := Assign(img, ClusterAt(d, c), ClusterAt(d, c) + d.chunk, b);
            OnlyIn(img, now, d, [c]) && Cluster(now, d, c) == b
  {
    hide ClusterAt;
    var off := ClusterAt(d, c);
    var now := Assign(img, off, off + d.chunk, b);
    assert d.dataOff <= off by { CellsApart(d, c, c + 1); }
    assert now == img[..off] + b + img[off + d.chunk..] by {
      if off >= |img| {
        assert b == [] && img + b == img;
      }
    }
    forall x: nat | IsData(x) && x !in [c] ensures Cluster(now, d, x) == Cluster(img, d, x) {
      assert x != c;
      if x < c { CellsApart(d, x, c); } else { CellsApart(d, c, x); }
      SliceOutside(img, now, off, d.chunk, ClusterAt(d, x));
    }
  }

  lemma SliceOutside(img: seq<u8>, now: seq<u8>, off: nat, n: nat, at: nat)
    requires |now| == |img| && off + n <= |img| && (at + n <= off || off + n <= at)
    requires forall p | 0 <= p < |img| && !(off <= p < off + n) :: now[p] == img[p]
    ensures Slice(now, at, at + n) == Slice(img, at, at + n)
  {
  }

  lemma FatSame(img: seq<u8>, now: seq<u8>, d: Disk, c: nat)
    requires d.rootOff <= d.dataOff <= |img| == |now| && now[..d.dataOff] == img[..d.dataOff] && InFat(d, c)
    ensures FatEntry(now, d, c) == FatEntry(img, d, c)
  {
  }

  /** A chain whose entries lie in the FAT does not move when only data changes. */
  lemma {:induction false} ChainSame(img: seq<u8>, now: seq<u8>, d: Disk, cl: nat, seen: set<nat>)
    requires d.rootOff <= d.dataOff <= |img| == |now| && now[..d.dataOff] == img[..d.dataOff]
    requires Chain(img, d, cl, seen).Some? && forall c | c in Chain(img, d, cl, seen).value :: InFat(d, c)
    ensures Chain(now, d, cl, seen) == Chain(img, d, cl, seen)
    decreases |Unseen(seen)|
  {
    hide FatEntry, InFat;
    if InChain(cl, seen) {
      UnseenShrinks(cl, seen);
      var next := FatEntry(img, d, cl).value;
      var cs, rest := Chain(img, d, cl, seen).value, Chain(img, d, next, seen + {cl}).value;
      assert cs == [cl] + rest;
      assert cl in cs && forall c | c in rest :: c in cs;
      FatSame(img, now, d, cl);
      ChainSame(img, now, d, next, seen + {cl});
    }
  }

  lemma {:induction false} ContentSame(img: seq<u8>, now: seq<u8>, d: Disk, cs: seq<nat>, j: nat)
    requires forall c | c in cs :: c >= 2 && Cluster(now, d, c) == Cluster(img, d, c)
    ensures Content(now, d, cs, j) == Content(img, d, cs, j)
    decreases |cs| - j
  {
    hide Cluster;
    if j < |cs| {
      assert cs[j] in cs;
      ContentSame(img, now, d, cs, j + 1);
    }
  }

  lemma {:induction false} ContentCons(img: seq<u8>, d: Disk, c: nat, cs: seq<nat>, j: nat)
    requires c >= 2 && forall x | x in cs :: x >= 2
    ensures Content(img, d, [c] + cs, j + 1) == Content(img, d, cs, j)
    decreases |cs| - j
  {
    hide Cluster;
    if j < |cs| {
      assert ([c] + cs)[j + 1] == cs[j];
      ContentCons(img, d, c, cs, j + 1);
    }
  }

  lemma {:induction false} ContentLength(img: seq<u8>, d: Disk, cs: seq<nat>, j: nat)
    requires ChainLaid(img, d, cs) && j <= |cs|
    ensures |Content(img, d, cs, j)| == Times(|cs| - j, d.chunk)
    decreases |cs| - j
  {
    hide Times;
    TimesZero(d.chunk);
    if j < |cs| {
      assert cs[j] in cs;
      assert |Cluster(img, d, cs[j])| == d.chunk;
      ContentLength(img, d, cs, j + 1);
      TimesNext(|cs| - j - 1, d.chunk);
    }
  }

  lemma OnlyInTrans(img: seq<u8>, mid: seq<u8>, now: seq<u8>, d: Disk, xs: seq<nat>, ys: seq<nat>)
    requires OnlyIn(img, mid, d, xs) && OnlyIn(mid, now, d, ys)
    ensures OnlyIn(img, now, d, xs + ys)
  {
  }

  /** The chain `cs` now holds `b`, and nothing else changed. */
  ghost predicate Written(img: seq<u8>, now: seq<u8>, d: Disk, cs: seq<nat>, b: seq<u8>)
  {
    OnlyIn(img, now, d, cs) && (forall c | c in cs :: c >= 2) && Content(now, d, cs, 0) == b
  }

  lemma WrittenStep(img: seq<u8>, mid: seq<u8>, now: seq<u8>, d: Disk, c: nat, rest: seq<nat>, part: seq<u8>,
                    b: seq<u8>)
    requires IsData(c) && c !in rest && OnlyIn(img, mid, d, [c]) && Cluster(mid, d, c) == part
    requires Written(mid, now, d, rest, b)
    ensures Written(img, now, d, [c] + rest, part + b)
  {
    hide Cluster, OnlyIn;
    OnlyInTrans(img, mid, now, d, [c], rest);
    OnlyInCluster(mid, now, d, rest, c);
    ContentCons(now, d, c, rest, 0);
  }

  lemma WrittenNone(img: seq<u8>, d: Disk)
    requires d.dataOff <= |img|
    ensures Written(img, img, d, [], [])
  {
  }

  /** One step of a walk: the first cluster is overwritten, and the rest of the chain stays where it was. */
  lemma StepMeaning(img: seq<u8>, d: Disk, cl: nat, seen: set<nat>, part: seq<u8>)
    requires d.rootOff <= d.dataOff <= |img| && InChain(cl, seen) && |part| == d.chunk
    requires Chain(img, d, cl, seen).Some? && ChainLaid(img, d, Chain(img, d, cl, seen).value)
    ensures FatEntry(img, d, cl).Some? && InImage(img, d, cl)
    ensures var mid := Assign(img, ClusterAt(d, cl), ClusterAt(d, cl) + d.chunk, part);
            var next := FatEntry(img, d, cl).value;
            var rest := Chain(img, d, next, seen + {cl});
            rest.Some? && Chain(img, d, cl, seen).value == [cl] + rest.value && cl !in rest.value
            && FatEntry(mid, d, cl) == Some(next) && Chain(mid, d, next, seen + {cl}) == rest
            && ChainLaid(mid, d, rest.value) && d.dataOff <= |mid|
            && OnlyIn(img, mid, d, [cl]) && Cluster(mid, d, cl) == part
  {
    hide FatEntry, Cluster, InFat, InImage, Assign, OnlyIn, ClusterAt;
    UnseenShrinks(cl, seen);
    var next := FatEntry(img, d, cl).value;
    var cs, rest := Chain(img, d, cl, seen).value, Chain(img, d, next, seen + {cl}).value;
    assert cs == [cl] + rest;
    assert cl in cs && forall c | c in rest :: c in cs;
    var mid := Assign(img, ClusterAt(d, cl), ClusterAt(d, cl) + d.chunk, part);
    AssignOne(img, d, cl, part);
    OnlyInFacts(img, mid, d, [cl]);
    FatSame(img, mid, d, cl);
    ChainSame(img, mid, d, next, seen + {cl});
    LaidSame(img, mid, d, rest);
    ChainSound(img, d, next, seen + {cl});
  }

  /**
   Overwriting a laid-out chain with as many bytes as it holds succeeds, puts them
   there in order, and changes nothing else.
   */
  lemma {:induction false} OverwriteMeaning(img: seq<u8>, d: Disk, cl: nat, seen: set<nat>, b: seq<u8>, pos: nat,
                                            bounded: bool)
    requires d.chunk > 0 && d.rootOff <= d.dataOff <= |img|
    requires Chain(img, d, cl, seen).Some? && ChainLaid(img, d, Chain(img, d, cl, seen).value)
    requires |b| == pos + Times(|Chain(img, d, cl, seen).value|, d.chunk)
    ensures var r := Overwrite(img, d, cl, seen, b, pos, bounded);
            r.ok && Written(img, r.image, d, Chain(img, d, cl, seen).value, b[pos..])
    decreases |Unseen(seen)|
  {
    hide FatEntry, Cluster, ChainLaid, InImage, Assign, Slice, OnlyIn, ClusterAt, Times, Chain, Written, Overwrite,
         Unseen;
    TimesZero(d.chunk);
    if InChain(cl, seen) {
      UnseenShrinks(cl, seen);
      RoomLeft(img, d, cl, seen);
      var part := b[pos..pos + d.chunk];
      SliceInside(b, pos, d.chunk);
      StepMeaning(img, d, cl, seen, part);
      var next := FatEntry(img, d, cl).value;
      var rest := Chain(img, d, next, seen + {cl}).value;
      var mid := Assign(img, ClusterAt(d, cl), ClusterAt(d, cl) + d.chunk, part);
      TimesNext(|rest|, d.chunk);
      OverwriteStep(img, d, cl, seen, b, pos, bounded, next);
      OverwriteMeaning(mid, d, next, seen + {cl}, b, pos + d.chunk, bounded);
      var now := Overwrite(mid, d, next, seen + {cl}, b, pos + d.chunk, bounded).image;
      WrittenStep(img, mid, now, d, cl, rest, part, b[pos + d.chunk..]);
      assert b[pos..] == part + b[pos + d.chunk..];
    } else {
      ChainStops(img, d, cl, seen);
      WrittenNone(img, d);
      assert b[pos..] == [];
    }
  }

  lemma ChainStops(img: seq<u8>, d: Disk, cl: nat, seen: set<nat>)
    requires !InChain(cl, seen)
    ensures Chain(img, d, cl, seen) == Some([])
    ensures forall b, pos, bounded :: Overwrite(img, d, cl, seen, b, pos, bounded) == Overwritten(img, true)
  {
  }

  lemma OverwriteStep(img: seq<u8>, d: Disk, cl: nat, seen: set<nat>, b: seq<u8>, pos: nat, bounded: bool, next: nat)
    requires InChain(cl, seen) && pos < |b|
    requires var mid := Assign(img, ClusterAt(d, cl), ClusterAt(d, cl) + d.chunk, Slice(b, pos, pos + d.chunk));
             FatEntry(mid, d, cl) == Some(next)
    ensures var mid := Assign(img, ClusterAt(d, cl), ClusterAt(d, cl) + d.chunk, Slice(b, pos, pos + d.chunk));
            Overwrite(img, d, cl, seen, b, pos, bounded)
            == Overwrite(mid, d, next, seen + {cl}, b, pos + d.chunk, bounded)
  {
    hide FatEntry, ClusterAt, Assign, Slice, Unseen;
    UnseenShrinks(cl, seen);
  }

  lemma RoomLeft(img: seq<u8>, d: Disk, cl: nat, seen: set<nat>)
    requires InChain(cl, seen) && Chain(img, d, cl, seen).Some?
    ensures Times(|Chain(img, d, cl, seen).value|, d.chunk) >= d.chunk
  {
  }

  lemma SliceInside(b: seq<u8>, pos: nat, n: nat)
    requires pos + n <= |b|
    ensures Slice(b, pos, pos + n) == b[pos..pos + n]
  {
  }

  lemma OnlyInFacts(img: seq<u8>, now: seq<u8>, d: Disk, cs: seq<nat>)
    requires OnlyIn(img, now, d, cs)
    ensures |now| == |img| && d.dataOff <= |img| && now[..d.dataOff] == img[..d.dataOff]
  {
  }

  lemma OnlyInCluster(img: seq<u8>, now: seq<u8>, d: Disk, cs: seq<nat>, c: nat)
    requires OnlyIn(img, now, d, cs) && IsData(c) && c !in cs
    ensures Cluster(now, d, c) == Cluster(img, d, c)
  {
  }

  lemma LaidSame(img: seq<u8>, now: seq<u8>, d: Disk, cs: seq<nat>)
    requires |now| == |img| && ChainLaid(img, d, cs)
    ensures ChainLaid(now, d, cs)
  {
  }

  // ----- directories -----

  lemma {:induction false} FindLabelAligned(blob: seq<u8>, want: seq<nat>, i: nat)
    requires i % 32 == 0
    ensures var r := FindLabel(blob, want, i);
            r.Some? ==> r.value % 32 == 0 && HasLabel(blob, r.value, want)
    decreases |blob| - i
  {
    hide HasLabel;
    if i + 32 <= |blob| {
      FindLabelAligned(blob, want, i + 32);
    }
  }

  lemma {:induction false} FindNameAligned(blob: seq<u8>, name: seq<u8>, i: nat)
    requires i % 32 == 0
    ensures var r := FindName(blob, name, i);
            r.Some? ==> r.value % 32 == 0 && HasName(blob, r.value, name)
    decreases |blob| - i
  {
    hide HasName;
    if i + 32 <= |blob| {
      FindNameAligned(blob, name, i + 32);
    }
  }

  /** No two listed entries share a label. */
  ghost predicate UniqueLabels(blob: seq<u8>)
  {
    forall i: nat, j: nat, want: seq<nat> | i % 32 == j % 32 == 0 && In(blob, i, 32) && In(blob, j, 32)
      && HasLabel(blob, i, want) && HasLabel(blob, j, want) :: i == j
  }

  lemma UniqueHit(blob: seq<u8>, want: seq<nat>, at: nat)
    requires UniqueLabels(blob) && at % 32 == 0 && In(blob, at, 32) && HasLabel(blob, at, want)
    ensures FindLabel(blob, want, 0) == Some(at)
  {
    hide HasLabel;
    Hit(blob, want, at, 0);
    FindLabelAligned(blob, want, 0);
  }

  lemma {:induction false} Hit(blob: seq<u8>, want: seq<nat>, at: nat, i: nat)
    requires at % 32 == i % 32 == 0 && i <= at && In(blob, at, 32) && HasLabel(blob, at, want)
    ensures FindLabel(blob, want, i).Some?
    decreases at - i
  {
    hide HasLabel;
    if i < at {
      Hit(blob, want, at, i + 32);
    }
  }

  lemma ThreeBlanks()
    ensures TrimRight([0x20, 0x20, 0x20]) == []
  {
    assert TrimRight([0x20]) == TrimRight([]);
    assert [0x20, 0x20][..1] == [0x20];
    assert TrimRight([0x20, 0x20]) == TrimRight([0x20]);
    assert [0x20, 0x20, 0x20][..2] == [0x20, 0x20];
    assert TrimRight([0x20, 0x20, 0x20]) == TrimRight([0x20, 0x20]);
  }

  lemma RawLabels()
    ensures LabelOf(SETTINGS) == SETTINGS_LABEL && LabelOf(AUTORUN) == AUTORUN_LABEL
  {
    assert SETTINGS[8..] == [0x20, 0x20, 0x20];
    ThreeBlanks();
    assert UpperText(SETTINGS[..8]) == SETTINGS_LABEL;
    var base: seq<u8> := [0x41, 0x55, 0x54, 0x4F, 0x52, 0x55, 0x4E];
    assert AUTORUN[..8][..7] == base;
    assert TrimRight(base) == base;
    assert TrimRight(AUTORUN[..8]) == base;
    assert AUTORUN[8..] == [0x44, 0x41, 0x54];
    assert UpperText(base + [0x2E] + [0x44, 0x41, 0x54]) == AUTORUN_LABEL;
  }

  /** An entry found by its raw name is the one its label finds. */
  lemma NameHitsLabel(blob: seq<u8>, name: seq<u8>, at: nat)
    requires UniqueLabels(blob) && |name| == 11 && name[0] != 0 && name[0] != 0xE5
    requires FindName(blob, name, 0) == Some(at)
    ensures at % 32 == 0 && FindLabel(blob, LabelOf(name), 0) == Some(at)
  {
    hide LabelOf, UniqueLabels, FindLabel;
    FindNameAligned(blob, name, 0);
    assert blob[at] == blob[at..at + 11][0];
    assert HasLabel(blob, at, LabelOf(name));
    UniqueHit(blob, LabelOf(name), at);
  }

  /** Resizing one entry leaves every entry's name, attributes and cluster alone, and the other sizes. */
  lemma ResizedEntry(dir: seq<u8>, at: nat, size: u32, i: nat)
    requires at % 32 == i % 32 == 0 && In(dir, at, 32) && In(dir, i, 32)
    ensures var now := Resized(dir, at, size);
            now[i..i + 11] == dir[i..i + 11] && now[i] == dir[i] && now[i + 11] == dir[i + 11]
            && FirstCluster(now, i) == FirstCluster(dir, i)
            && FileSize(now, i) == if i == at then size else FileSize(dir, i)
  {
    hide U16, U32;
    var now := Resized(dir, at, size);
    assert i < at || i == at || i > at;
    assert i != at ==> i + 32 <= at || at + 32 <= i;
    ResizedBytes(dir, at, size);
    assert At(now, i, dir[i..i + 28]) && At(dir, i, dir[i..i + 28]);
    AtFields(now, i, dir[i..i + 28], 26);
    AtFields(dir, i, dir[i..i + 28], 26);
    if i == at {
      LE32RoundTrip(size);
      assert At(now, at + 28, LE32(size));
      AtFields(now, at + 28, LE32(size), 0);
    } else {
      assert At(now, i + 28, dir[i + 28..i + 32]) && At(dir, i + 28, dir[i + 28..i + 32]);
      AtFields(now, i + 28, dir[i + 28..i + 32], 0);
      AtFields(dir, i + 28, dir[i + 28..i + 32], 0);
    }
  }

  lemma ResizedBytes(dir: seq<u8>, at: nat, size: u32)
    requires In(dir, at, 32)
    ensures forall p | 0 <= p < |dir| && !(at + 28 <= p < at + 32) :: Resized(dir, at, size)[p] == dir[p]
    ensures Resized(dir, at, size)[at + 28..at + 32] == LE32(size)
  {
  }

  lemma {:induction false} ResizedFind(dir: seq<u8>, at: nat, size: u32, want: seq<nat>, i: nat)
    requires at % 32 == i % 32 == 0 && In(dir, at, 32)
    ensures FindLabel(Resized(dir, at, size), want, i) == FindLabel(dir, want, i)
    decreases |dir| - i
  {
    hide Resized, LabelOf, FileSize, FirstCluster;
    if i + 32 <= |dir| {
      ResizedEntry(dir, at, size, i);
      ResizedFind(dir, at, size, want, i + 32);
    }
  }

  // ----- well-formed images -----

  /** The settings directory at `first`: laid out, labels unique, its own chain apart from the file's. */
  ghost predicate DirFormed(img: seq<u8>, d: Disk, first: nat)
  {
    var cs := Chain(img, d, first, {});
    cs.Some? && ChainLaid(img, d, cs.value)
    && var dir := Content(img, d, cs.value, 0);
       UniqueLabels(dir)
       && var a := FindName(dir, AUTORUN, 0);
          a.Some? ==> FileFormed(img, d, cs.value, FirstCluster(dir, a.value))
  }

  ghost predicate FileFormed(img: seq<u8>, d: Disk, others: seq<nat>, first: nat)
  {
    var cs := Chain(img, d, first, {});
    cs.Some? && ChainLaid(img, d, cs.value) && forall c | c in cs.value :: c !in others
  }

  ghost predicate WellFormed(img: seq<u8>)
  {
    DiskOf(img).Some?
    && var d := DiskOf(img).value;
       24 <= d.fatOff && d.dataOff <= |img| && d.chunk > 0 && UniqueLabels(RootBytes(img, d))
       && var s := FindName(RootBytes(img, d), SETTINGS, 0);
          s.Some? ==> DirFormed(img, d, FirstCluster(RootBytes(img, d), s.value))
  }

  // ----- what an append does to such an image -----

  /** The append's target: entry `at` of the directory `dir`, kept in `dirChain`; the file in `fileChain`. */
  datatype Target = Target(d: Disk, root: seq<u8>, settings: nat, dirChain: seq<nat>, dir: seq<u8>, at: nat,
                           fileChain: seq<nat>)

  ghost predicate TargetOf(img: seq<u8>, t: Target)
  {
    DiskOf(img) == Some(t.d) && t.root == RootBytes(img, t.d)
    && FindName(t.root, SETTINGS, 0) == Some(t.settings)
    && Chain(img, t.d, FirstCluster(t.root, t.settings), {}) == Some(t.dirChain)
    && ChainLaid(img, t.d, t.dirChain) && Content(img, t.d, t.dirChain, 0) == t.dir
    && FindName(t.dir, AUTORUN, 0) == Some(t.at)
    && Chain(img, t.d, FirstCluster(t.dir, t.at), {}) == Some(t.fileChain)
    && ChainLaid(img, t.d, t.fileChain)
  }

  /** The image after storing `text` in the target. */
  ghost predicate StoredIn(img: seq<u8>, now: seq<u8>, t: Target, text: seq<u8>)
    requires TargetOf(img, t)
  {
    OnlyIn(img, now, t.d, t.fileChain + t.dirChain) && |text| <= Times(|t.fileChain|, t.d.chunk) && |text| < TWO32
    && Content(now, t.d, t.dirChain, 0) == Resized(t.dir, t.at, |text|)
    && Content(now, t.d, t.fileChain, 0) == text + Zeros(Times(|t.fileChain|, t.d.chunk) - |text|)
  }

  lemma TargetExists(img: seq<u8>, text: seq<u8>) returns (t: Target)
    requires WellFormed(img) && DiskOf(img).Some?
    requires Rewritten(img, DiskOf(img).value, text).Done? && Rewritten(img, DiskOf(img).value, text).ok
    ensures TargetOf(img, t) && UniqueLabels(t.dir) && forall c | c in t.fileChain :: c !in t.dirChain
    ensures Rewritten(img, t.d, text) == RewrittenIn(img, t.d, FirstCluster(t.root, t.settings), t.dir, text)
  {
    hide Chain, Content, FindName, FirstCluster, UniqueLabels, InFat, InImage, DiskOf, Overwrite, Resized;
    var d := DiskOf(img).value;
    var root := RootBytes(img, d);
    var s := FindName(root, SETTINGS, 0);
    var cs := Chain(img, d, FirstCluster(root, s.value), {});
    var dir := Content(img, d, cs.value, 0);
    var a := FindName(dir, AUTORUN, 0);
    t := Target(d, root, s.value, cs.value, dir, a.value, Chain(img, d, FirstCluster(dir, a.value), {}).value);
  }

  lemma Stores(img: seq<u8>, t: Target, text: seq<u8>)
    requires WellFormed(img) && TargetOf(img, t) && forall c | c in t.fileChain :: c !in t.dirChain
    requires var r := RewrittenIn(img, t.d, FirstCluster(t.root, t.settings), t.dir, text); r.Done? && r.ok
    ensures StoredIn(img, RewrittenIn(img, t.d, FirstCluster(t.root, t.settings), t.dir, text).image, t, text)
  {
    hide Chain, Content, FindName, UniqueLabels, ChainLaid, DirFormed, Overwrite, Resized, OnlyIn, FirstCluster,
         DiskOf;
    var d := t.d;
    assert d.rootOff <= d.dataOff by { DiskOrder(img); }
    var first, dirFirst := FirstCluster(t.dir, t.at), FirstCluster(t.root, t.settings);
    var room := Times(|t.fileChain|, d.chunk);
    var b := text + Zeros(room - |text|);
    OverwriteMeaning(img, d, first, {}, b, 0, false);
    var one := Overwrite(img, d, first, {}, b, 0, false).image;
    assert b[0..] == b;
    assert Written(img, one, d, t.fileChain, b);
    OnlyInFacts(img, one, d, t.fileChain);
    LaidSame(img, one, d, t.fileChain);
    SecondWrite(img, one, t, |text|);
    var two := Overwrite(one, d, dirFirst, {}, Resized(t.dir, t.at, |text|), 0, true).image;
    OnlyInTrans(img, one, two, d, t.fileChain, t.dirChain);
    FileKept(one, two, t);
  }

  lemma DiskOrder(img: seq<u8>)
    requires DiskOf(img).Some?
    ensures DiskOf(img).value.rootOff <= DiskOf(img).value.dataOff
  {
  }

  lemma SecondWrite(img: seq<u8>, one: seq<u8>, t: Target, size: u32)
    requires TargetOf(img, t) && OnlyIn(img, one, t.d, t.fileChain)
    requires t.d.chunk > 0 && t.d.rootOff <= t.d.dataOff <= |img|
    ensures var r := Overwrite(one, t.d, FirstCluster(t.root, t.settings), {}, Resized(t.dir, t.at, size), 0, true);
            r.ok && OnlyIn(one, r.image, t.d, t.dirChain)
            && Content(r.image, t.d, t.dirChain, 0) == Resized(t.dir, t.at, size)
  {
    hide Chain, Content, FindName, Overwrite, Resized, OnlyIn, FirstCluster, DiskOf, InImage;
    var first := FirstCluster(t.root, t.settings);
    var b := Resized(t.dir, t.at, size);
    OnlyInFacts(img, one, t.d, t.fileChain);
    ChainSame(img, one, t.d, first, {});
    LaidSame(img, one, t.d, t.dirChain);
    ContentLength(img, t.d, t.dirChain, 0);
    OverwriteMeaning(one, t.d, first, {}, b, 0, true);
    assert b[0..] == b;
    assert Written(one, Overwrite(one, t.d, first, {}, b, 0, true).image, t.d, t.dirChain, b);
  }

  lemma FileKept(one: seq<u8>, two: seq<u8>, t: Target)
    requires OnlyIn(one, two, t.d, t.dirChain) && ChainLaid(one, t.d, t.fileChain)
    requires forall c | c in t.fileChain :: c !in t.dirChain
    ensures Content(two, t.d, t.fileChain, 0) == Content(one, t.d, t.fileChain, 0)
  {
    hide Cluster;
    ContentSame(one, two, t.d, t.fileChain, 0);
  }

  // ----- reading the result -----

  lemma DiskSame(img: seq<u8>, now: seq<u8>, head: seq<u8>)
    requires |head| >= 24 && At(img, 0, head) && At(now, 0, head)
    ensures DiskOf(now) == DiskOf(img)
  {
    hide Times, U16, At;
    SameField(img, now, head, 11);
    SameField(img, now, head, 13);
    SameField(img, now, head, 14);
    SameField(img, now, head, 16);
    SameField(img, now, head, 17);
    SameField(img, now, head, 22);
  }

  lemma SameField(img: seq<u8>, now: seq<u8>, head: seq<u8>, k: nat)
    requires k + 2 <= |head| && At(img, 0, head) && At(now, 0, head)
    ensures |head| <= |img| && |head| <= |now| && img[k] == now[k] && U16(img, k) == U16(now, k)
  {
  }

  lemma LayoutSame(img: seq<u8>, now: seq<u8>, d: Disk, cs: seq<nat>)
    requires DiskOf(img) == Some(d) && 24 <= d.fatOff && OnlyIn(img, now, d, cs)
    ensures DiskOf(now) == Some(d) && RootBytes(now, d) == RootBytes(img, d)
  {
    assert d.fatOff <= d.rootOff && d.dataOff == d.rootOff + d.rootSize;
    hide DiskOf, Cluster;
    var head := img[..d.dataOff];
    assert At(img, 0, head) && At(now, 0, head);
    DiskSame(img, now, head);
    AtSlice(img, 0, head, d.rootOff, d.dataOff);
    AtSlice(now, 0, head, d.rootOff, d.dataOff);
  }

  lemma TargetHits(img: seq<u8>, t: Target)
    requires TargetOf(img, t) && UniqueLabels(t.root) && UniqueLabels(t.dir)
    ensures t.settings % 32 == t.at % 32 == 0
    ensures FindLabel(t.root, SETTINGS_LABEL, 0) == Some(t.settings)
    ensures FindLabel(t.dir, AUTORUN_LABEL, 0) == Some(t.at)
  {
    hide Chain, Content, FindName, FindLabel, UniqueLabels, ChainLaid, LabelOf, DiskOf;
    RawLabels();
    NameHitsLabel(t.root, SETTINGS, t.settings);
    NameHitsLabel(t.dir, AUTORUN, t.at);
  }

  /** The chain bytes of the directory and the file, before and after. */
  lemma TargetChains(img: seq<u8>, now: seq<u8>, t: Target, text: seq<u8>)
    requires TargetOf(img, t) && StoredIn(img, now, t, text) && t.d.rootOff <= t.d.dataOff
    ensures ChainBytes(img, t.d, FirstCluster(t.root, t.settings)) == Some(t.dir)
    ensures ChainBytes(now, t.d, FirstCluster(t.root, t.settings)) == Some(Resized(t.dir, t.at, |text|))
    ensures ChainBytes(now, t.d, FirstCluster(t.dir, t.at))
            == Some(text + Zeros(Times(|t.fileChain|, t.d.chunk) - |text|))
  {
    hide Chain, Content, FindName, DiskOf, FirstCluster, Resized, OnlyIn, InImage;
    OnlyInFacts(img, now, t.d, t.fileChain + t.dirChain);
    ChainSame(img, now, t.d, FirstCluster(t.root, t.settings), {});
    ChainSame(img, now, t.d, FirstCluster(t.dir, t.at), {});
  }

  /** After the store the path leads to the new text. */
  lemma TargetReads(img: seq<u8>, now: seq<u8>, t: Target, text: seq<u8>)
    requires TargetOf(img, t) && UniqueLabels(t.root) && UniqueLabels(t.dir) && 24 <= t.d.fatOff
    requires t.d.rootOff <= t.d.dataOff && StoredIn(img, now, t, text)
    requires FileAt(img, AUTORUN_PATH).Got?
    ensures FileAt(now, AUTORUN_PATH) == Got(text)
  {
    hide Chain, Content, FindName, FindLabel, UniqueLabels, ChainLaid, LabelOf, DiskOf, ChainBytes, FirstCluster,
         FileSize, Resized, RootBytes, OnlyIn;
    TargetHits(img, t);
    LayoutSame(img, now, t.d, t.fileChain + t.dirChain);
    TargetChains(img, now, t, text);
    var dir := Resized(t.dir, t.at, |text|);
    ResizedFind(t.dir, t.at, |text|, AUTORUN_LABEL, 0);
    ResizedEntry(t.dir, t.at, |text|, t.at);
    var all := text + Zeros(Times(|t.fileChain|, t.d.chunk) - |text|);
    assert ReadFrom(img, t.d, t.root, AUTORUN_PATH, 0) == ReadFrom(img, t.d, t.dir, AUTORUN_PATH, 1);
    assert !IsDir(t.dir, t.at);
    assert ReadFrom(now, t.d, dir, AUTORUN_PATH, 1) == Got(Slice(all, 0, |text|));
    assert Slice(all, 0, |text|) == text;
    assert ReadFrom(now, t.d, t.root, AUTORUN_PATH, 0) == ReadFrom(now, t.d, dir, AUTORUN_PATH, 1);
  }

  /**
   A successful append of a line the file does not have yet reads back as the old text,
   a separator if it did not end a line, the line and a line end.
   */
  lemma AppendReadsBack(img: seq<u8>, line: seq<u8>, text: seq<u8>)
    requires WellFormed(img) && FileAt(img, AUTORUN_PATH) == Got(text) && !Present(text, line)
    requires AppendedTo(img, line).Done? && AppendedTo(img, line).ok
    ensures FileAt(AppendedTo(img, line).image, AUTORUN_PATH) == Got(WithLine(text, line))
  {
    hide FileAt, Present, WithLine, Rewritten, RewrittenIn, DirFormed, UniqueLabels, DiskOf, TargetOf, StoredIn;
    var t := TargetExists(img, WithLine(text, line));
    assert t.d == DiskOf(img).value && t.root == RootBytes(img, t.d) by { TargetDisk(img, t); }
    DiskOrder(img);
    Stores(img, t, WithLine(text, line));
    TargetReads(img, AppendedTo(img, line).image, t, WithLine(text, line));
  }

  lemma TargetDisk(img: seq<u8>, t: Target)
    requires TargetOf(img, t)
    ensures DiskOf(img) == Some(t.d) && t.root == RootBytes(img, t.d)
  {
  }

  /** What storing a text in the target comes to: no room, too long for the size field, or done. */
  lemma StoreOutcome(img: seq<u8>, t: Target, text: seq<u8>)
    requires WellFormed(img) && TargetOf(img, t)
    ensures var r := RewrittenIn(img, t.d, FirstCluster(t.root, t.settings), t.dir, text);
            && (r.Done? <==> |text| > Times(|t.fileChain|, t.d.chunk) || |text| < TWO32)
            && (r.Done? ==> (r.ok <==> |text| <= Times(|t.fileChain|, t.d.chunk)))
  {
    hide Chain, Content, FindName, UniqueLabels, ChainLaid, DirFormed, Overwrite, Resized, OnlyIn, FirstCluster,
         DiskOf, Times;
    var d := t.d;
    assert d.rootOff <= d.dataOff by { DiskOrder(img); }
    var first := FirstCluster(t.dir, t.at);
    var room := Times(|t.fileChain|, d.chunk);
    if |text| <= room {
      var b := text + Zeros(room - |text|);
      OverwriteMeaning(img, d, first, {}, b, 0, false);
      var one := Overwrite(img, d, first, {}, b, 0, false).image;
      assert b[0..] == b;
      assert Written(img, one, d, t.fileChain, b);
      if |text| < TWO32 {
        SecondWrite(img, one, t, |text|);
      }
    }
  }

  /** The bytes the file's clusters hold, if the writer finds directory and file by their raw names. */
  function Capacity(img: seq<u8>): (room: Option<nat>)
  {
    if DiskOf(img).None? then None
    else
      var d := DiskOf(img).value;
      var root := RootBytes(img, d);
      var s := FindName(root, SETTINGS, 0);
      if s.None? then None else CapacityIn(img, d, FirstCluster(root, s.value))
  }

  function CapacityIn(img: seq<u8>, d: Disk, first: nat): (room: Option<nat>)
  {
    var dir := ChainBytes(img, d, first);
    if dir.None? then None
    else
      var a := FindName(dir.value, AUTORUN, 0);
      if a.None? then None
      else
        var cs := Chain(img, d, FirstCluster(dir.value, a.value), {});
        if cs.None? then None else Some(Times(|cs.value|, d.chunk))
  }

  /** On a well-formed image the writer either finds a target or gives up without a trace. */
  lemma TargetOrNone(img: seq<u8>, text: seq<u8>) returns (t: Target)
    requires WellFormed(img)
    ensures if Capacity(img).None? then Rewritten(img, DiskOf(img).value, text) == Done(false, img)
            else TargetOf(img, t) && Capacity(img) == Some(Times(|t.fileChain|, t.d.chunk))
  {
    hide Chain, Content, FindName, FirstCluster, UniqueLabels, InFat, InImage, DiskOf, Overwrite, Resized, Times;
    var d := DiskOf(img).value;
    var root := RootBytes(img, d);
    var s := FindName(root, SETTINGS, 0);
    t := Target(d, root, 0, [], [], 0, []);
    if s.Some? {
      var cs := Chain(img, d, FirstCluster(root, s.value), {});
      var dir := Content(img, d, cs.value, 0);
      var a := FindName(dir, AUTORUN, 0);
      if a.Some? {
        t := Target(d, root, s.value, cs.value, dir, a.value, Chain(img, d, FirstCluster(dir, a.value), {}).value);
      }
    }
  }

  /**
   An append of a new line to a well-formed image whose file the reader finds by its labels:
   with no directory or file of the raw name it reports failure and changes nothing; otherwise
   it succeeds if and only if the text with the line fits the clusters of the file and the size
   field, reports failure exactly when it does not fit the clusters, and raises otherwise.
   */
  lemma AppendOutcome(img: seq<u8>, line: seq<u8>, text: seq<u8>)
    requires WellFormed(img) && FileAt(img, AUTORUN_PATH) == Got(text) && !Present(text, line)
    ensures var n := |WithLine(text, line)|;
            match Capacity(img)
            case None => AppendedTo(img, line) == Done(false, img)
            case Some(room) =>
              match AppendedTo(img, line)
              case Done(ok, _) => (n > room || n < TWO32) && (ok <==> n <= room)
              case Failed(_) => n <= room && n >= TWO32
  {
    hide FileAt, Present, WithLine, RewrittenIn, DirFormed, UniqueLabels, StoredIn, FindName, Chain, Content, ChainLaid,
         FirstCluster, DiskOf, Times, RootBytes, Capacity;
    var t := TargetOrNone(img, WithLine(text, line));
    if Capacity(img).Some? {
      StoreOutcome(img, t, WithLine(text, line));
      ChainBytesOf(img, t);
    }
  }

  /** A directory named in lower case is found by its label and not by its raw name. */
  lemma LowerCaseLabel()
    ensures var raw: seq<u8> := [0x73, 0x65, 0x74, 0x74, 0x69, 0x6E, 0x67, 0x73, 0x20, 0x20, 0x20];
            raw != SETTINGS && LabelOf(raw) == SETTINGS_LABEL
  {
    var raw: seq<u8> := [0x73, 0x65, 0x74, 0x74, 0x69, 0x6E, 0x67, 0x73, 0x20, 0x20, 0x20];
    assert raw[0] != SETTINGS[0];
    assert raw[8..] == [0x20, 0x20, 0x20];
    ThreeBlanks();
    assert UpperText(raw[..8]) == SETTINGS_LABEL;
  }

  lemma ChainBytesOf(img: seq<u8>, t: Target)
    requires TargetOf(img, t)
    ensures ChainBytes(img, t.d, FirstCluster(t.root, t.settings)) == Some(t.dir)
  {
    hide Chain, Content, FindName, DiskOf, FirstCluster;
  }

  /** An append that reports failure, or finds the line already there, leaves the image as it was. */
  lemma UnchangedUnlessStored(img: seq<u8>, line: seq<u8>)
    requires AppendedTo(img, line).Done?
    requires !AppendedTo(img, line).ok || (FileAt(img, AUTORUN_PATH).Got?
                                           && Present(FileAt(img, AUTORUN_PATH).bytes, line))
    ensures AppendedTo(img, line).image == img
  {
  }

  // ----- every other file -----

  /** The chain from `cl` is in the FAT and meets neither the file nor the directory written. */
  ghost predicate Elsewhere(img: seq<u8>, t: Target, cl: nat)
  {
    var cs := Chain(img, t.d, cl, {});
    cs.Some? && forall c | c in cs.value :: InFat(t.d, c) && c !in t.fileChain && c !in t.dirChain
  }

  /**
   Resolving `parts` from component `k` in `blob` stays clear of the append: each chain
   followed is elsewhere, or is the settings directory itself, and the path does not end at
   the entry appended to. `inDir` says that `blob` is the settings directory.
   */
  ghost predicate Clear(img: seq<u8>, t: Target, blob: seq<u8>, inDir: bool, parts: seq<seq<nat>>, k: nat)
    requires TargetOf(img, t)
    decreases |parts| - k
  {
    k < |parts| ==>
      var hit := FindLabel(blob, parts[k], 0);
      hit.Some? && IsDir(blob, hit.value) != (k == |parts| - 1) ==>
        var cl := FirstCluster(blob, hit.value);
        if k == |parts| - 1 then Elsewhere(img, t, cl) && !(inDir && hit.value == t.at)
        else if cl == FirstCluster(t.root, t.settings) then Clear(img, t, t.dir, true, parts, k + 1)
        else Elsewhere(img, t, cl) && Clear(img, t, ChainBytes(img, t.d, cl).value, false, parts, k + 1)
  }

  /** A directory as it reads after the append. */
  function After(t: Target, blob: seq<u8>, inDir: bool, size: u32): (b: seq<u8>)
    requires In(t.dir, t.at, 32)
  {
    if inDir then Resized(t.dir, t.at, size) else blob
  }

  lemma ElsewhereSame(img: seq<u8>, now: seq<u8>, t: Target, cl: nat)
    requires Elsewhere(img, t, cl) && OnlyIn(img, now, t.d, t.fileChain + t.dirChain)
    requires t.d.rootOff <= t.d.dataOff
    ensures ChainBytes(img, t.d, cl).Some? && ChainBytes(now, t.d, cl) == ChainBytes(img, t.d, cl)
  {
    hide Chain, Content, Cluster, InFat;
    var cs := Chain(img, t.d, cl, {}).value;
    ChainSame(img, now, t.d, cl, {});
    ChainSound(img, t.d, cl, {});
    forall c | c in cs ensures c >= 2 && Cluster(now, t.d, c) == Cluster(img, t.d, c) {
      assert c !in t.fileChain + t.dirChain;
    }
    ContentSame(img, now, t.d, cs, 0);
  }

  /** The entry a label leads to, before and after. */
  lemma AfterHit(t: Target, blob: seq<u8>, inDir: bool, size: u32, want: seq<nat>)
    requires In(t.dir, t.at, 32) && t.at % 32 == 0 && (inDir ==> blob == t.dir)
    ensures var now := After(t, blob, inDir, size);
            var hit := FindLabel(blob, want, 0);
            FindLabel(now, want, 0) == hit
            && (hit.Some? ==> IsDir(now, hit.value) == IsDir(blob, hit.value)
                              && FirstCluster(now, hit.value) == FirstCluster(blob, hit.value)
                              && (!(inDir && hit.value == t.at) ==>
                                    FileSize(now, hit.value) == FileSize(blob, hit.value)))
  {
    hide FindLabel, Resized, FirstCluster, FileSize;
    if inDir {
      ResizedFind(t.dir, t.at, size, want, 0);
      FindLabelAligned(t.dir, want, 0);
      var hit := FindLabel(blob, want, 0);
      if hit.Some? {
        ResizedEntry(t.dir, t.at, size, hit.value);
      }
    }
  }

  lemma {:induction false} ReadsSame(img: seq<u8>, now: seq<u8>, t: Target, text: seq<u8>, blob: seq<u8>,
                                     inDir: bool, parts: seq<seq<nat>>, k: nat)
    requires TargetOf(img, t) && t.at % 32 == 0 && StoredIn(img, now, t, text) && t.d.rootOff <= t.d.dataOff
    requires inDir ==> blob == t.dir
    requires Clear(img, t, blob, inDir, parts, k)
    ensures ReadFrom(now, t.d, After(t, blob, inDir, |text|), parts, k) == ReadFrom(img, t.d, blob, parts, k)
    decreases |parts| - k
  {
    hide Chain, Content, FindName, FindLabel, ChainLaid, DiskOf, ChainBytes, FirstCluster, FileSize, Resized,
         RootBytes, OnlyIn, IsDir, Elsewhere, After;
    if k < |parts| {
      AfterHit(t, blob, inDir, |text|, parts[k]);
      var hit := FindLabel(blob, parts[k], 0);
      if hit.Some? && IsDir(blob, hit.value) != (k == |parts| - 1) {
        var cl := FirstCluster(blob, hit.value);
        TargetChains(img, now, t, text);
        if k < |parts| - 1 && cl == FirstCluster(t.root, t.settings) {
          AfterIs(t, |text|);
          ReadsSame(img, now, t, text, t.dir, true, parts, k + 1);
        } else {
          ElsewhereSame(img, now, t, cl);
          if k < |parts| - 1 {
            var bytes := ChainBytes(img, t.d, cl).value;
            AfterIsSame(t, bytes, |text|);
            ReadsSame(img, now, t, text, bytes, false, parts, k + 1);
          }
        }
      }
    }
  }

  lemma AfterIs(t: Target, size: u32)
    requires In(t.dir, t.at, 32)
    ensures After(t, t.dir, true, size) == Resized(t.dir, t.at, size)
  {
  }

  lemma AfterIsSame(t: Target, blob: seq<u8>, size: u32)
    requires In(t.dir, t.at, 32)
    ensures After(t, blob, false, size) == blob
  {
  }

  /** Every path that stays clear of the append reads the same before and after it. */
  lemma OthersUnchanged(img: seq<u8>, line: seq<u8>, t: Target, parts: seq<seq<nat>>)
    requires WellFormed(img) && AppendedTo(img, line).Done?
    requires TargetOf(img, t) && Clear(img, t, t.root, false, parts, 0)
    ensures FileAt(AppendedTo(img, line).image, parts) == FileAt(img, parts)
  {
    hide FileAt, Present, Rewritten, DirFormed, UniqueLabels, DiskOf, TargetOf, Clear;
    var was := FileAt(img, AUTORUN_PATH);
    if AppendedTo(img, line).ok && was.Got? && !Present(was.bytes, line) {
      StoreClear(img, t, WithLine(was.bytes, line), parts);
    } else {
      UnchangedUnlessStored(img, line);
    }
  }

  lemma StoreClear(img: seq<u8>, t: Target, text: seq<u8>, parts: seq<seq<nat>>)
    requires WellFormed(img) && TargetOf(img, t) && Clear(img, t, t.root, false, parts, 0)
    requires var r := Rewritten(img, DiskOf(img).value, text); r.Done? && r.ok
    ensures FileAt(Rewritten(img, DiskOf(img).value, text).image, parts) == FileAt(img, parts)
  {
    hide UniqueLabels, DiskOf, RewrittenIn, Clear, ReadFrom, Chain, Content, FindName, ChainLaid, FirstCluster,
         RootBytes, OnlyIn, Resized, After;
    var u := TargetExists(img, text);
    assert u == t;
    TargetHits(img, t);
    Stores(img, t, text);
    var now := Rewritten(img, t.d, text).image;
    DiskOrder(img);
    LayoutSame(img, now, t.d, t.fileChain + t.dirChain);
    AfterIsSame(t, t.root, |text|);
    ReadsSame(img, now, t, text, t.root, false, parts, 0);
  }

  // ----- the line that is appended -----

  /** Stripping cuts off exactly the blanks at both ends. */
  lemma {:induction false} StripCuts(s: seq<u8>) returns (l: nat, r: nat)
    ensures l <= r <= |s| && Strip(s) == s[l..r]
    ensures forall i | 0 <= i < l || r <= i < |s| :: BlankLatin1(s[i])
    ensures l < r ==> !BlankLatin1(s[l]) && !BlankLatin1(s[r - 1])
    decreases |s|
  {
    hide BlankLatin1;
    if s == [] {
      l, r := 0, 0;
    } else if BlankLatin1(s[0]) {
      l, r := StripCuts(s[1..]);
      l, r := l + 1, r + 1;
      assert forall i | 1 <= i < |s| :: s[i] == s[1..][i - 1];
    } else if BlankLatin1(s[|s| - 1]) {
      l, r := StripCuts(s[..|s| - 1]);
      assert forall i | 0 <= i < |s| - 1 :: s[i] == s[..|s| - 1][i];
    } else {
      l, r := 0, |s|;
    }
  }

  /** What is written: the old text, a line end if it has none, the stripped line, a line end. */
  lemma LineAdded(text: seq<u8>, line: seq<u8>) returns (l: nat, r: nat)
    ensures l <= r <= |line|
    ensures forall i | 0 <= i < l || r <= i < |line| :: BlankLatin1(line[i])
    ensures l < r ==> !BlankLatin1(line[l]) && !BlankLatin1(line[r - 1])
    ensures var ended := text != [] && text[|text| - 1] in {10, 13};
            WithLine(text, line) == text + (if ended then [] else [13, 10]) + line[l..r] + [13, 10]
  {
    l, r := StripCuts(line);
  }

  predicate HasCrLf(s: seq<u8>)
  {
    exists i | 0 <= i < |s| - 1 :: s[i] == 13 && s[i + 1] == 10
  }

  lemma TailHasToo(s: seq<u8>)
    requires s != []
    ensures HasCrLf(s[1..]) ==> HasCrLf(s)
  {
    if HasCrLf(s[1..]) {
      var i :| 0 <= i < |s[1..]| - 1 && s[1..][i] == 13 && s[1..][i + 1] == 10;
      var j := i + 1;
      assert s[j] == 13 && s[j + 1] == 10;
    }
  }

  lemma {:induction false} UnixKeeps(s: seq<u8>)
    requires !HasCrLf(s)
    ensures Unix(s) == s
  {
    if |s| >= 2 {
      assert !(s[0] == 13 && s[1] == 10);
      TailHasToo(s);
      UnixKeeps(s[1..]);
    }
  }

  /** Line ends are replaced piece by piece where no piece cuts one in two. */
  lemma {:induction false} UnixJoins(a: seq<u8>, b: seq<u8>)
    requires !(a != [] && b != [] && a[|a| - 1] == 13 && b[0] == 10)
    ensures Unix(a + b) == Unix(a) + Unix(b)
    decreases |a|
  {
    hide Unix;
    var s := a + b;
    UnixShort(a, b);
    if a == [] {
      assert s == b;
    } else if |a| == 1 && b == [] {
      assert s == a;
    } else {
      UnixStep(s);
      if |a| == 1 {
        assert s[1..] == b;
      } else {
        UnixStep(a);
        if a[0] == 13 && a[1] == 10 {
          assert s[2..] == a[2..] + b;
          UnixJoins(a[2..], b);
        } else {
          assert s[1..] == a[1..] + b;
          UnixJoins(a[1..], b);
        }
      }
    }
  }

  lemma UnixShort(a: seq<u8>, b: seq<u8>)
    ensures |a| < 2 ==> Unix(a) == a
    ensures b == [] ==> Unix(b) == []
  {
  }

  lemma UnixStep(s: seq<u8>)
    requires |s| >= 2
    ensures Unix(s) == if s[0] == 13 && s[1] == 10 then [10] + Unix(s[2..]) else [s[0]] + Unix(s[1..])
  {
  }

  /** Once appended, a line without a line end inside is found. */
  lemma LineIsPresent(text: seq<u8>, line: seq<u8>)
    requires !HasCrLf(Strip(line))
    ensures Present(WithLine(text, line), line)
  {
    hide Unix, HasCrLf;
    var l, r := StripCuts(line);
    var x := Strip(line);
    var before := text + (if EndsLine(text) then [] else [13, 10]);
    var all := WithLine(text, line);
    assert all == before + (x + [13, 10]);
    if x == [] {
      assert At(Unix(all), 0, x);
    } else {
      assert x[0] == line[l] && x[|x| - 1] == line[r - 1];
      UnixJoins(before, x + [13, 10]);
      UnixJoins(x, [13, 10]);
      UnixKeeps(x);
      assert At(Unix(before) + (x + Unix([13, 10])), |Unix(before)|, x);
    }
  }

  /** Appending a line twice is appending it once, on every well-formed image, if it has no line end inside. */
  lemma AppendTwice(img: seq<u8>, line: seq<u8>, text: seq<u8>)
    requires WellFormed(img) && FileAt(img, AUTORUN_PATH) == Got(text) && !HasCrLf(Strip(line))
    requires AppendedTo(img, line).Done? && AppendedTo(img, line).ok
    ensures var once := AppendedTo(img, line).image; AppendedTo(once, line) == Done(true, once)
  {
    hide WellFormed, FileAt, Present, WithLine, Rewritten, DiskOf, HasCrLf;
    if !Present(text, line) {
      AppendReadsBack(img, line, text);
      LineIsPresent(text, line);
    }
  }

  // ----- names and line ends as text -----

  function Text(s: string): (t: seq<nat>)
  {
    seq(|s|, i requires 0 <= i < |s| => s[i] as nat)
  }

  /** The path that is read and the raw names that are looked for. */
  lemma PathIsText()
    ensures AUTORUN_PATH == [Text("SETTINGS"), Text("AUTORUN.DAT")]
    ensures SETTINGS == Text("SETTINGS   ") && AUTORUN == Text("AUTORUN DAT")
  {
    assert SETTINGS_LABEL == Text("SETTINGS");
    assert AUTORUN_LABEL == Text("AUTORUN.DAT");
  }

  /** Every pair of carriage return and line feed becomes a line feed, and nothing else changes. */
  lemma UnixIs(a: seq<u8>, b: seq<u8>)
    ensures !HasCrLf(a) ==> Unix(a) == a
    ensures Unix(a + [13, 10] + b) == Unix(a) + [10] + Unix(b)
  {
    hide Unix, HasCrLf;
    if !HasCrLf(a) {
      UnixKeeps(a);
    }
    UnixJoins(a, [13, 10] + b);
    UnixStep([13, 10] + b);
    assert ([13, 10] + b)[2..] == b;
    assert a + [13, 10] + b == a + ([13, 10] + b);
    assert Unix(a) + ([10] + Unix(b)) == Unix(a) + [10] + Unix(b);
  }

  /** What counts as blank: tab to carriage return, the four separators, space, next line, no-break space. */
  lemma BlanksAre(b: u8)
    ensures BlankLatin1(b) <==> b in {9, 10, 11, 12, 13, 28, 29, 30, 31, 32, 0x85, 0xA0}
  {
  }
}
