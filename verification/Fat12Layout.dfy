/**
 What the FAT12 reader reads, stated over the disk format: the BIOS parameter block gives the
 areas, the file allocation table is a string of twelve-bit numbers, an entry is 32 bytes with
 an 8.3 name, a first cluster and a size. A file laid out so comes back byte for byte.
 */
module Fat12Layout {
  import opened Words
  import opened Fat12

  // ----- areas -----

  /** Where the table, the root directory and the data area start, the root's size and a cluster's. */
  datatype Areas = Areas(fat: nat, root: nat, rootSize: nat, data: nat, cluster: nat)

  /** The areas by the parameter block: reserved sectors, then the tables, then the root, then data. */
  ghost predicate HasAreas(img: seq<u8>, g: Areas)
  {
    && |img| >= 24
    && var sector: nat := U16(img, 11);
       && g.fat == Times(U16(img, 14), sector)
       && g.root == g.fat + Times(img[16], Times(U16(img, 22), sector))
       && g.rootSize == 32 * (U16(img, 17) as int) && g.data == g.root + g.rootSize
       && g.cluster == Times(img[13], sector)
  }

  lemma AreasFound(img: seq<u8>, g: Areas)
    requires HasAreas(img, g)
    ensures DiskOf(img) == Some(Disk(g.fat, g.root, g.rootSize, g.data, g.cluster))
  {
    hide U16, Times;
  }

  /** Clusters follow each other from the start of the data area, the first numbered 2. */
  lemma ClustersInOrder(d: Disk, cl: nat)
    requires cl >= 2
    ensures ClusterAt(d, 2) == d.dataOff && ClusterAt(d, cl + 1) == ClusterAt(d, cl) + d.chunk
  {
    TimesZero(d.chunk);
    TimesNext(cl - 2, d.chunk);
  }

  // ----- the file allocation table -----

  /** The table, read as one string of bits, has `v` as its twelve-bit number `cl`. */
  ghost predicate TableHas(img: seq<u8>, fat: nat, cl: nat, v: nat)
  {
    && v < 4096 && fat + (12 * cl + 11) / 8 < |img|
    && forall i: nat | i < 12 :: Bit(v, i) <==> Bit(img[fat + (12 * cl + i) / 8], (12 * cl + i) % 8)
  }

  lemma Twelve()
    ensures Pow2(12) == 4096 && Pow2(4) == 16
  {
    assert Pow2(8) == 256;
  }

  lemma EntryBits(img: seq<u8>, d: Disk, cl: nat, i: nat)
    requires i < 12 && EntryAt(d, cl) + 2 <= |img|
    ensures FatEntry(img, d, cl).value < 4096
    ensures Bit(FatEntry(img, d, cl).value, i) <==> Bit(img[d.fatOff + (12 * cl + i) / 8], (12 * cl + i) % 8)
  {
    hide Bit, U16, Pow2;
    var at := EntryAt(d, cl);
    var v: nat := U16(img, at);
    Twelve();
    if cl % 2 == 1 {
      var h := cl / 2;
      assert 12 * cl == 24 * h + 12 && cl * 3 / 2 == 3 * h + 1;
      BitSplit(v / 16, v % 16, 4, i + 4);
      U16Bits(img, at, i + 4);
      assert (12 * cl + i) / 8 == 3 * h + 1 + (i + 4) / 8 && (12 * cl + i) % 8 == (i + 4) % 8;
    } else {
      var h := cl / 2;
      assert 12 * cl == 24 * h && cl * 3 / 2 == 3 * h;
      BitSplit(v / 4096, v % 4096, 12, i);
      U16Bits(img, at, i);
      assert (12 * cl + i) / 8 == 3 * h + i / 8 && (12 * cl + i) % 8 == i % 8;
    }
  }

  /** The reader's entry is the twelve-bit number in that place, both ways. */
  lemma EntryIsTwelveBits(img: seq<u8>, d: Disk, cl: nat, v: nat)
    ensures TableHas(img, d.fatOff, cl, v) <==> FatEntry(img, d, cl) == Some(v)
  {
    hide Bit;
    EntryRoom(d, cl);
    if EntryAt(d, cl) + 2 <= |img| {
      var w := FatEntry(img, d, cl).value;
      EntryBits(img, d, cl, 0);
      forall i: nat | i < 12 ensures Bit(w, i) <==> Bit(img[d.fatOff + (12 * cl + i) / 8], (12 * cl + i) % 8) {
        EntryBits(img, d, cl, i);
      }
      if TableHas(img, d.fatOff, cl, v) {
        Twelve();
        SameBits(v, w, 12);
      }
    }
  }

  lemma EntryRoom(d: Disk, cl: nat)
    ensures d.fatOff + (12 * cl + 11) / 8 == EntryAt(d, cl) + 1
  {
    var h := cl / 2;
    if cl % 2 == 1 {
      assert 12 * cl + 11 == 24 * h + 23 && cl * 3 / 2 == 3 * h + 1;
    } else {
      assert 12 * cl + 11 == 24 * h + 11 && cl * 3 / 2 == 3 * h;
    }
  }

  // ----- chains -----

  /** Clusters `k` onwards of the chain: data clusters, none twice, each leading to the next and the last to an end. */
  ghost predicate Linked(img: seq<u8>, fat: nat, cs: seq<nat>, k: nat)
    decreases |cs| - k
  {
    k < |cs|
    ==> && 2 <= cs[k] < 0xFF8 && (forall j | 0 <= j < k :: cs[j] != cs[k])
        && (if k + 1 < |cs| then TableHas(img, fat, cs[k], cs[k + 1])
            else exists mark: nat | 0xFF8 <= mark < 4096 :: TableHas(img, fat, cs[k], mark))
        && Linked(img, fat, cs, k + 1)
  }

  lemma {:induction false} LinkedWalk(img: seq<u8>, d: Disk, cs: seq<nat>, k: nat, seen: set<nat>)
    requires Linked(img, d.fatOff, cs, k) && k < |cs| && seen == set j: nat | j < k :: cs[j]
    ensures Chain(img, d, cs[k], seen) == Some(cs[k..])
    decreases |cs| - k
  {
    hide FatEntry, TableHas;
    assert cs[k] !in seen;
    var after := seen + {cs[k]};
    assert after == set j: nat | j < k + 1 :: cs[j];
    if k + 1 < |cs| {
      EntryIsTwelveBits(img, d, cs[k], cs[k + 1]);
      LinkedWalk(img, d, cs, k + 1, after);
      assert [cs[k]] + cs[k + 1..] == cs[k..];
    } else {
      var mark: nat :| 0xFF8 <= mark < 4096 && TableHas(img, d.fatOff, cs[k], mark);
      EntryIsTwelveBits(img, d, cs[k], mark);
      assert Chain(img, d, mark, after) == Some([]);
      assert [cs[k]] + [] == cs[k..];
    }
  }

  /** The bytes of clusters `k` onwards. */
  ghost function ClusterBytes(img: seq<u8>, g: Areas, cs: seq<nat>, k: nat): (b: seq<u8>)
    requires forall c | c in cs :: c >= 2
    decreases |cs| - k
  {
    if k >= |cs| then []
    else
      assert cs[k] in cs;
      var at := g.data + Times(cs[k] - 2, g.cluster);
      Slice(img, at, at + g.cluster) + ClusterBytes(img, g, cs, k + 1)
  }

  lemma {:induction false} SameBytes(img: seq<u8>, g: Areas, cs: seq<nat>, k: nat)
    requires forall c | c in cs :: c >= 2
    ensures Content(img, Disk(g.fat, g.root, g.rootSize, g.data, g.cluster), cs, k) == ClusterBytes(img, g, cs, k)
    decreases |cs| - k
  {
    hide Times, Slice;
    if k < |cs| {
      SameBytes(img, g, cs, k + 1);
    }
  }

  lemma {:induction false} LinkedData(img: seq<u8>, fat: nat, cs: seq<nat>, k: nat)
    requires Linked(img, fat, cs, k) && k <= |cs|
    ensures forall j | k <= j < |cs| :: cs[j] >= 2
    decreases |cs| - k
  {
    if k < |cs| {
      LinkedData(img, fat, cs, k + 1);
    }
  }

  lemma ChainRead(img: seq<u8>, g: Areas, cs: seq<nat>, first: nat)
    requires Linked(img, g.fat, cs, 0) && if cs == [] then !(2 <= first < 0xFF8) else first == cs[0]
    ensures forall c | c in cs :: c >= 2
    ensures ChainBytes(img, Disk(g.fat, g.root, g.rootSize, g.data, g.cluster), first)
            == Some(ClusterBytes(img, g, cs, 0))
  {
    hide Linked, Chain, Content, ClusterBytes;
    LinkedData(img, g.fat, cs, 0);
    var d := Disk(g.fat, g.root, g.rootSize, g.data, g.cluster);
    if cs == [] {
      NoChain(img, d, first);
    } else {
      LinkedWalk(img, d, cs, 0, {});
      assert cs[0..] == cs;
    }
    SameBytes(img, g, cs, 0);
  }

  lemma NoChain(img: seq<u8>, d: Disk, first: nat)
    requires !(2 <= first < 0xFF8)
    ensures Chain(img, d, first, {}) == Some([])
  {
  }

  // ----- directory entries -----

  function Spaces(n: nat): (s: seq<u8>)
  {
    seq(n, i => 0x20)
  }

  /** Upper case: the 26 small letters become capitals, other ASCII stays, the rest is replaced. */
  lemma UpperAsciiIs(i: nat, b: u8)
    ensures i < 26 ==> UpperAscii(0x61 + i) == 0x41 + i
    ensures b < 128 && !(0x61 <= b <= 0x7A) ==> UpperAscii(b) == b
    ensures b >= 128 ==> UpperAscii(b) == 0xFFFD
  {
  }

  /** A part of an 8.3 name: it does not end in a space or other blank. */
  predicate NamePart(s: seq<u8>, room: nat)
  {
    |s| <= room && (s != [] ==> !Blank(s[|s| - 1]))
  }

  lemma {:induction false} Trimmed(s: seq<u8>, n: nat)
    requires s == [] || !Blank(s[|s| - 1])
    ensures TrimRight(s + Spaces(n)) == s
  {
    if n == 0 {
      assert s + Spaces(0) == s;
    } else {
      var t := s + Spaces(n);
      assert t[|t| - 1] == 0x20 && t[..|t| - 1] == s + Spaces(n - 1);
      Trimmed(s, n - 1);
    }
  }

  /** How a name is shown: in upper case, with a dot before an extension. */
  function Shown(base: seq<u8>, ext: seq<u8>): (l: seq<nat>)
  {
    UpperText(if ext == [] then base else base + [0x2E] + ext)
  }

  /** A 32-byte entry: name and extension padded with spaces, bit 4 of the attributes for a directory. */
  ghost predicate EntryHas(blob: seq<u8>, at: nat, base: seq<u8>, ext: seq<u8>, dir: bool, first: nat)
  {
    && at % 32 == 0 && In(blob, at, 32) && NamePart(base, 8) && NamePart(ext, 3)
    && blob[at..at + 8] == base + Spaces(8 - |base|) && blob[at + 8..at + 11] == ext + Spaces(3 - |ext|)
    && blob[at] != 0 && blob[at] != 0xE5 && blob[at + 11] != 0x0F && (Bit(blob[at + 11], 4) <==> dir)
    && U16(blob, at + 26) == first
  }

  lemma EntryRead(blob: seq<u8>, at: nat, base: seq<u8>, ext: seq<u8>, dir: bool, first: nat)
    requires EntryHas(blob, at, base, ext, dir, first)
    ensures HasLabel(blob, at, Shown(base, ext)) && IsDir(blob, at) == dir && FirstCluster(blob, at) == first
  {
    hide U16, UpperText;
    var name := blob[at..at + 11];
    assert name[..8] == blob[at..at + 8] && name[8..] == blob[at + 8..at + 11];
    Trimmed(base, 8 - |base|);
    Trimmed(ext, 3 - |ext|);
    FourthBit(blob[at + 11]);
  }

  lemma FourthBit(b: u8)
    ensures Bit(b, 4) <==> b / 16 % 2 == 1
  {
    Twelve();
    BitSplit(b / 16, b % 16, 4, 4);
  }

  /** The slot is free, deleted, part of a long name, or shows another name. */
  predicate Differs(blob: seq<u8>, i: nat, shown: seq<nat>)
    requires In(blob, i, 32)
  {
    blob[i] == 0 || blob[i] == 0xE5 || blob[i + 11] == 0x0F || LabelOf(blob[i..i + 11]) != shown
  }

  lemma DiffersIs(blob: seq<u8>, i: nat, shown: seq<nat>)
    requires In(blob, i, 32)
    ensures Differs(blob, i, shown) <==> !HasLabel(blob, i, shown)
  {
    hide LabelOf;
  }

  /** No listed entry before `at` shows the same name. */
  ghost predicate FirstShown(blob: seq<u8>, at: nat, shown: seq<nat>)
  {
    forall i: nat | i < at && i % 32 == 0 && In(blob, i, 32) :: Differs(blob, i, shown)
  }

  lemma {:induction false} FoundThere(blob: seq<u8>, at: nat, shown: seq<nat>, i: nat)
    requires i <= at && i % 32 == at % 32 == 0 && In(blob, at, 32) && HasLabel(blob, at, shown)
    requires FirstShown(blob, at, shown)
    ensures FindLabel(blob, shown, i) == Some(at)
    decreases at - i
  {
    hide HasLabel, Differs;
    if i < at {
      DiffersIs(blob, i, shown);
      FoundThere(blob, at, shown, i + 32);
    }
  }

  // ----- paths -----

  /** One step of a path: the entry's place and name, its first cluster number, and the clusters that leads to. */
  datatype Hop = Hop(at: nat, base: seq<u8>, ext: seq<u8>, first: nat, clusters: seq<nat>)

  /** The entry of a hop is in the directory `blob`, first of its name, and its clusters, if any, are linked. */
  ghost predicate HopLaid(img: seq<u8>, g: Areas, blob: seq<u8>, h: Hop, dir: bool)
  {
    && EntryHas(blob, h.at, h.base, h.ext, dir, h.first)
    && (if h.clusters == [] then !(2 <= h.first < 0xFF8) else h.first == h.clusters[0])
    && FirstShown(blob, h.at, Shown(h.base, h.ext))
    && Linked(img, g.fat, h.clusters, 0) && forall c | c in h.clusters :: c >= 2
  }

  /** Hops `k` onwards lead from the directory `blob` through directories to a file. */
  ghost predicate PathLaid(img: seq<u8>, g: Areas, blob: seq<u8>, hops: seq<Hop>, k: nat)
    decreases |hops| - k
  {
    k < |hops|
    && HopLaid(img, g, blob, hops[k], k + 1 < |hops|)
    && (k + 1 < |hops| ==> PathLaid(img, g, ClusterBytes(img, g, hops[k].clusters, 0), hops, k + 1))
  }

  /** The file at the end: the first bytes of its clusters, as many as its entry says. */
  ghost function FileBytes(img: seq<u8>, g: Areas, blob: seq<u8>, hops: seq<Hop>, k: nat): (b: seq<u8>)
    requires PathLaid(img, g, blob, hops, k)
    decreases |hops| - k
  {
    var bytes := ClusterBytes(img, g, hops[k].clusters, 0);
    if k + 1 < |hops| then FileBytes(img, g, bytes, hops, k + 1)
    else Slice(bytes, 0, U32(blob, hops[k].at + 28))
  }

  ghost function PathOf(hops: seq<Hop>): (parts: seq<seq<nat>>)
  {
    seq(|hops|, i requires 0 <= i < |hops| => Shown(hops[i].base, hops[i].ext))
  }

  lemma HopRead(img: seq<u8>, g: Areas, blob: seq<u8>, h: Hop, dir: bool)
    requires HopLaid(img, g, blob, h, dir)
    ensures forall c | c in h.clusters :: c >= 2
    ensures In(blob, h.at, 32) && FindLabel(blob, Shown(h.base, h.ext), 0) == Some(h.at) && IsDir(blob, h.at) == dir
    ensures ChainBytes(img, Disk(g.fat, g.root, g.rootSize, g.data, g.cluster), FirstCluster(blob, h.at))
            == Some(ClusterBytes(img, g, h.clusters, 0))
  {
    hide FindLabel, ChainBytes, Linked, FirstShown, HasLabel, Shown, FirstCluster, IsDir, ClusterBytes, Bit, U16;
    EntryRead(blob, h.at, h.base, h.ext, dir, h.first);
    FoundThere(blob, h.at, Shown(h.base, h.ext), 0);
    ChainRead(img, g, h.clusters, h.first);
  }

  lemma {:induction false} PathRead(img: seq<u8>, g: Areas, blob: seq<u8>, hops: seq<Hop>, k: nat)
    requires PathLaid(img, g, blob, hops, k)
    ensures ReadFrom(img, Disk(g.fat, g.root, g.rootSize, g.data, g.cluster), blob, PathOf(hops), k)
            == Got(FileBytes(img, g, blob, hops, k))
    decreases |hops| - k
  {
    hide HopLaid, FindLabel, ChainBytes, FirstCluster, IsDir, ClusterBytes, Shown, U32;
    HopRead(img, g, blob, hops[k], k + 1 < |hops|);
    if k + 1 < |hops| {
      PathRead(img, g, ClusterBytes(img, g, hops[k].clusters, 0), hops, k + 1);
    }
  }

  /** A file laid out on the disk as the format has it, at any depth, comes back byte for byte. */
  lemma LaidFileReads(img: seq<u8>, g: Areas, hops: seq<Hop>)
    requires HasAreas(img, g) && PathLaid(img, g, Slice(img, g.root, g.root + g.rootSize), hops, 0)
    ensures FileAt(img, PathOf(hops)) == Got(FileBytes(img, g, Slice(img, g.root, g.root + g.rootSize), hops, 0))
  {
    hide HasAreas, PathLaid, FileBytes, ReadFrom, DiskOf, PathOf, Slice;
    AreasFound(img, g);
    PathRead(img, g, Slice(img, g.root, g.root + g.rootSize), hops, 0);
  }

  // ----- paths that lead nowhere -----

  /** Hops `k` onwards, all directories, lead from the directory `blob` to the directory `last`. */
  ghost predicate LeadsTo(img: seq<u8>, g: Areas, blob: seq<u8>, hops: seq<Hop>, k: nat, last: seq<u8>)
    decreases |hops| - k
  {
    if k >= |hops| then blob == last
    else HopLaid(img, g, blob, hops[k], true)
         && LeadsTo(img, g, ClusterBytes(img, g, hops[k].clusters, 0), hops, k + 1, last)
  }

  /** The name is not in the directory, or its first entry is a directory where a file is wanted, or the reverse. */
  ghost predicate Unfit(blob: seq<u8>, want: seq<nat>, isLast: bool)
  {
    || (forall i: nat | i % 32 == 0 && In(blob, i, 32) :: Differs(blob, i, want))
    || exists at: nat, base: seq<u8>, ext: seq<u8>, first: nat ::
         EntryHas(blob, at, base, ext, isLast, first) && Shown(base, ext) == want && FirstShown(blob, at, want)
  }

  lemma {:induction false} NotThere(blob: seq<u8>, want: seq<nat>, i: nat)
    requires i % 32 == 0 && forall j: nat | j % 32 == 0 && In(blob, j, 32) :: Differs(blob, j, want)
    ensures FindLabel(blob, want, i).None?
    decreases |blob| - i
  {
    hide HasLabel, Differs;
    if i + 32 <= |blob| {
      DiffersIs(blob, i, want);
      NotThere(blob, want, i + 32);
    }
  }

  lemma UnfitMissing(img: seq<u8>, d: Disk, blob: seq<u8>, parts: seq<seq<nat>>, k: nat)
    requires k < |parts| && Unfit(blob, parts[k], k == |parts| - 1)
    ensures ReadFrom(img, d, blob, parts, k) == Missing
  {
    hide FindLabel, Differs, EntryHas, Shown, FirstShown, IsDir, HasLabel;
    if forall i: nat | i % 32 == 0 && In(blob, i, 32) :: Differs(blob, i, parts[k]) {
      NotThere(blob, parts[k], 0);
    } else {
      var at: nat, base: seq<u8>, ext: seq<u8>, first: nat :|
        EntryHas(blob, at, base, ext, k == |parts| - 1, first) && Shown(base, ext) == parts[k]
        && FirstShown(blob, at, parts[k]);
      EntryPlace(blob, at, base, ext, k == |parts| - 1, first);
      EntryRead(blob, at, base, ext, k == |parts| - 1, first);
      FoundThere(blob, at, parts[k], 0);
    }
  }

  lemma EntryPlace(blob: seq<u8>, at: nat, base: seq<u8>, ext: seq<u8>, dir: bool, first: nat)
    requires EntryHas(blob, at, base, ext, dir, first)
    ensures at % 32 == 0 && In(blob, at, 32)
  {
  }

  lemma {:induction false} BrokenFrom(img: seq<u8>, g: Areas, blob: seq<u8>, hops: seq<Hop>, parts: seq<seq<nat>>,
                                      k: nat, last: seq<u8>)
    requires k <= |hops| < |parts| && LeadsTo(img, g, blob, hops, k, last)
    requires forall i | 0 <= i < |hops| :: parts[i] == Shown(hops[i].base, hops[i].ext)
    requires Unfit(last, parts[|hops|], |hops| == |parts| - 1)
    ensures ReadFrom(img, Disk(g.fat, g.root, g.rootSize, g.data, g.cluster), blob, parts, k) == Missing
    decreases |hops| - k
  {
    hide HopLaid, FindLabel, ChainBytes, FirstCluster, IsDir, ClusterBytes, Shown, Unfit;
    if k == |hops| {
      UnfitMissing(img, Disk(g.fat, g.root, g.rootSize, g.data, g.cluster), blob, parts, k);
    } else {
      HopRead(img, g, blob, hops[k], true);
      BrokenFrom(img, g, ClusterBytes(img, g, hops[k].clusters, 0), hops, parts, k + 1, last);
    }
  }

  /** A path that leads through directories to a name that is absent, or of the wrong kind, is missing. */
  lemma BrokenPathMissing(img: seq<u8>, g: Areas, hops: seq<Hop>, parts: seq<seq<nat>>, last: seq<u8>)
    requires HasAreas(img, g) && LeadsTo(img, g, Slice(img, g.root, g.root + g.rootSize), hops, 0, last)
    requires |hops| < |parts| && forall i | 0 <= i < |hops| :: parts[i] == Shown(hops[i].base, hops[i].ext)
    requires Unfit(last, parts[|hops|], |hops| == |parts| - 1)
    ensures FileAt(img, parts) == Missing
  {
    hide HasAreas, LeadsTo, ReadFrom, DiskOf, Slice, Unfit, Shown;
    AreasFound(img, g);
    BrokenFrom(img, g, Slice(img, g.root, g.root + g.rootSize), hops, parts, 0, last);
  }
}
