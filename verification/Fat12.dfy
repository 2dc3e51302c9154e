/**
 The FAT12 reader and the in-place append to SETTINGS/AUTORUN.DAT of the floppy
 soak script. The image is a growable byte array; names are byte strings and a
 text is its Latin-1 bytes. A Python exception is `Raised`.
 */
module Fat12 {
  import opened Words

  datatype Outcome = Raised | Missing | Got(bytes: seq<u8>)

  /** What an append leaves: the image also when an exception cut it short. */
  datatype Appended = Failed(image: seq<u8>) | Done(ok: bool, image: seq<u8>)

  /** The image after a chain has been written, or as far as it got before an exception. */
  datatype Overwritten = Overwritten(image: seq<u8>, ok: bool)

  /** Layout of a volume; `chunk` is the bytes of a cluster. */
  datatype Disk = Disk(fatOff: nat, rootOff: nat, rootSize: nat, dataOff: nat, chunk: nat)

  lemma TimesZero(b: nat)
    ensures Times(0, b) == 0
  {
  }

  lemma TimesNext(a: nat, b: nat)
    ensures Times(a + 1, b) == Times(a, b) + b
  {
  }

  function DiskOf(img: seq<u8>): (d: Option<Disk>)
    ensures d.Some? ==> d.value.dataOff == d.value.rootOff + d.value.rootSize && d.value.fatOff <= d.value.rootOff
  {
    if |img| < 24 then None
    else
      var bps: nat, spc: nat := U16(img, 11), img[13];
      var fatOff := Times(U16(img, 14), bps);
      var rootOff := fatOff + Times(img[16], Times(U16(img, 22), bps));
      var rootSize: nat := 32 * (U16(img, 17) as int);
      Some(Disk(fatOff, rootOff, rootSize, rootOff + rootSize, Times(spc, bps)))
  }

  // ----- chains -----

  /** Where the FAT keeps the twelve bits of a cluster. */
  function EntryAt(d: Disk, cl: nat): (i: nat)
  {
    d.fatOff + cl * 3 / 2
  }

  function FatEntry(img: seq<u8>, d: Disk, cl: nat): (next: Option<nat>)
  {
    var i := EntryAt(d, cl);
    if i + 2 > |img| then None
    else
      var v: nat := U16(img, i);
      Some(if cl % 2 == 1 then v / 16 else v % 4096)
  }

  /** A number that names a data cluster. */
  predicate IsData(cl: nat)
  {
    2 <= cl < 0xFF8
  }

  predicate InChain(cl: nat, seen: set<nat>)
  {
    IsData(cl) && cl !in seen
  }

  /** Clusters not yet seen: what every chain walk uses up. */
  ghost function Unseen(seen: set<nat>): (s: set<nat>)
  {
    (set c: nat | c < 0xFF8 && IsData(c)) - seen
  }

  lemma UnseenShrinks(cl: nat, seen: set<nat>)
    requires InChain(cl, seen)
    ensures |Unseen(seen + {cl})| < |Unseen(seen)|
  {
    assert Unseen(seen + {cl}) == Unseen(seen) - {cl};
    assert cl in Unseen(seen);
  }

  /** The clusters a walk from `cl` visits: it stops at an end mark or at a cluster seen before. */
  function Chain(img: seq<u8>, d: Disk, cl: nat, seen: set<nat>): (r: Option<seq<nat>>)
    decreases |Unseen(seen)|
  {
    if !InChain(cl, seen) then Some([])
    else
      var next := FatEntry(img, d, cl);
      if next.None? then None
      else
        UnseenShrinks(cl, seen);
        var rest := Chain(img, d, next.value, seen + {cl});
        if rest.None? then None else Some([cl] + rest.value)
  }

  function ClusterAt(d: Disk, cl: nat): (off: nat)
    requires cl >= 2
  {
    d.dataOff + Times(cl - 2, d.chunk)
  }

  function Cluster(img: seq<u8>, d: Disk, cl: nat): (b: seq<u8>)
    requires cl >= 2
  {
    Slice(img, ClusterAt(d, cl), ClusterAt(d, cl) + d.chunk)
  }

  /** The bytes of clusters `j` onwards. */
  function Content(img: seq<u8>, d: Disk, cs: seq<nat>, j: nat): (b: seq<u8>)
    requires forall c | c in cs :: c >= 2
    decreases |cs| - j
  {
    if j >= |cs| then []
    else
      assert cs[j] in cs;
      Cluster(img, d, cs[j]) + Content(img, d, cs, j + 1)
  }

  /** A walk visits data clusters only, none twice and none seen before. */
  lemma {:induction false} ChainSound(img: seq<u8>, d: Disk, cl: nat, seen: set<nat>)
    requires Chain(img, d, cl, seen).Some?
    ensures forall c | c in Chain(img, d, cl, seen).value :: IsData(c) && c !in seen
    ensures var cs := Chain(img, d, cl, seen).value; forall i, j | 0 <= i < j < |cs| :: cs[i] != cs[j]
    decreases |Unseen(seen)|
  {
    if InChain(cl, seen) {
      UnseenShrinks(cl, seen);
      var next := FatEntry(img, d, cl).value;
      ChainSound(img, d, next, seen + {cl});
      var cs, rest := Chain(img, d, cl, seen).value, Chain(img, d, next, seen + {cl}).value;
      assert forall j | 0 < j < |cs| :: cs[j] == rest[j - 1] && rest[j - 1] in rest;
    }
  }

  /** The bytes of the chain from `cl`. */
  function ChainBytes(img: seq<u8>, d: Disk, cl: nat): (r: Option<seq<u8>>)
  {
    var cs := Chain(img, d, cl, {});
    if cs.None? then None
    else
      ChainSound(img, d, cl, {});
      Some(Content(img, d, cs.value, 0))
  }

  /** Clusters visited so far followed by those still ahead. */
  ghost predicate Ahead(img: seq<u8>, d: Disk, start: nat, cl: nat, seen: set<nat>, done: seq<nat>)
  {
    Chain(img, d, start, {})
    == match Chain(img, d, cl, seen) case None => None case Some(rest) => Some(done + rest)
  }

  lemma AheadStep(img: seq<u8>, d: Disk, start: nat, cl: nat, seen: set<nat>, done: seq<nat>)
    requires InChain(cl, seen) && Ahead(img, d, start, cl, seen, done)
    ensures FatEntry(img, d, cl).None? ==> Chain(img, d, start, {}).None?
    ensures FatEntry(img, d, cl).Some? ==>
              Ahead(img, d, start, FatEntry(img, d, cl).value, seen + {cl}, done + [cl])
  {
    hide FatEntry;
    UnseenShrinks(cl, seen);
    if FatEntry(img, d, cl).Some? {
      var rest := Chain(img, d, FatEntry(img, d, cl).value, seen + {cl});
      if rest.Some? {
        assert done + ([cl] + rest.value) == done + [cl] + rest.value;
      }
    }
  }

  lemma AheadEnd(img: seq<u8>, d: Disk, start: nat, cl: nat, seen: set<nat>, done: seq<nat>)
    requires !InChain(cl, seen) && Ahead(img, d, start, cl, seen, done)
    ensures Chain(img, d, start, {}) == Some(done)
  {
    assert done + [] == done;
  }

  lemma AheadStart(img: seq<u8>, d: Disk, start: nat)
    ensures Ahead(img, d, start, start, {}, [])
  {
    var c := Chain(img, d, start, {});
    if c.Some? {
      assert [] + c.value == c.value;
    }
  }

  lemma {:induction false} ContentSnoc(img: seq<u8>, d: Disk, cs: seq<nat>, c: nat, j: nat)
    requires (forall x | x in cs :: x >= 2) && c >= 2 && j <= |cs|
    ensures Content(img, d, cs + [c], j) == Content(img, d, cs, j) + Cluster(img, d, c)
    decreases |cs| - j
  {
    hide Cluster;
    if j < |cs| {
      ContentSnoc(img, d, cs, c, j + 1);
    } else {
      assert Content(img, d, cs + [c], j + 1) == [];
      assert Cluster(img, d, c) + [] == Cluster(img, d, c);
      assert [] + Cluster(img, d, c) == Cluster(img, d, c);
    }
  }

  /** Every walk terminates, on any image, because no cluster is entered twice. */
  method ReadChain(img: seq<u8>, d: Disk, start: nat) returns (r: Option<seq<u8>>)
    ensures r == ChainBytes(img, d, start)
  {
    hide FatEntry, Cluster, Ahead;
    var out: seq<u8> := [];
    var cl, seen := start, {};
    ghost var done: seq<nat> := [];
    AheadStart(img, d, start);
    while InChain(cl, seen)
      invariant forall c | c in done :: c >= 2
      invariant Ahead(img, d, start, cl, seen, done) && out == Content(img, d, done, 0)
      decreases |Unseen(seen)|
    {
      AheadStep(img, d, start, cl, seen, done);
      UnseenShrinks(cl, seen);
      ContentSnoc(img, d, done, cl, 0);
      out := out + Cluster(img, d, cl);
      var next := FatEntry(img, d, cl);
      if next.None? {
        return None;
      }
      done := done + [cl];
      seen := seen + {cl};
      cl := next.value;
    }
    AheadEnd(img, d, start, cl, seen, done);
    return Some(out);
  }

  method CountChain(img: seq<u8>, d: Disk, start: nat) returns (r: Option<nat>)
    ensures r == match Chain(img, d, start, {}) case None => None case Some(cs) => Some(|cs|)
  {
    hide FatEntry, Ahead;
    var n: nat := 0;
    var cl, seen := start, {};
    ghost var done: seq<nat> := [];
    AheadStart(img, d, start);
    while InChain(cl, seen)
      invariant Ahead(img, d, start, cl, seen, done) && n == |done|
      decreases |Unseen(seen)|
    {
      AheadStep(img, d, start, cl, seen, done);
      UnseenShrinks(cl, seen);
      n := n + 1;
      var next := FatEntry(img, d, cl);
      if next.None? {
        return None;
      }
      done := done + [cl];
      seen := seen + {cl};
      cl := next.value;
    }
    AheadEnd(img, d, start, cl, seen, done);
    return Some(n);
  }

  // ----- directories -----

  predicate Blank(c: nat)
  {
    9 <= c <= 13 || 28 <= c <= 32
  }

  /** A byte decoded as ASCII with replacement, in upper case. */
  function UpperAscii(b: u8): (c: nat)
  {
    if 97 <= b <= 122 then b - 32 else if b < 128 then b else 0xFFFD
  }

  function TrimRight(s: seq<u8>): (r: seq<u8>)
    ensures r <= s
  {
    if s != [] && Blank(s[|s| - 1]) then TrimRight(s[..|s| - 1]) else s
  }

  function UpperText(s: seq<u8>): (r: seq<nat>)
    ensures |r| == |s|
  {
    seq(|s|, i requires 0 <= i < |s| => UpperAscii(s[i]))
  }

  /** The label of a raw 8.3 name: base and extension without trailing blanks. */
  function LabelOf(name: seq<u8>): (l: seq<nat>)
    requires |name| == 11
  {
    var base, ext := TrimRight(name[..8]), TrimRight(name[8..]);
    UpperText(if ext == [] then base else base + [0x2E] + ext)
  }

  /** The slot at `i` holds an entry the reader lists. */
  predicate Listed(blob: seq<u8>, i: nat)
    requires In(blob, i, 32)
  {
    blob[i] != 0 && blob[i] != 0xE5 && blob[i + 11] != 0x0F
  }

  function Label(blob: seq<u8>, i: nat): (l: seq<nat>)
    requires In(blob, i, 32)
  {
    LabelOf(blob[i..i + 11])
  }

  predicate HasLabel(blob: seq<u8>, i: nat, want: seq<nat>)
    requires In(blob, i, 32)
  {
    Listed(blob, i) && Label(blob, i) == want
  }

  /** The first listed entry with this label, from `i` on. */
  function FindLabel(blob: seq<u8>, want: seq<nat>, i: nat): (r: Option<nat>)
    ensures r.Some? ==> In(blob, r.value, 32)
    decreases |blob| - i
  {
    if i + 32 > |blob| then None
    else if HasLabel(blob, i, want) then Some(i)
    else FindLabel(blob, want, i + 32)
  }

  predicate HasName(blob: seq<u8>, i: nat, name: seq<u8>)
    requires In(blob, i, 32)
  {
    blob[i..i + 11] == name && blob[i + 11] != 0x0F
  }

  /** The first entry with exactly this raw name, from `i` on. */
  function FindName(blob: seq<u8>, name: seq<u8>, i: nat): (r: Option<nat>)
    ensures r.Some? ==> In(blob, r.value, 32)
    decreases |blob| - i
  {
    if i + 32 > |blob| then None
    else if HasName(blob, i, name) then Some(i)
    else FindName(blob, name, i + 32)
  }

  method SearchLabel(blob: seq<u8>, want: seq<nat>) returns (r: Option<nat>)
    ensures r == FindLabel(blob, want, 0)
  {
    hide HasLabel;
    var i: nat := 0;
    while i + 32 <= |blob|
      invariant FindLabel(blob, want, 0) == FindLabel(blob, want, i)
      decreases |blob| - i
    {
      if HasLabel(blob, i, want) {
        return Some(i);
      }
      i := i + 32;
    }
    return None;
  }

  method SearchName(blob: seq<u8>, name: seq<u8>) returns (r: Option<nat>)
    ensures r == FindName(blob, name, 0)
  {
    hide HasName;
    var i: nat := 0;
    while i + 32 <= |blob|
      invariant FindName(blob, name, 0) == FindName(blob, name, i)
      decreases |blob| - i
    {
      if HasName(blob, i, name) {
        return Some(i);
      }
      i := i + 32;
    }
    return None;
  }

  predicate IsDir(blob: seq<u8>, i: nat)
    requires In(blob, i, 32)
  {
    blob[i + 11] / 16 % 2 == 1
  }

  function FirstCluster(blob: seq<u8>, i: nat): (c: nat)
    requires In(blob, i, 32)
  {
    U16(blob, i + 26)
  }

  function FileSize(blob: seq<u8>, i: nat): (n: nat)
    requires In(blob, i, 32)
  {
    U32(blob, i + 28)
  }

  // ----- reading a path -----

  /** Resolve components `k` onwards in the directory `blob`. */
  function ReadFrom(img: seq<u8>, d: Disk, blob: seq<u8>, parts: seq<seq<nat>>, k: nat): (r: Outcome)
    decreases |parts| - k
  {
    if k >= |parts| then Missing
    else
      var hit := FindLabel(blob, parts[k], 0);
      if hit.None? then Missing
      else if IsDir(blob, hit.value) == (k == |parts| - 1) then Missing
      else
        var bytes := ChainBytes(img, d, FirstCluster(blob, hit.value));
        if bytes.None? then Raised
        else if k == |parts| - 1 then Got(Slice(bytes.value, 0, FileSize(blob, hit.value)))
        else ReadFrom(img, d, bytes.value, parts, k + 1)
  }

  function RootBytes(img: seq<u8>, d: Disk): (b: seq<u8>)
  {
    Slice(img, d.rootOff, d.rootOff + d.rootSize)
  }

  /** The file at a path already split into upper-case components. */
  function FileAt(img: seq<u8>, parts: seq<seq<nat>>): (r: Outcome)
  {
    var d := DiskOf(img);
    if d.None? then Raised else ReadFrom(img, d.value, RootBytes(img, d.value), parts, 0)
  }

  method ReadFile(img: seq<u8>, parts: seq<seq<nat>>) returns (r: Outcome)
    ensures r == FileAt(img, parts)
  {
    var disk := DiskOf(img);
    if disk.None? {
      return Raised;
    }
    hide DiskOf, FindLabel, ChainBytes, FirstCluster, FileSize, IsDir;
    var d := disk.value;
    var blob := RootBytes(img, d);
    for k := 0 to |parts|
      invariant FileAt(img, parts) == ReadFrom(img, d, blob, parts, k)
    {
      var hit := SearchLabel(blob, parts[k]);
      if hit.None? {
        return Missing;
      }
      var last := k == |parts| - 1;
      if last {
        if IsDir(blob, hit.value) {
          return Missing;
        }
        var bytes := ReadChain(img, d, FirstCluster(blob, hit.value));
        return if bytes.None? then Raised else Got(Slice(bytes.value, 0, FileSize(blob, hit.value)));
      }
      if !IsDir(blob, hit.value) {
        return Missing;
      }
      var bytes := ReadChain(img, d, FirstCluster(blob, hit.value));
      if bytes.None? {
        return Raised;
      }
      blob := bytes.value;
    }
    return Missing;
  }

  // ----- rewriting a chain -----

  /** `s[lo:hi] = b` on a growable byte array. */
  function Assign(s: seq<u8>, lo: nat, hi: nat, b: seq<u8>): (r: seq<u8>)
    requires lo <= hi
  {
    if lo >= |s| then s + b else s[..lo] + b + s[if hi > |s| then |s| else hi..]
  }

  /** Chunks of `b` from `pos` on over the chain from `cl`; a bounded walk also stops at the end of `b`. */
  function Overwrite(img: seq<u8>, d: Disk, cl: nat, seen: set<nat>, b: seq<u8>, pos: nat, bounded: bool)
    : (r: Overwritten)
    decreases |Unseen(seen)|
  {
    if !InChain(cl, seen) || (bounded && pos >= |b|) then Overwritten(img, true)
    else
      var off := ClusterAt(d, cl);
      var now := Assign(img, off, off + d.chunk, Slice(b, pos, pos + d.chunk));
      var next := FatEntry(now, d, cl);
      if next.None? then Overwritten(now, false)
      else
        UnseenShrinks(cl, seen);
        Overwrite(now, d, next.value, seen + {cl}, b, pos + d.chunk, bounded)
  }

  // ----- the line -----

  predicate BlankLatin1(b: u8)
  {
    Blank(b) || b == 0x85 || b == 0xA0
  }

  function Strip(s: seq<u8>): (r: seq<u8>)
    decreases |s|
  {
    if s == [] then []
    else if BlankLatin1(s[0]) then Strip(s[1..])
    else if BlankLatin1(s[|s| - 1]) then Strip(s[..|s| - 1])
    else s
  }

  /** Carriage return and line feed become a line feed. */
  function Unix(s: seq<u8>): (r: seq<u8>)
  {
    if |s| < 2 then s
    else if s[0] == 13 && s[1] == 10 then [10] + Unix(s[2..])
    else [s[0]] + Unix(s[1..])
  }

  predicate Contains(s: seq<u8>, t: seq<u8>)
  {
    exists i | 0 <= i <= |s| :: At(s, i, t)
  }

  predicate Present(text: seq<u8>, line: seq<u8>)
  {
    Contains(Unix(text), Strip(line))
  }

  predicate EndsLine(text: seq<u8>)
  {
    text != [] && (text[|text| - 1] == 10 || text[|text| - 1] == 13)
  }

  /** The text with the line on a line of its own at the end. */
  function WithLine(text: seq<u8>, line: seq<u8>): (r: seq<u8>)
  {
    text + (if EndsLine(text) then [] else [13, 10]) + Strip(line) + [13, 10]
  }

  const SETTINGS: seq<u8> := [0x53, 0x45, 0x54, 0x54, 0x49, 0x4E, 0x47, 0x53, 0x20, 0x20, 0x20]
  const AUTORUN: seq<u8> := [0x41, 0x55, 0x54, 0x4F, 0x52, 0x55, 0x4E, 0x20, 0x44, 0x41, 0x54]
  const SETTINGS_LABEL: seq<nat> := [0x53, 0x45, 0x54, 0x54, 0x49, 0x4E, 0x47, 0x53]
  const AUTORUN_LABEL: seq<nat> := [0x41, 0x55, 0x54, 0x4F, 0x52, 0x55, 0x4E, 0x2E, 0x44, 0x41, 0x54]
  const AUTORUN_PATH: seq<seq<nat>> := [SETTINGS_LABEL, AUTORUN_LABEL]

  // ----- appending -----

  /** Store `text` as the file's new content, if its chain has room. */
  function Rewritten(img: seq<u8>, d: Disk, text: seq<u8>): (r: Appended)
  {
    var root := RootBytes(img, d);
    var s := FindName(root, SETTINGS, 0);
    if s.None? then Done(false, img)
    else
      var dir := ChainBytes(img, d, FirstCluster(root, s.value));
      if dir.None? then Failed(img) else RewrittenIn(img, d, FirstCluster(root, s.value), dir.value, text)
  }

  function RewrittenIn(img: seq<u8>, d: Disk, dirCluster: nat, dir: seq<u8>, text: seq<u8>): (r: Appended)
  {
    var a := FindName(dir, AUTORUN, 0);
    if a.None? then Done(false, img)
    else
      var first := FirstCluster(dir, a.value);
      var cs := Chain(img, d, first, {});
      if cs.None? then Failed(img)
      else
        var room := Times(|cs.value|, d.chunk);
        if |text| > room then Done(false, img)
        else
          var one := Overwrite(img, d, first, {}, text + Zeros(room - |text|), 0, false);
          if !one.ok || |text| >= TWO32 then Failed(one.image)
          else
            var two := Overwrite(one.image, d, dirCluster, {}, Resized(dir, a.value, |text|), 0, true);
            if two.ok then Done(true, two.image) else Failed(two.image)
  }

  /** The directory with the size of the entry at `i` replaced. */
  function Resized(dir: seq<u8>, i: nat, size: u32): (r: seq<u8>)
    requires In(dir, i, 32)
    ensures |r| == |dir|
  {
    dir[..i + 28] + LE32(size) + dir[i + 32..]
  }

  function AppendedTo(img: seq<u8>, line: seq<u8>): (r: Appended)
  {
    match FileAt(img, AUTORUN_PATH)
    case Raised => Failed(img)
    case Missing => Done(false, img)
    case Got(text) =>
      if Present(text, line) then Done(true, img)
      else
        var d := DiskOf(img);
        if d.None? then Failed(img) else Rewritten(img, d.value, WithLine(text, line))
  }

  class Floppy {
    var data: seq<u8>

    constructor (image: seq<u8>)
      ensures data == image
    {
      data := image;
    }

    /** Write a chain in place, reading the FAT from the image being changed. */
    method WriteChain(d: Disk, start: nat, b: seq<u8>, bounded: bool) returns (ok: bool)
      modifies this
      ensures Overwritten(data, ok) == Overwrite(old(data), d, start, {}, b, 0, bounded)
    {
      hide FatEntry, Assign, Slice, ClusterAt;
      ghost var whole := Overwrite(data, d, start, {}, b, 0, bounded);
      var cl, pos: nat, seen := start, 0, {};
      while InChain(cl, seen) && !(bounded && pos >= |b|)
        invariant whole == Overwrite(data, d, cl, seen, b, pos, bounded)
        decreases |Unseen(seen)|
      {
        UnseenShrinks(cl, seen);
        var off := ClusterAt(d, cl);
        data := Assign(data, off, off + d.chunk, Slice(b, pos, pos + d.chunk));
        pos := pos + d.chunk;
        var next := FatEntry(data, d, cl);
        if next.None? {
          return false;
        }
        seen := seen + {cl};
        cl := next.value;
      }
      return true;
    }

    /** `None` when an exception is raised; the image is then what had been written. */
    method AppendAutorunLine(line: seq<u8>) returns (r: Option<bool>)
      modifies this
      ensures match AppendedTo(old(data), line)
              case Failed(image) => r.None? && data == image
              case Done(ok, image) => r == Some(ok) && data == image
    {
      hide FileAt, Present, WithLine, Rewritten, DiskOf;
      var existing := ReadFile(data, AUTORUN_PATH);
      match existing {
        case Raised =>
          return None;
        case Missing =>
          return Some(false);
        case Got(text) =>
          if Present(text, line) {
            return Some(true);
          }
          var d := DiskOf(data);
          if d.None? {
            return None;
          }
          r := Rewrite(d.value, WithLine(text, line));
      }
    }

    method Rewrite(d: Disk, text: seq<u8>) returns (r: Option<bool>)
      modifies this
      ensures match Rewritten(old(data), d, text)
              case Failed(image) => r.None? && data == image
              case Done(ok, image) => r == Some(ok) && data == image
    {
      hide FindName, ChainBytes, FirstCluster, RootBytes, RewrittenIn;
      var root := RootBytes(data, d);
      var s := SearchName(root, SETTINGS);
      if s.None? {
        return Some(false);
      }
      var dir := ReadChain(data, d, FirstCluster(root, s.value));
      if dir.None? {
        return None;
      }
      r := RewriteIn(d, FirstCluster(root, s.value), dir.value, text);
    }

    method RewriteIn(d: Disk, dirCluster: nat, dir: seq<u8>, text: seq<u8>) returns (r: Option<bool>)
      modifies this
      ensures match RewrittenIn(old(data), d, dirCluster, dir, text)
              case Failed(image) => r.None? && data == image
              case Done(ok, image) => r == Some(ok) && data == image
    {
      hide FindName, Chain, FirstCluster, Overwrite, Resized;
      var a := SearchName(dir, AUTORUN);
      if a.None? {
        return Some(false);
      }
      var first := FirstCluster(dir, a.value);
      var count := CountChain(data, d, first);
      if count.None? {
        return None;
      }
      var room := Times(count.value, d.chunk);
      if |text| > room {
        return Some(false);
      }
      var ok := WriteChain(d, first, text + Zeros(room - |text|), false);
      if !ok || |text| >= TWO32 {
        return None;
      }
      ok := WriteChain(d, dirCluster, Resized(dir, a.value, |text|), true);
      return if ok then Some(true) else None;
    }
  }
}
