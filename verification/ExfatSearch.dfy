/**
 The hash-filtered walk of an exFAT directory is a linear search by folded
 name (sections 6.3, 7.4, 7.6.4 and 7.7 of the Microsoft exFAT specification).
 */
module ExfatSearch {
  import opened Words
  import opened ExfatLookup

  /** One item of a directory: a file's entry set, or an entry the lookup passes over. */
  datatype Item = Other(e: Entry) | FileSet(file: Entry, stream: Entry, names: seq<Entry>)

  function Entries(it: Item): (r: seq<Entry>)
    ensures |r| > 0
  {
    match it
    case Other(e) => [e]
    case FileSet(file, stream, names) => [file, stream] + names
  }

  function Name(it: Item): (r: seq<u16>)
    requires it.FileSet?
  {
    UpToNul(AllUnits(it.names))
  }

  /** A file set announces its secondary entries, stores the hash of its folded name, and has no slash in it. */
  predicate WellFormed(it: Item)
  {
    match it
    case Other(e) => e[0] != 0x85 && e[0] != 0xC0 && e[0] != 0xC1
    case FileSet(file, stream, names) =>
      && file[0] == 0x85 && stream[0] == 0xC0
      && 1 <= |names| <= MAX_NAMES && file[1] == |names| + 1
      && (forall i | 0 <= i < |names| :: names[i][0] == 0xC1)
      && SLASH !in Name(it)
      && U16(stream, 4) == HashOf(Fold(Name(it)))
  }

  function Flat(items: seq<Item>): (r: seq<Entry>)
  {
    if items == [] then [] else Entries(items[0]) + Flat(items[1..])
  }

  // ----- the reference: linear search without the hash -----

  predicate Terminator(u: u16)
  {
    u == 0 || u == SLASH
  }

  /** The component at `p` is `name`, up to case. */
  predicate Matches(decode: Decoder, p: nat, name: seq<u16>)
    decreases |name|
  {
    var u := Upper(decode(p).0);
    if name == [] then Terminator(u) else u == Upper(name[0]) && Matches(decode, decode(p).1, name[1..])
  }

  /** Where the terminator of a matched component starts. */
  function End(decode: Decoder, p: nat, name: seq<u16>): (r: nat)
    decreases |name|
  {
    if name == [] then p else End(decode, decode(p).1, name[1..])
  }

  /** The path cursor after a match: past the slash, or one byte before the end of the NUL. */
  function Cursor(decode: Decoder, p: nat, name: seq<u16>): (r: int)
  {
    var t := End(decode, p, name);
    if Upper(decode(t).0) == SLASH then decode(t).1 else decode(t).1 - 1
  }

  /** A NUL that is one byte long leaves the cursor at that byte. */
  lemma CursorAtNul(decode: Decoder, p: nat, name: seq<u16>)
    requires Matches(decode, p, name)
    requires var t := End(decode, p, name); Upper(decode(t).0) != SLASH && decode(t).1 == t + 1
    ensures Cursor(decode, p, name) == End(decode, p, name) && decode(Cursor(decode, p, name)).0 == 0
  {
    MatchEnds(decode, p, name);
    UpperFacts(decode(End(decode, p, name)).0);
  }

  /** A match ends at a terminator. */
  lemma {:induction false} MatchEnds(decode: Decoder, p: nat, name: seq<u16>)
    requires Matches(decode, p, name)
    ensures Terminator(Upper(decode(End(decode, p, name)).0))
    decreases |name|
  {
    hide Upper;
    if name != [] {
      MatchEnds(decode, decode(p).1, name[1..]);
    }
  }

  /** The first file set whose name matches: the cursor and the index of the set's last entry. */
  function LinearSearch(decode: Decoder, start: nat, items: seq<Item>, base: nat): (r: Option<(int, nat)>)
  {
    if items == [] then None
    else
      var n := |Entries(items[0])|;
      if items[0].FileSet? && Matches(decode, start, Name(items[0]))
      then Some((Cursor(decode, start, Name(items[0])), base + n - 1))
      else LinearSearch(decode, start, items[1..], base + n)
  }

  // ----- names and hashes -----

  predicate PlainName(name: seq<u16>)
  {
    SLASH !in name && 0 !in name
  }

  lemma PlainTail(name: seq<u16>)
    requires PlainName(name) && name != []
    ensures PlainName(name[1..]) && !Terminator(Upper(name[0]))
  {
  }

  /** A matched component is the folded name with a terminator. */
  lemma {:induction false} MatchedComponent(decode: Decoder, p: nat, name: seq<u16>, room: nat)
    requires Matches(decode, p, name) && PlainName(name) && |name| < room
    ensures var c := Component(decode, p, room); |c| == |name| + 1 && c[..|c| - 1] == Fold(name)
    decreases |name|
  {
    hide Upper;
    var c := Component(decode, p, room);
    if name == [] {
      assert c == [Upper(decode(p).0)];
    } else {
      PlainTail(name);
      var next := decode(p).1;
      MatchedComponent(decode, next, name[1..], room - 1);
      var d := Component(decode, next, room - 1);
      assert c == [Upper(name[0])] + d;
      assert c[..|c| - 1] == [Upper(name[0])] + d[..|d| - 1];
      assert Fold(name) == [Upper(name[0])] + Fold(name[1..]);
    }
  }

  /** Comparing against a buffer that holds `name` and a zero is matching the name. */
  lemma {:induction false} CompareIsMatch(decode: Decoder, p: nat, lfn: seq<u16>, i: nat, name: seq<u16>)
    requires PlainName(name)
    requires i + |name| < |lfn| && lfn[i..i + |name|] == name && lfn[i + |name|] == 0
    ensures Compare(decode, p, lfn, i) == if Matches(decode, p, name) then Some(Cursor(decode, p, name)) else None
    decreases |name|
  {
    var u := decode(p).0;
    UpperFacts(u);
    UpperFacts(lfn[i]);
    if name != [] {
      PlainTail(name);
      assert lfn[i] == lfn[i..i + |name|][0] == name[0];
      assert lfn[i + 1..i + 1 + |name[1..]|] == lfn[i..i + |name|][1..] == name[1..];
      if Upper(u) == Upper(name[0]) {
        CompareIsMatch(decode, decode(p).1, lfn, i + 1, name[1..]);
      }
    }
  }

  /** What precedes the first zero of the buffer is the name, wherever the zero came from. */
  lemma NameInBuffer(lfn: seq<u16>, units: seq<u16>)
    requires |units| < |lfn| && lfn[..|units|] == units && lfn[|units|] == 0
    ensures var name := UpToNul(units); |name| < |lfn| && lfn[0..|name|] == name && lfn[|name|] == 0
  {
  }

  /** The filter never hides a match: a matching name has the path's hash. */
  lemma FilterKeepsMatches(decode: Decoder, start: nat, it: Item)
    requires it.FileSet? && WellFormed(it) && Matches(decode, start, Name(it))
    ensures U16(it.stream, 4) == PathHash(decode, start)
  {
    hide Upper;
    MatchedComponent(decode, start, Name(it), LFN_UNITS);
  }

  // ----- the walk, item by item -----

  /** The walk goes on after entry `edi`, or ends there. */
  function Continue(q: Query, s: State, edi: nat): (r: Outcome)
    requires Valid(s) && edi < |q.dir|
  {
    if AtEnd(q, edi) then NotFound(edi) else Walk(q, s, edi + 1)
  }

  /** `entries` stand in the directory from `edi` on. */
  predicate Stands(q: Query, edi: nat, entries: seq<Entry>)
  {
    edi + |entries| <= |q.dir| && q.dir[edi..edi + |entries|] == entries
  }

  lemma StandsAt(q: Query, edi: nat, entries: seq<Entry>, k: nat)
    requires Stands(q, edi, entries) && k < |entries|
    ensures edi + |entries| <= |q.dir| && q.dir[edi + k] == entries[k] && Stands(q, edi + k, entries[k..])
  {
  }

  /** Name entries behind a hash mismatch are passed over without a trace. */
  lemma {:induction false} SkipNames(q: Query, s: State, edi: nat, names: seq<Entry>)
    requires Valid(s) && s.hashFlag && q.validDataLength != 0
    requires names != [] && Stands(q, edi, names) && forall i | 0 <= i < |names| :: names[i][0] == 0xC1
    ensures Walk(q, s, edi) == Continue(q, s, edi + |names| - 1)
    decreases |names|
  {
    hide Compare;
    StandsAt(q, edi, names, 0);
    if |names| > 1 {
      StandsAt(q, edi, names, 1);
      SkipNames(q, s, edi + 1, names[1..]);
    }
  }

  /** After `c` name entries of a set whose hash fits. */
  predicate Loaded(s: State, names: seq<Entry>, c: nat)
    requires c <= |names|
  {
    && Valid(s) && !s.hashFlag && s.copied == c && s.esi == NAME_UNITS * c
    && s.secondary == |names| - c && s.lfn[..NAME_UNITS * c] == AllUnits(names[..c])
  }

  /** One more name entry. */
  lemma LoadOne(s: State, names: seq<Entry>, c: nat, hash: u16)
    requires c < |names| <= MAX_NAMES && Loaded(s, names, c) && names[c][0] == 0xC1
    ensures var step := GetName(s, hash, names[c]); var n := NAME_UNITS * (c + 1);
            && !step.StrayName? && step.Ready? == (c + 1 == |names|)
            && step.s.lfn[..n] == AllUnits(names[..c + 1]) && step.s.lfn[n] == 0
            && (step.Skip? ==> Loaded(step.s, names, c + 1))
  {
    var e, n := names[c], NAME_UNITS * c;
    var lfn := CopyName(s.lfn, n, e);
    assert names[..c + 1][..c] == names[..c];
    assert AllUnits(names[..c + 1]) == AllUnits(names[..c]) + NameUnits(e);
    assert lfn[..n + NAME_UNITS] == s.lfn[..n] + NameUnits(e);
    assert lfn[n + NAME_UNITS] == 0;
  }

  /** An entry that neither completes a name nor is a stray one is passed over. */
  lemma PassOver(q: Query, s: State, edi: nat, s': State)
    requires Valid(s) && edi + 1 < |q.dir| && q.validDataLength != 0
    requires var step := GetName(s, q.hash, q.dir[edi]); !step.StrayName? && !step.Ready? && step.s == s'
    ensures Valid(s') && Walk(q, s, edi) == Walk(q, s', edi + 1)
  {
  }

  /** An entry that completes a name: found if the comparison succeeds, passed over otherwise. */
  lemma WalkReady(q: Query, s: State, edi: nat, s': State)
    requires Valid(s) && edi < |q.dir|
    requires var step := GetName(s, q.hash, q.dir[edi]); step.Ready? && step.s == s'
    ensures Valid(s')
    ensures var cursor := Compare(q.decode, q.start, s'.lfn, 0);
            Walk(q, s, edi) == if cursor.Some? then Found(cursor.value, edi) else Continue(q, s', edi)
  {
    hide GetName, Compare;
  }

  lemma NameIsPlain(it: Item)
    requires it.FileSet? && WellFormed(it)
    ensures PlainName(Name(it))
  {
    hide HashOf;
  }

  /** The name entries of a set whose hash fits: copied, then compared. */
  lemma {:induction false} LoadNames(q: Query, s: State, edi: nat, it: Item, c: nat) returns (s': State)
    requires q.validDataLength != 0
    requires it.FileSet? && WellFormed(it) && c < |it.names| && Loaded(s, it.names, c) && Stands(q, edi, it.names[c..])
    ensures Valid(s')
    ensures var last := edi + |it.names| - c - 1;
            Walk(q, s, edi) == if Matches(q.decode, q.start, Name(it))
                               then Found(Cursor(q.decode, q.start, Name(it)), last)
                               else Continue(q, s', last)
    decreases |it.names| - c
  {
    hide Compare, GetName, Matches, Cursor, UpToNul, HashOf, Stands, Walk, Continue, PlainName;
    var names := it.names;
    StandsAt(q, edi, names[c..], 0);
    LoadOne(s, names, c, q.hash);
    var step := GetName(s, q.hash, names[c]);
    s' := step.s;
    if c + 1 == |names| {
      assert names[..c + 1] == names;
      NameInBuffer(s'.lfn, AllUnits(names));
      NameIsPlain(it);
      CompareIsMatch(q.decode, q.start, s'.lfn, 0, Name(it));
      WalkReady(q, s, edi, s');
    } else {
      StandsAt(q, edi, names[c..], 1);
      assert names[c..][1..] == names[c + 1..];
      PassOver(q, s, edi, step.s);
      s' := LoadNames(q, step.s, edi + 1, it, c + 1);
    }
  }

  /** The state after a file entry and a stream entry. */
  lemma HeaderState(s: State, hash: u16, it: Item)
    requires Valid(s) && it.FileSet? && WellFormed(it)
    ensures var one := GetName(s, hash, it.file);
            && one.Skip? && Valid(one.s)
            && var two := GetName(one.s, hash, it.stream);
               && two.Skip? && two.s.hashFlag == (U16(it.stream, 4) != hash)
               && (!two.s.hashFlag ==> Loaded(two.s, it.names, 0))
  {
    hide UpToNul, HashOf, CopyName;
    assert AllUnits(it.names[..0]) == [];
  }

  /** The file and stream entries reset the shared fields; the stream entry sets the filter. */
  lemma WalkHeader(q: Query, s: State, edi: nat, it: Item) returns (s': State)
    requires q.validDataLength != 0
    requires Valid(s) && it.FileSet? && WellFormed(it) && Stands(q, edi, Entries(it))
    ensures Stands(q, edi + 2, it.names) && Valid(s') && Walk(q, s, edi) == Walk(q, s', edi + 2)
    ensures s'.hashFlag == (U16(it.stream, 4) != q.hash) && (!s'.hashFlag ==> Loaded(s', it.names, 0))
  {
    hide Compare, UpToNul, HashOf, Walk, Stands, GetName, Loaded;
    var es := Entries(it);
    StandsAt(q, edi, es, 0);
    StandsAt(q, edi, es, 1);
    StandsAt(q, edi, es, 2);
    assert es[2..] == it.names;
    HeaderState(s, q.hash, it);
    var s1 := GetName(s, q.hash, it.file).s;
    s' := GetName(s1, q.hash, it.stream).s;
    PassOver(q, s, edi, s1);
    PassOver(q, s1, edi + 1, s');
  }

  /** What the search sees in one item. */
  predicate ItemMatches(q: Query, it: Item)
  {
    it.FileSet? && Matches(q.decode, q.start, Name(it))
  }

  /** A file set: found if its name matches, passed over otherwise, whatever state the walk brings. */
  lemma WalkFileSet(q: Query, s: State, edi: nat, it: Item) returns (s': State)
    requires q.validDataLength != 0 && q.hash == PathHash(q.decode, q.start)
    requires Valid(s) && it.FileSet? && WellFormed(it) && Stands(q, edi, Entries(it))
    ensures Valid(s')
    ensures var last := edi + |Entries(it)| - 1;
            Walk(q, s, edi) == if ItemMatches(q, it) then Found(Cursor(q.decode, q.start, Name(it)), last)
                               else Continue(q, s', last)
  {
    hide Walk, Continue, Matches, Cursor, Name, PathHash, HashOf;
    s' := WalkHeader(q, s, edi, it);
    if s'.hashFlag {
      SkipNames(q, s', edi + 2, it.names);
      if ItemMatches(q, it) {
        FilterKeepsMatches(q.decode, q.start, it);
        assert false;
      }
    } else {
      assert it.names[0..] == it.names;
      s' := LoadNames(q, s', edi + 2, it, 0);
    }
  }

  lemma WalkItem(q: Query, s: State, edi: nat, it: Item) returns (s': State)
    requires q.validDataLength != 0 && q.hash == PathHash(q.decode, q.start)
    requires Valid(s) && WellFormed(it) && Stands(q, edi, Entries(it))
    ensures Valid(s')
    ensures var last := edi + |Entries(it)| - 1;
            Walk(q, s, edi) == if ItemMatches(q, it) then Found(Cursor(q.decode, q.start, Name(it)), last)
                               else Continue(q, s', last)
  {
    hide Compare, Matches, Cursor, UpToNul, PathHash, HashOf;
    if it.FileSet? {
      s' := WalkFileSet(q, s, edi, it);
    } else {
      s' := s;
      StandsAt(q, edi, Entries(it), 0);
    }
  }

  /** The first item stands at the front of what is left of the directory. */
  lemma FirstItem(q: Query, edi: nat, items: seq<Item>)
    requires items != [] && edi <= |q.dir| && q.dir[edi..] == Flat(items)
    ensures var n := |Entries(items[0])|;
            && Stands(q, edi, Entries(items[0])) && q.dir[edi + n..] == Flat(items[1..])
            && (items[1..] != [] <==> edi + n < |q.dir|)
  {
    hide Entries;
    var n := |Entries(items[0])|;
    assert q.dir[edi..edi + n] == q.dir[edi..][..n];
    assert q.dir[edi + n..] == q.dir[edi..][n..];
  }

  /** The walk over well-formed items is the linear search. */
  lemma {:induction false} WalkIsLinear(q: Query, s: State, edi: nat, items: seq<Item>)
    requires q.validDataLength != 0 && q.hash == PathHash(q.decode, q.start)
    requires Valid(s) && items != [] && edi < |q.dir| && q.dir[edi..] == Flat(items)
    requires forall i | 0 <= i < |items| :: WellFormed(items[i])
    ensures var l := LinearSearch(q.decode, q.start, items, edi);
            Walk(q, s, edi) == if l.Some? then Found(l.value.0, l.value.1) else NotFound(|q.dir| - 1)
    decreases |items|
  {
    hide Walk, Entries, Flat, Name, Matches, Cursor, PathHash, WellFormed;
    var it, rest := items[0], items[1..];
    FirstItem(q, edi, items);
    assert WellFormed(items[0]);
    var s' := WalkItem(q, s, edi, it);
    if rest != [] && !ItemMatches(q, it) {
      assert forall i | 0 <= i < |rest| :: rest[i] == items[i + 1];
      WalkIsLinear(q, s', edi + |Entries(it)|, rest);
    }
  }

  lemma SomeItem(items: seq<Item>)
    requires Flat(items) != []
    ensures items != []
  {
  }

  lemma FirstEntryOnly(q: Query, s: State, items: seq<Item>)
    requires Valid(s) && items != [] && q.validDataLength == 0 && q.dir == Flat(items) != []
    requires WellFormed(items[0])
    ensures Walk(q, s, 0) == NotFound(0)
  {
  }

  /**
   Looking a component up through the hash filter is searching linearly for the
   first name that equals it up to case; the path cursor ends past the slash or
   at the NUL. Only a directory whose valid data is used up by its first sector
   gives up early.
   */
  lemma LookupIsLinearSearch(decode: Decoder, start: nat, items: seq<Item>, validDataLength: u32, s: State)
    requires Valid(s)
    requires forall i | 0 <= i < |items| :: WellFormed(items[i])
    ensures var dir := Flat(items);
            FindSpec(decode, start, dir, validDataLength, s) ==
            if dir == [] || validDataLength == 512 then NotFound(0)
            else var l := LinearSearch(decode, start, items, 0);
                 if l.Some? then Found(l.value.0, l.value.1) else NotFound(|dir| - 1)
  {
    hide Compare, Matches, Cursor, HashOf, PathHash, Walk, Flat;
    var dir := Flat(items);
    if dir != [] {
      var c := Component(decode, start, LFN_UNITS);
      var q := Query(decode, start, PathHash(decode, start), dir, Wrap32(validDataLength - 512));
      var s0 := s.(secondary := 1, esi := -1, lfn := c + s.lfn[|c|..]);
      assert dir[0..] == dir;
      SomeItem(items);
      assert WellFormed(items[0]);
      if validDataLength == 512 {
        FirstEntryOnly(q, s0, items);
      } else {
        WalkIsLinear(q, s0, 0, items);
      }
    }
  }

  // ----- where a name is kept -----

  /** Unit `i` of a name is unit `i % 15` of its name entry `i / 15`: two bytes from byte 2 on, low byte first. */
  lemma {:induction false} NameUnitAt(names: seq<Entry>, i: nat)
    requires i < 15 * |names|
    ensures |AllUnits(names)| == 15 * |names|
    ensures var e, at := names[i / 15], 2 + 2 * (i % 15); AllUnits(names)[i] == e[at] as int + 256 * e[at + 1] as int
    decreases |names|
  {
    var n := |names| - 1;
    if i < 15 * n {
      NameUnitAt(names[..n], i);
    } else {
      UnitAt(names[n], i - 15 * n);
    }
  }
}
