/**
 The exFAT lookup on a path of bytes: the component is decoded by `utf8to16`, and
 what is found is the first file whose name equals the encoded text up to case.
 */
module ExfatPath {
  import opened Words
  import opened ExfatLookup
  import opened ExfatSearch
  import Utf8

  function Bytes(text: seq<u16>): (b: seq<u8>)
  {
    if text == [] then [] else Utf8.Encode(text[0]) + Bytes(text[1..])
  }

  /** The decoder of a path, as the lookup uses it; past the end of the bytes it is arbitrary. */
  function DecoderOf(path: seq<u8>): (d: Decoder)
  {
    (p: nat) => DecodedAt(path, p)
  }

  function DecodedAt(path: seq<u8>, p: nat): (r: (u16, nat))
  {
    var step := Utf8.Decode(path, p, Utf8.Reg(0, 0, 0));
    if step.None? then (0, p + 1) else (Utf8.Ax(step.value.eax), step.value.next)
  }

  /** The decoder of a path as the loops call it, with EAX in and out. */
  function StepperOf(path: seq<u8>): (step: Stepper)
  {
    (p: nat, eax: u32) => StepAt(path, p, eax)
  }

  function StepAt(path: seq<u8>, p: nat, eax: u32): (r: (u32, nat))
  {
    var step := Utf8.Decode(path, p, RegOf(eax));
    if step.None? then (0, p + 1) else (EaxOf(step.value.eax), step.value.next)
  }

  function RegOf(eax: u32): (r: Utf8.Reg)
  {
    Utf8.Reg(eax / 0x1_0000, eax / 256 % 256, eax % 256)
  }

  function EaxOf(r: Utf8.Reg): (eax: u32)
    ensures eax % 0x1_0000 == Utf8.Ax(r)
  {
    r.high * 0x1_0000 + Utf8.Ax(r)
  }

  /** Whatever EAX one call leaves for the next, the loops read the units of the path. */
  lemma AnyEax(path: seq<u8>)
    ensures Agrees(StepperOf(path), DecoderOf(path))
  {
    hide Utf8.Decode, Utf8.Ax, EaxOf, RegOf;
    forall p: nat, eax: u32
      ensures var r := StepAt(path, p, eax); r.0 % 0x1_0000 == DecodedAt(path, p).0 && r.1 == DecodedAt(path, p).1
    {
      Utf8.DecodeIgnoresEax(path, p, Utf8.Reg(0, 0, 0), RegOf(eax));
    }
  }

  lemma DecodesUnit(path: seq<u8>, p: nat, u: u16)
    requires At(path, p, Utf8.Encode(u))
    ensures DecoderOf(path)(p) == (u, p + |Utf8.Encode(u)|)
  {
    hide Utf8.Decode, Utf8.Encode, At, Utf8.Ax;
    Utf8.DecodeEncoded(path, p, Utf8.Reg(0, 0, 0), u);
  }

  /** The end of a component: a NUL or a slash. */
  predicate Ends(t: u8)
  {
    t == 0 || t == SLASH
  }

  lemma DecodesEnd(path: seq<u8>, p: nat, t: u8)
    requires Ends(t) && At(path, p, [t])
    ensures DecoderOf(path)(p) == (t, p + 1)
  {
    assert Utf8.Encode(t) == [t];
    DecodesUnit(path, p, t);
  }

  // ----- matching -----

  /**
   A path that holds the encoded text and a terminator at `p` matches exactly the names
   that equal the text up to case, and the match ends at the terminator.
   */
  lemma {:induction false} MatchesText(path: seq<u8>, p: nat, text: seq<u16>, t: u8, name: seq<u16>)
    requires PlainName(text) && Ends(t) && At(path, p, Bytes(text) + [t]) && PlainName(name)
    ensures Matches(DecoderOf(path), p, name) <==> SameName(name, text)
    ensures Matches(DecoderOf(path), p, name) ==> End(DecoderOf(path), p, name) == p + |Bytes(text)|
    decreases |text|
  {
    hide Upper, DecoderOf, At, Utf8.Encode, Matches, End, SameLetter;
    var d := DecoderOf(path);
    if text == [] {
      AtSplit(path, p, Bytes(text), [t]);
      DecodesEnd(path, p, t);
      EndMatches(d, p, name);
    } else {
      var rest := text[1..];
      assert Bytes(text) + [t] == Utf8.Encode(text[0]) + (Bytes(rest) + [t]);
      AtSplit(path, p, Utf8.Encode(text[0]), Bytes(rest) + [t]);
      DecodesUnit(path, p, text[0]);
      PlainTail(text);
      if name == [] {
        NoMatch(d, p);
      } else {
        PlainTail(name);
        MatchesText(path, p + |Utf8.Encode(text[0])|, rest, t, name[1..]);
        MatchStep(d, p, name);
        FoldAlike(text[0], name[0]);
        NameStep(name, text);
      }
    }
  }

  /** At a unit that does not end a component the empty name does not match. */
  lemma NoMatch(d: Decoder, p: nat)
    requires !Terminator(Upper(d(p).0))
    ensures !Matches(d, p, [])
  {
  }

  lemma MatchStep(d: Decoder, p: nat, name: seq<u16>)
    requires name != []
    ensures Matches(d, p, name) <==> Upper(d(p).0) == Upper(name[0]) && Matches(d, d(p).1, name[1..])
    ensures End(d, p, name) == End(d, d(p).1, name[1..])
  {
    hide Upper;
  }

  lemma NameStep(name: seq<u16>, text: seq<u16>)
    requires name != [] && text != []
    ensures SameName(name, text) <==> SameLetter(text[0], name[0]) && SameName(name[1..], text[1..])
  {
    hide CasePair;
    if SameName(name[1..], text[1..]) {
      assert forall i | 1 <= i < |name| :: name[i] == name[1..][i - 1] && text[i] == text[1..][i - 1];
    }
  }

  /** At a terminator only the empty name matches. */
  lemma EndMatches(d: Decoder, p: nat, name: seq<u16>)
    requires PlainName(name) && (d(p).0 == 0 || d(p).0 == SLASH)
    ensures Matches(d, p, name) <==> SameName(name, [])
    ensures Matches(d, p, name) ==> End(d, p, name) == p
  {
    UpperFacts(d(p).0);
    if name != [] {
      PlainTail(name);
    }
  }

  // ----- the lookup -----

  /** The last entry of the first file set whose name is `text` up to case. */
  function FirstNamed(items: seq<Item>, text: seq<u16>, base: nat): (r: Option<nat>)
  {
    if items == [] then None
    else
      var n := |Entries(items[0])|;
      if items[0].FileSet? && SameName(Name(items[0]), text) then Some(base + n - 1)
      else FirstNamed(items[1..], text, base + n)
  }

  lemma {:induction false} SearchIsByName(path: seq<u8>, text: seq<u16>, t: u8, items: seq<Item>, base: nat)
    requires PlainName(text) && Ends(t) && At(path, 0, Bytes(text) + [t])
    requires forall i | 0 <= i < |items| :: WellFormed(items[i])
    ensures LinearSearch(DecoderOf(path), 0, items, base)
            == match FirstNamed(items, text, base)
               case None => None
               case Some(last) => Some((|Bytes(text)| + (if t == SLASH then 1 else 0), last))
    decreases |items|
  {
    hide WellFormed, Matches, Cursor, SameName, Name, DecoderOf, At, Entries;
    if items != [] {
      assert WellFormed(items[0]);
      assert forall i | 0 <= i < |items[1..]| :: items[1..][i] == items[i + 1];
      SearchIsByName(path, text, t, items[1..], base + |Entries(items[0])|);
      if items[0].FileSet? {
        NameIsPlain(items[0]);
        MatchesText(path, 0, text, t, Name(items[0]));
        if Matches(DecoderOf(path), 0, Name(items[0])) {
          CursorIs(path, text, t, Name(items[0]));
        }
      }
    }
  }

  lemma CursorIs(path: seq<u8>, text: seq<u16>, t: u8, name: seq<u16>)
    requires PlainName(text) && Ends(t) && At(path, 0, Bytes(text) + [t])
    requires End(DecoderOf(path), 0, name) == |Bytes(text)|
    ensures Cursor(DecoderOf(path), 0, name) == |Bytes(text)| + (if t == SLASH then 1 else 0)
  {
    hide DecoderOf, At;
    AtSplit(path, 0, Bytes(text), [t]);
    DecodesEnd(path, |Bytes(text)|, t);
  }

  /**
   Looking up a path that starts with an encoded text and a slash or NUL, in any well-formed
   directory: the first file whose name equals the text up to case is found, with the cursor
   past the slash or at the NUL; if there is none, nothing is.
   */
  lemma PathLookup(path: seq<u8>, text: seq<u16>, t: u8, items: seq<Item>, validDataLength: u32,
                   s: State)
    requires PlainName(text) && Ends(t) && At(path, 0, Bytes(text) + [t])
    requires Valid(s) && forall i | 0 <= i < |items| :: WellFormed(items[i])
    ensures FindSpec(DecoderOf(path), 0, Flat(items), validDataLength, s)
            == if Flat(items) == [] || validDataLength == 512 then NotFound(0)
               else match FirstNamed(items, text, 0)
                    case None => NotFound(|Flat(items)| - 1)
                    case Some(last) => Found(|Bytes(text)| + (if t == SLASH then 1 else 0), last)
  {
    hide FindSpec, WellFormed, LinearSearch, FirstNamed, DecoderOf, At, Flat;
    LookupIsLinearSearch(DecoderOf(path), 0, items, validDataLength, s);
    SearchIsByName(path, text, t, items, 0);
  }

  /**
   A lookup of encoded text by the source's own loops, with EAX threaded through every call of
   the decoder: the buffer address, the caller's leftovers and EAX do not matter.
   */
  method FindText(path: seq<u8>, items: seq<Item>, validDataLength: u32, lfnAddress: u32, hashFlag: bool, copied: nat,
                  ghost text: seq<u16>, ghost t: u8)
    returns (r: Outcome)
    requires copied <= MAX_NAMES && PlainName(text) && Ends(t) && At(path, 0, Bytes(text) + [t])
    requires forall i | 0 <= i < |items| :: WellFormed(items[i])
    ensures r == if Flat(items) == [] || validDataLength == 512 then NotFound(0)
                 else match FirstNamed(items, text, 0)
                      case None => NotFound(|Flat(items)| - 1)
                      case Some(last) => Found(|Bytes(text)| + (if t == SLASH then 1 else 0), last)
  {
    hide FindSpec, WellFormed, FirstNamed, DecoderOf, StepperOf, At, Flat, Agrees, PlainName;
    AnyEax(path);
    var lookup := new Lookup(Flat(items), StepperOf(path), lfnAddress, hashFlag, copied, validDataLength,
                             DecoderOf(path));
    PathLookup(path, text, t, items, validDataLength, lookup.Snapshot());
    r := lookup.FindLfn(0);
  }
}
