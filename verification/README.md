# KolibriOS Reloaded: a verification model

This project models the byte-level routines of the Rust kernel port and of the
Python tools around it, and proves what they promise for inputs of every size.

| file | what it models |
|---|---|
| `Words.dfy` | machine words, bits, little-endian fields, Python byte strings |
| `DrawChar.dfy`, `GlyphPixels.dfy`, `GlyphEdx.dfy` | the glyph rasteriser: in-place bit scan with neighbour smoothing, and what becomes of each pixel |
| `Crc.dfy` | the CRC-32 update and polynomial division over GF(2) |
| `InetChecksum.dfy` | the add/adc Internet checksum and the RFC 1071 tool beside it |
| `ExfatChecksum.dfy` | the exFAT set checksum and name hash |
| `Utf8.dfy` | the streaming UTF-8 decoder and encoder |
| `ExfatLookup.dfy`, `ExfatSearch.dfy`, `ExfatPath.dfy` | the exFAT long-name lookup, linear search, and lookup by encoded path |
| `CoffReloc.dfy`, `CoffSymbols.dfy`, `CoffMeaning.dfy`, `CoffRebase.dfy` | COFF relocation and symbol fixup, what they mean by the file format, and rebasing |
| `Blit.dfy` | the syscall-73 blitter |
| `NtfsRecord.dfy`, `NtfsIndex.dfy`, `NtfsFormat.dfy`, `NtfsExtract.dfy`, `NtfsAccepts.dfy`, `NtfsRuns.dfy`, `NtfsFields.dfy` | the NTFS formatter and the reader that inverts it |
| `Fat12.dfy`, `Fat12Layout.dfy`, `Fat12Append.dfy` | the FAT12 reader, the disk layout it reads, and the in-place append |
| `TimePack.dfy` | dates to seconds, EXT inode times, FILETIME |

Code that updates buffers or fields step by step is modelled by methods over
arrays, classes or growable byte strings; each is proved equal to a function on
values, and the theorems are about those functions. A Rust panic or a Python
exception is an explicit outcome.

What was found where code and promise differ:

- `draw_char_1x` reads the caller's whole EDX in its first row, which then reaches up
  to 33 columns. Beside the same call with a clean EDX, at a pitch of nine whole pixels
  or more, exactly two kinds of glyph columns come out differently over some background
  (`GlyphRight`): in the first row the dark eighth column when bit 8 of EDX blends into
  it (`DirtyEdxBlendsDarkPixel`); in later rows, which only a pitch below 132 bytes
  exposes, dark columns that a bit of the first row lights or blends, save those blended
  over a screen (`DirtyEdxLightsDarkPixel`). With no screen delta no lit pixel is ever lost
  (`NoPixelLost`); with one, a column beyond the glyph can be lost to a blend with the
  screen (`LitColumn`, `DirtyEdxLosesPixel`).
- CRC burst detection depends on bit 31 of the polynomial word, and exactly on it
  (`BurstDetectionExact`).
- The RFC 1071 tool answers 0xFFFF where the kernel answers 0 or 0xFFFE, exactly on
  word totals divisible by 65535 (`ToolAgreesWithKernel`).
- The NTFS record builder accepts a terminator up to byte 1020, the kernel-style walk
  needs it at or below 1016, and the formatter can produce records in between
  for accepted calls (`FileTerminatorFound`, `TerminatorMissed`).
- The NTFS volume bitmap outgrows its one reserved cluster on volumes above 32768
  clusters, and the clusters it spills into are not marked (`WrittenClustersMarked`).
- A mapping pair keeps one byte of a run's length and of its cluster, though values up to
  65535 are accepted (`StreamReads`); the formatter stays within one byte (`MftDescribed`).
- The date conversion is a day ahead of the Gregorian calendar from March 2100 on
  (`GregorianAgreement`).
- The comment on the NTFS mirror location says it must not overlap the extended MFT;
  the reason it never does is the room in the root record (`FewFiles`).

Words used below. *Straddled pixel* (glyphs): one that some row's columns cover in part;
at a pitch that is a multiple of 4 there is none. *Undisturbed pixel*: the condition of
`AloneExact`. *Well-formed directory* (exFAT): file sets as sections 6.3, 7.4, 7.6.4 and
7.7 of the Microsoft exFAT specification lay them out, with correct name hashes. *Sound
attribute* (NTFS): its size field is its length, its type is not an end mark, and name
and value lie inside it. *Well-formed image* (FAT12): unique labels in the root and the
settings directory, and the directory's and the file's chains inside the image and
disjoint.

## Model

| member | source | states |
|---|---|---|
| `GlyphPixels.AloneExact` | rust_kernel/kolibri_utils/src/draw_char.rs:280-323 | for every EDX, glyph, smoothing mode, screen delta and pitch of whole pixels, overlapping rows included: a pixel ends as its row alone would leave it, over every background, if and only if no other row touches it, or it is lit and there is no screen delta, or the last row to touch it over a screen leaves the same value |
| `GlyphEdx.EdxExact` | rust_kernel/kolibri_utils/src/draw_char.rs:280-323 | for every pixel, EDX, glyph, smoothing mode and screen delta, at a pitch of at least 36 bytes: over every background the pixel ends as with a clean EDX if and only if no bit of EDX above the low byte lights it or blends into it, or a later row paints over it, or the glyph itself turns it into the colour over a screen |
| `GlyphEdx.GlyphRight` | rust_kernel/kolibri_utils/src/draw_char.rs:280-323 | so for glyph columns, at a pitch of whole pixels: in the first row all come out as with a clean EDX but the eighth when bit 8 of EDX blends into it; in a later row exactly the lit ones, those blended over a screen, and those that no bit of the first row lights or blends |
| `GlyphEdx.CleanColumn` | rust_kernel/kolibri_utils/src/draw_char.rs:280-323 | with a clean EDX, at any pitch of at least 36 bytes, a lit glyph pixel ends as exactly the colour; a dark one is blended at most once, from its original background, or keeps it |
| `GlyphPixels.DarkPixel` | rust_kernel/kolibri_utils/src/draw_char.rs:217-233 | a dark pixel blended once and touched by no other row ends, byte by byte, as the three-to-one mix (mode 1) or the channel weights (other modes) of its background and the colour; with a screen delta the background is the screen pixel whose index is a quarter of buffer + row * pitch + 4 * column + delta, modulo 2^32 |
| `GlyphEdx.EdxHarmless` | rust_kernel/kolibri_utils/src/draw_char.rs:280-323 | the sufficient half of `EdxExact` at every pitch, overlapping rows included |
| `GlyphPixels.RasterLayers` | rust_kernel/kolibri_utils/src/draw_char.rs:280-323 | each pixel that no row straddles ends as the per-pixel functions of all rows that have it, in order, over its original background |
| `GlyphPixels.RasterPixel` | rust_kernel/kolibri_utils/src/draw_char.rs:280-323 | a pixel that one row alone touches ends as that row's per-pixel function of its own original background |
| `GlyphPixels.LaterRow` | rust_kernel/kolibri_utils/src/draw_char.rs:292-322 | at any pitch of at least 36 bytes the nine columns of a later row are drawn over what the first row left there |
| `GlyphPixels.WholePitch` | rust_kernel/kolibri_utils/src/draw_char.rs:316 | at a pitch of whole pixels no row straddles a pixel, however narrow the pitch |
| `GlyphPixels.WidePitch` | rust_kernel/kolibri_utils/src/draw_char.rs:316 | at a pitch that holds every column, 33 of them under a dirty EDX, each pixel is touched by its own row only |
| `DrawChar.RasterFrame` | rust_kernel/kolibri_utils/src/draw_char.rs:280-323 | a byte in no pixel of a drawn row never changes, whatever the pitch |
| `GlyphPixels.GlyphColumn` | rust_kernel/kolibri_utils/src/draw_char.rs:280-323 | in an undisturbed glyph column a lit pixel ends as exactly the colour; a dark one is blended at most once, from its original background, or keeps it |
| `GlyphPixels.NinthColumn` | rust_kernel/kolibri_utils/src/draw_char.rs:280-323 | an undisturbed ninth column is only ever blended, from a lit eighth column, in every row after the first and in the first when EDX has clean upper bytes |
| `DrawChar.BlendedOnce` | rust_kernel/kolibri_utils/src/draw_char.rs:381-501 | no column up to the ninth is blended from both sides |
| `GlyphPixels.LitColumn` | rust_kernel/kolibri_utils/src/draw_char.rs:292-322 | a pixel lit by any row, the caller's EDX included, at any overlap of rows, ends as the colour if and only if there is no screen delta, or the last row to touch it lights it without blending back, or the screen pixel there lies in the exact range that blends to the colour |
| `GlyphPixels.NoPixelLost` | rust_kernel/kolibri_utils/src/draw_char.rs:292-322 | with no screen delta every pixel lit by any row ends as the colour, whatever EDX held and however the rows overlap |
| `GlyphEdx.DirtyEdxLightsDarkPixel` | rust_kernel/kolibri_utils/src/draw_char.rs:293 | the failing case at a narrow pitch: bit 9 in EDX at a pitch of 36 bytes lights the dark first column of the second row, which a clean EDX leaves alone |
| `GlyphEdx.DirtyEdxBlendsDarkPixel` | rust_kernel/kolibri_utils/src/draw_char.rs:293 | the failing case at every pitch from 36 bytes on: bit 8 in EDX turns the dark eighth column of the first row grey, which a clean EDX leaves black |
| `GlyphEdx.DirtyEdxLosesPixel` | rust_kernel/kolibri_utils/src/draw_char.rs:293 | the failing case over a screen: bits 8 and 9 in EDX, white text and a black screen; the pixel of bit 8 does not end as the colour |
| `GlyphPixels.MixedIsColor` | rust_kernel/kolibri_utils/src/draw_char.rs:504-543 | which neighbour colours a blend of either side turns into the text colour, exactly: the colour itself, or the same top byte with each channel at most a little above |
| `GlyphPixels.BlendTold` | rust_kernel/kolibri_utils/src/draw_char.rs:504-543 | a blend by a further row is always visible: the pixel farthest from the colour in blue ends nearer to it |
| `DrawChar.AntiAliasing` | rust_kernel/kolibri_utils/src/font.rs:34-59 | the rolling loop blends the three colour bytes three to one and keeps the top byte |
| `DrawChar.MaskIsGlyph` | rust_kernel/kolibri_utils/src/draw_char.rs:293 | the low byte of every row mask is the glyph byte, whatever EDX held |
| `DrawChar.ScanPixel` | rust_kernel/kolibri_utils/src/draw_char.rs:294-314 | the in-place scan of one row, lowest bit first, meets the per-pixel function in every column |
| `DrawChar.ScanFrame` | rust_kernel/kolibri_utils/src/draw_char.rs:294-314 | the scan of a row leaves every byte outside its columns alone |
| `DrawChar.LowestBitFirst` | rust_kernel/kolibri_utils/src/draw_char.rs:298-312 | plotting the lowest bit and then the rest of the mask is plotting the mask: the order of blends and stores does not matter to the result |
| `DrawChar.SubpixelAgrees` | rust_kernel/kolibri_utils/src/draw_char.rs:67-167 | the register-level subpixel sequence equals the per-channel weighting, on both sides and for every pair of colours |
| `DrawChar.LeftLadder` | rust_kernel/kolibri_utils/src/draw_char.rs:381-445 | the branch ladder blends exactly when the neighbourhood rule says so, edge of the glyph included |
| `DrawChar.RightLadder` | rust_kernel/kolibri_utils/src/draw_char.rs:448-501 | the same for the right side |
| `GlyphPixels.BlendPicture` | rust_kernel/kolibri_utils/src/draw_char.rs:381-501 | the rule as a picture of three rows of three pixels: nothing lit beyond the pixel, and above or below a lit corner or the end of a step |
| `DrawChar.BlendNeighbour` | rust_kernel/kolibri_utils/src/draw_char.rs:504-543 | one blend writes the blended neighbour, from the buffer or the screen, and nothing else |
| `DrawChar.SmoothSide` | rust_kernel/kolibri_utils/src/draw_char.rs:381-543 | one side of a lit pixel is smoothed as the rule says |
| `DrawChar.PlotBit` | rust_kernel/kolibri_utils/src/draw_char.rs:298-313 | one step of the scan stores the pixel and smooths both sides |
| `DrawChar.DrawRow` | rust_kernel/kolibri_utils/src/draw_char.rs:294-314 | the inner loop leaves the buffer as the scan of the row mask |
| `DrawChar.DrawChar1x` | rust_kernel/kolibri_utils/src/draw_char.rs:280-323 | the whole rasteriser leaves the buffer as the row-by-row raster |
| `DrawChar.DrawRowFasm` | rust_kernel/kolibri_utils/src/draw_char.rs:340-369 | the general inner loop at scale factor 1 does the same to a row and hands the factor on |
| `DrawChar.DrawCharFasm` | rust_kernel/kolibri_utils/src/draw_char.rs:326-378 | the general rasteriser at multiplier 1, with either blend, leaves the same buffer |
| `Crc.BurstDetectionExact` | rust_kernel/kolibri_utils/src/crc.rs:12-25 | every burst of at most 32 bits, at any bit offset, changes the CRC, for every register and length, if and only if the polynomial word has bit 31 set |
| `Crc.BurstDetected` | rust_kernel/kolibri_utils/src/crc.rs:12-25 | with bit 31 set, two equal-length messages that differ only within 32 consecutive bits have different CRCs |
| `Crc.FourByteBurst` | rust_kernel/kolibri_utils/src/crc.rs:12-25 | differing only within four consecutive bytes is such a burst |
| `Crc.WindowDetected` | rust_kernel/kolibri_utils/src/crc.rs:12-25 | the same on bit strings, between any common prefix and suffix |
| `Crc.BurstMissed` | rust_kernel/kolibri_utils/src/crc.rs:12-25 | without bit 31, a concrete four-byte burst goes unseen |
| `Crc.CrcIsRemainder` | rust_kernel/kolibri_utils/src/crc.rs:12-25 | the register is the remainder of start times x^8n plus message times x^32 by x^32 plus the polynomial, over GF(2), bit-reflected |
| `Crc.DivisionTheorem` | rust_kernel/kolibri_utils/src/crc.rs:12-25 | the long division used for that is division: quotient and remainder recombine to the dividend, and no other pair of those sizes does |
| `Crc.CrcLinear` | rust_kernel/kolibri_utils/src/crc.rs:12-25 | the update is linear under XOR of registers and of equally long messages |
| `Crc.ChunksCompose` | rust_kernel/kolibri_utils/src/crc.rs:99-110 | updating chunk by chunk equals updating at once |
| `Crc.DrivenToZero` | rust_kernel/kolibri_utils/src/crc.rs:12-25 | the only register that a window of at most 32 bits drives to zero is the window itself |
| `Crc.FeedInjective` | rust_kernel/kolibri_utils/src/crc.rs:12-25 | different registers stay different under a common suffix |
| `Crc.WindowInjective` | rust_kernel/kolibri_utils/src/crc.rs:12-25 | from one register, different windows of at most 32 bits give different registers |
| `Crc.UpdateByte` | rust_kernel/kolibri_utils/src/crc.rs:14-23 | the eight shifts of a byte feed its bits, lowest first |
| `Crc.Crc32Update` | rust_kernel/kolibri_utils/src/crc.rs:12-25 | the two loops feed the bits of all bytes in order |
| `Crc.MessageBits` | rust_kernel/kolibri_utils/src/crc.rs:14-23 | bytes are consumed in order, each from its lowest bit up |
| `InetChecksum.Checksum1` | rust_kernel/kolibri_utils/src/checksum.rs:20-74 | the unrolled add/adc routine keeps the seed's upper half and leaves in the lower half the folded sum of the seed's lower half and all words, 0 only for a zero total; so the add after the main loop is dead |
| `InetChecksum.CarryAbsorbed` | rust_kernel/kolibri_utils/src/checksum.rs:125-131 | the closing adc of EDX never carries into the upper half |
| `InetChecksum.AddWordIs16Bit` | rust_kernel/kolibri_utils/src/checksum.rs:111-124 | the add/adc pair on DL and DH is one 16-bit addition with carry in and out |
| `InetChecksum.WordStep` | rust_kernel/kolibri_utils/src/checksum.rs:111-124 | a running carry chain stays congruent to the total |
| `InetChecksum.AddWords` | rust_kernel/kolibri_utils/src/checksum.rs:44-72 | an unbroken chain of words adds exactly those words to the folded total |
| `InetChecksum.WordSumByByte` | rust_kernel/kolibri_utils/src/checksum.rs:44-72 | the word sum by one more byte: it counts 256 times at an even place, once at an odd place |
| `InetChecksum.FinishOdd` | rust_kernel/kolibri_utils/src/checksum.rs:165-175 | an odd last byte counts as the high byte of a word |
| `InetChecksum.PartialSplit` | rust_kernel/kolibri_utils/src/checksum.rs:20-74 | splitting the data at any even offset and chaining the sums gives the same result |
| `InetChecksum.Checksum2Folds` | rust_kernel/kolibri_utils/src/checksum.rs:91-108 | the second stage complements the folded sum of both halves, with 0xFFFE for zero, and swaps the bytes |
| `InetChecksum.PipelineTotal` | rust_kernel/kolibri_utils/src/checksum.rs:20-108 | the two stages together are the complemented one's complement total |
| `InetChecksum.PipelineZero` | rust_kernel/kolibri_utils/src/checksum.rs:20-108 | the checksum is zero if and only if the total is a positive multiple of 65535 |
| `InetChecksum.StoredChecksumVerifies` | rust_kernel/kolibri_utils/src/checksum.rs:20-108 | a packet storing its checksum in a zeroed field at an even offset checks to zero, if and only if seed and packet are not all zero |
| `InetChecksum.Rfc1071Checksum` | scripts/net_capture.py:25-43 | the unbounded sum with its fold loop, proved to terminate, computes the folded complement with 0xFFFF for zero |
| `InetChecksum.ToolAgreesWithKernel` | scripts/net_capture.py:25-43 | tool and kernel agree, up to byte order, if and only if the word total is not a multiple of 65535 |
| `InetChecksum.HeaderPassesTool` | scripts/net_capture.py:46-53 | a header carrying the tool's checksum passes the tool's own check |
| `InetChecksum.HeaderPassesKernel` | scripts/net_capture.py:56-74 | and checks to zero in the kernel pipeline |
| `InetChecksum.BuildIpv4Header` | scripts/net_capture.py:56-74 | raises exactly when the total length is negative; otherwise all twenty bytes are fixed: every field placed, the length clamped, the rest zero, and the header passes both checks |
| `ExfatChecksum.ChecksumStep` | rust_kernel/kolibri_utils/src/exfat_checksum.rs:32-50 | the checksum by one more byte: zero at first, unchanged by a byte of the stored field, otherwise the byte plus the old sum with bit i + 1 moved to bit i and bit 0 to bit 15, modulo 2^16 |
| `ExfatChecksum.SwapDetected` | rust_kernel/kolibri_utils/src/exfat_checksum.rs:32-50 | two different neighbouring bytes swapped change the checksum, except exactly when they differ by one and the smaller brings the sum to 0xFFFF |
| `ExfatChecksum.OneByteDetected` | rust_kernel/kolibri_utils/src/exfat_checksum.rs:32-94 | for every length, changing one byte changes the checksum if and only if it is not one of the two skipped ones; with nothing skipped this is the name hash |
| `ExfatChecksum.SuffixInjective` | rust_kernel/kolibri_utils/src/exfat_checksum.rs:32-50 | different sums stay different under a common suffix |
| `ExfatChecksum.SkippedBytesIrrelevant` | rust_kernel/kolibri_utils/src/exfat_checksum.rs:32-50 | the stored checksum's own bytes never influence it |
| `ExfatChecksum.RollingChecksum` | rust_kernel/kolibri_utils/src/exfat_checksum.rs:32-50 | the loop computes the rotate-and-add fold |
| `ExfatChecksum.CalculateSetChecksumField` | rust_kernel/kolibri_utils/src/exfat_checksum.rs:64-75 | the field is stored at offset 2, nothing else changes, and the stored buffer verifies |
| `ExfatPath.PathLookup` | rust_kernel/kolibri_utils/src/exfat_find_lfn.rs:294-403 | end to end on bytes: a path that starts with the UTF-8 encoding of a text and a slash or NUL finds, in any well-formed directory, the first file whose name equals the text unit by unit, letters up to the pairs of `UpperIs`, with the cursor past the slash or at the NUL, or nothing if there is none; an empty directory, or one whose valid data ends with its first sector, gives up at once |
| `ExfatPath.MatchesText` | rust_kernel/kolibri_utils/src/exfat_find_lfn.rs:370-402 | such a path matches exactly the names that equal the text unit by unit, letters up to case |
| `ExfatPath.FindText` | rust_kernel/kolibri_utils/src/exfat_find_lfn.rs:294-403 | the same of the loops themselves, with EAX threaded through every call of the decoder and any buffer address and leftovers |
| `ExfatPath.AnyEax` | rust_kernel/kolibri_utils/src/exfat_find_lfn.rs:271-277 | whatever EAX one decoding step hands to the next, the loops read the units of the path |
| `Utf8.DecodeAny` | rust_kernel/kolibri_utils/src/utf8to16.rs:37-129 | on any bytes and any EAX the register sequence decodes by the kinds of bytes: plain bytes are units, stray continuation bytes are skipped, a lead below 0xE0 takes one continuation byte and others two, and a character cut short is dropped |
| `Utf8.DecodeIgnoresEax` | rust_kernel/kolibri_utils/src/utf8to16.rs:37-129 | on any bytes, the unit decoded and the bytes consumed do not depend on the incoming EAX |
| `Utf8.DecodeEncoded` | rust_kernel/kolibri_utils/src/utf16_to_8.rs:78-107 | decoding an encoded unit, of one, two or three bytes, gives it back and consumes exactly its bytes |
| `Utf8.Utf8To16` | rust_kernel/kolibri_utils/src/utf8to16.rs:37-129 | the decoder's outer loop, which drops continuation bytes, on any bytes and any EAX |
| `Utf8.GatherBytes` | rust_kernel/kolibri_utils/src/utf8to16.rs:59-127 | its inner loop, which shifts the bytes of one character together |
| `ExfatSearch.LookupIsLinearSearch` | rust_kernel/kolibri_utils/src/exfat_find_lfn.rs:294-403 | for every decoder, on every well-formed directory with correct hashes the hash-filtered walk returns what a linear search by case-folded name returns, found or not, with the path cursor past the slash or one byte before the end of the NUL; only a directory whose valid data ends with its first sector gives up at once |
| `ExfatSearch.CursorAtNul` | rust_kernel/kolibri_utils/src/exfat_find_lfn.rs:397-400 | a NUL that is one byte long leaves the cursor at it |
| `ExfatSearch.WalkIsLinear` | rust_kernel/kolibri_utils/src/exfat_find_lfn.rs:347-403 | the same from any item on, whatever state the walk brings along |
| `ExfatSearch.FilterKeepsMatches` | rust_kernel/kolibri_utils/src/exfat_find_lfn.rs:323-345 | the hash filter never hides a match |
| `ExfatSearch.MatchedComponent` | rust_kernel/kolibri_utils/src/exfat_find_lfn.rs:323-338 | the component folded into the buffer is the folded name and a terminator |
| `ExfatSearch.CompareIsMatch` | rust_kernel/kolibri_utils/src/exfat_find_lfn.rs:370-402 | the comparison loop against a buffer holding a name succeeds exactly on a case-insensitive match and leaves the cursor in the right place |
| `ExfatSearch.WalkFileSet` | rust_kernel/kolibri_utils/src/exfat_find_lfn.rs:554-629 | a file set is found if its name matches and passed over without a trace otherwise |
| `ExfatSearch.SkipNames` | rust_kernel/kolibri_utils/src/exfat_find_lfn.rs:554-629 | name entries behind a hash mismatch change nothing |
| `ExfatLookup.UpperFacts` | rust_kernel/kolibri_utils/src/casefold.rs:41-58 | register-wide case folding folds the low unit only, is idempotent, and neither makes nor removes a slash or a zero |
| `ExfatLookup.UpperIs` | rust_kernel/kolibri_utils/src/casefold.rs:41-58 | folding takes a-z to A-Z, the 32 Cyrillic letters from U+0430 to those from U+0410, the 16 from U+0450 to those from U+0400, and nothing else anywhere |
| `ExfatLookup.FoldAlike` | rust_kernel/kolibri_utils/src/casefold.rs:41-58 | two units fold alike if and only if they are equal or such a pair of letters |
| `ExfatLookup.HashStep` | rust_kernel/kolibri_utils/src/exfat_find_lfn.rs:339-345 | the name hash by one more unit: low byte, then high byte, each added to the rotated sum |
| `ExfatSearch.NameUnitAt` | rust_kernel/kolibri_utils/src/exfat_find_lfn.rs:614-618 | unit i of a name is two bytes, low first, from byte 2 + 2 (i mod 15) of name entry i / 15 |
| `ExfatLookup.Lookup.constructor` | rust_kernel/kolibri_utils/src/exfat_find_lfn.rs:813-872 | a context over a directory, with the caller's leftovers in the shared fields |
| `ExfatLookup.Lookup.StepUtf16` | rust_kernel/kolibri_utils/src/exfat_find_lfn.rs:271-277 | one decoding step leaves the folded unit in the low half of EAX, whatever EAX it was given |
| `ExfatLookup.Lookup.FillComponent` | rust_kernel/kolibri_utils/src/exfat_find_lfn.rs:323-338 | the component is folded, terminator included, into the start of the buffer and no further |
| `ExfatLookup.Lookup.HashComponent` | rust_kernel/kolibri_utils/src/exfat_find_lfn.rs:323-345 | the stored hash is that of the folded component without its terminator |
| `ExfatLookup.Lookup.GetNameAt` | rust_kernel/kolibri_utils/src/exfat_find_lfn.rs:554-629 | one entry moves the shared fields and the buffer as specified, including the copy through a stale pointer, which is reported |
| `ExfatLookup.Lookup.CopyInto` | rust_kernel/kolibri_utils/src/exfat_find_lfn.rs:614-618 | fifteen units are copied and terminated |
| `ExfatLookup.Lookup.ComparePath` | rust_kernel/kolibri_utils/src/exfat_find_lfn.rs:370-402 | the loop ends inside the buffer and gives the specified cursor |
| `ExfatLookup.Lookup.FindLfn` | rust_kernel/kolibri_utils/src/exfat_find_lfn.rs:294-403 | the whole lookup equals its specification for every directory and every leftover state |
| `CoffRebase.RebaseTheorem` | rust_kernel/kolibri_utils/src/fix_coff_symbols.rs:54-89 | raising every section address by k, fixing up symbols and lowering the delta by k patches the same slots; a slot changes by +k per DIR32 to an internal symbol, by -k per REL32 to any other, by 0 otherwise, modulo 2^32 |
| `CoffRebase.RelocationRebased` | rust_kernel/kolibri_utils/src/coff_reloc.rs:82-114 | the relocation half of it, on any two images whose symbols differ by the rebase |
| `CoffRebase.FixupRelates` | rust_kernel/kolibri_utils/src/fix_coff_symbols.rs:54-89 | the symbol half: fixing up a rebased image raises exactly the internal symbols, and both fixups return the same value |
| `CoffRebase.EntryShifted` | rust_kernel/kolibri_utils/src/coff_reloc.rs:91-107 | one relocation entry of a rebased image patches the same slot with a shifted addend |
| `CoffRebase.SectionsShifted` | rust_kernel/kolibri_utils/src/coff_reloc.rs:85-113 | all entries of all sections do |
| `CoffMeaning.EntryMeaning` | rust_kernel/kolibri_utils/src/coff_reloc.rs:152-167 | a dword that one entry names, with P the entry's address plus the section's and S the symbol's value: type 6 leaves old + S, type 20 leaves new with P + 4 + new = S + old, any other type leaves it alone, modulo 2^32 |
| `CoffMeaning.DwordGains` | rust_kernel/kolibri_utils/src/coff_reloc.rs:130-174 | a dword that no patch overlaps in part gains the sum of those addends over all entries of all sections that name it |
| `CoffMeaning.ByteStays` | rust_kernel/kolibri_utils/src/coff_reloc.rs:130-174 | a byte that no entry names is unchanged, even if patches overlap |
| `CoffReloc.RunSlot` | rust_kernel/kolibri_utils/src/coff_reloc.rs:130-174 | with slots off the tables, a slot disjoint from or equal to every other gains the modular sum of its addends |
| `CoffReloc.RunFrame` | rust_kernel/kolibri_utils/src/coff_reloc.rs:130-174 | with slots off the tables, every byte in no slot is unchanged, even if slots overlap |
| `CoffReloc.RunOrderIrrelevant` | rust_kernel/kolibri_utils/src/coff_reloc.rs:130-174 | with slots also pairwise disjoint or equal, the run gives what its patches give in any order |
| `CoffReloc.RunIsApply` | rust_kernel/kolibri_utils/src/coff_reloc.rs:130-174 | the in-place run, which rereads its tables, equals the list of patches of the original image |
| `CoffReloc.OrderIrrelevant` | rust_kernel/kolibri_utils/src/coff_reloc.rs:137-142 | any reordering of separate patches gives the same image |
| `CoffReloc.DeltaOnlyMovesSlots` | rust_kernel/kolibri_utils/src/coff_reloc.rs:130-174 | the value added does not depend on the load delta |
| `CoffReloc.ApplySlot` | rust_kernel/kolibri_utils/src/coff_reloc.rs:137-142 | a slot patched many times gains the modular sum |
| `CoffReloc.ApplyFrame` | rust_kernel/kolibri_utils/src/coff_reloc.rs:137-142 | a byte in no slot is unchanged |
| `CoffReloc.PatchAdd` | rust_kernel/kolibri_utils/src/coff_reloc.rs:137-142 | one wrapping addition to a dword, or a panic outside the image |
| `CoffReloc.FixOne` | rust_kernel/kolibri_utils/src/coff_reloc.rs:152-167 | one entry: DIR32, REL32 or nothing |
| `CoffReloc.FixSection` | rust_kernel/kolibri_utils/src/coff_reloc.rs:151-170 | the inner loop runs the entries in order |
| `CoffReloc.FixCoffRelocs` | rust_kernel/kolibri_utils/src/coff_reloc.rs:130-174 | both loops equal the pure run, panics included |
| `CoffSymbols.SymbolsMeaning` | rust_kernel/kolibri_utils/src/fix_coff_symbols.rs:54-89 | each symbol gets its new value, computed from the original image, no other byte changes, and the result is 1 if and only if every external symbol resolves |
| `CoffMeaning.SymbolMeaning` | rust_kernel/kolibri_utils/src/fix_coff_symbols.rs:64-84 | each symbol by its record: section 0 resolves the inline name, or the string table offset if the first dword is zero; 0xFFFF and 0xFFFE stay; any other number adds the address in that section's header |
| `CoffMeaning.ReturnMeaning` | rust_kernel/kolibri_utils/src/fix_coff_symbols.rs:54-89 | the result is 0 if an external symbol resolves to nothing and 1 otherwise |
| `CoffSymbols.FixSymbol` | rust_kernel/kolibri_utils/src/fix_coff_symbols.rs:64-84 | one symbol: external, internal, absolute or debug |
| `CoffSymbols.FixCoffSymbols` | rust_kernel/kolibri_utils/src/fix_coff_symbols.rs:54-89 | the loop equals the pure run |
| `Blit.CallPixel` | rust_kernel/kolibri_utils/src/blit_32.rs:150-220 | a pixel of a call, with X and Y the clipped start plus window, plus client area if relative, plus column and line: if the window map gives it to the slot, its bytes are those of the source pixel as many lines and columns into the bitmap, after the cursor hook at (X, Y), in the screen's format |
| `Blit.CallKeeps` | rust_kernel/kolibri_utils/src/blit_32.rs:150-220 | a byte in no owned pixel of the call is unchanged |
| `Blit.BlitPixel` | rust_kernel/kolibri_utils/src/blit_32.rs:223-339 | every pixel of the clipped rectangle the slot owns receives the packed, cursor-adjusted source colour, when no two pixels share a byte |
| `Blit.BlitFrame` | rust_kernel/kolibri_utils/src/blit_32.rs:223-339 | every byte outside the owned pixels of the rectangle is unchanged |
| `Blit.PackersAgree` | rust_kernel/kolibri_utils/src/blit_32.rs:68-89 | the two 5-6-5 packers agree on every colour |
| `Blit.NextPixel` | rust_kernel/kolibri_utils/src/blit_32.rs:251-254 | adding to the three running offsets reaches the multiplicative offsets of the next pixel, wrap-around included |
| `Blit.RowStarts` | rust_kernel/kolibri_utils/src/blit_32.rs:237-241 | each row starts at its multiplicative offsets |
| `Blit.Store` | rust_kernel/kolibri_utils/src/blit_32.rs:244-249 | the store of each format puts the packed colour and nothing else |
| `Words.U32Bits` | rust_kernel/kolibri_utils/src/blit_32.rs:60-63 | bit i of a 32-bit field is bit i mod 8 of its byte i / 8 |
| `Blit.BlitRow` | rust_kernel/kolibri_utils/src/blit_32.rs:237-255 | one row of a core paints its owned pixels left to right |
| `Blit.BlitCore` | rust_kernel/kolibri_utils/src/blit_32.rs:223-339 | the cores equal the nested-loop specification, for negative and zero sizes too |
| `Blit.LinearRowsSeparate` | rust_kernel/kolibri_utils/src/blit_32.rs:472-477 | row tables with a pitch no smaller than the row keep all pixels apart |
| `Blit.SourceFromBitmap` | rust_kernel/kolibri_utils/src/blit_32.rs:419-424 | the stepped source address is line times stride plus four times column, from the bitmap, modulo 2^32 |
| `Blit.Blit32` | rust_kernel/kolibri_utils/src/blit_32.rs:150-220 | an empty clip changes nothing; otherwise the frame buffer is painted at the wrapped screen position |
| `NtfsRecord.RecordReadsBack` | tools/mkfs_utils/ntfs_minimal.py:67-117 | for every accepted list of sound attributes the fix-up of the built record is valid, the reader lists them in order, and the kernel walk ends at the terminator if and only if eight bytes are left there, at the record's end otherwise |
| `NtfsRecord.FixupRestores` | scripts/ntfs_setfileinfo_oracle.py:192-222 | fixing up a protected body gives it back with the update sequence array filled in |
| `NtfsRecord.FixMeaning` | scripts/ntfs_setfileinfo_oracle.py:204-222 | on any record with a complete array the fix-up is valid if and only if every sector ends with the sequence number, restores every sector end and changes no other byte |
| `NtfsRecord.BuildFileRecord` | tools/mkfs_utils/ntfs_minimal.py:67-117 | the builder's loops produce the protected body, or raise exactly when the attributes do not fit |
| `NtfsRecord.LayAttributes` | tools/mkfs_utils/ntfs_minimal.py:99-105 | attributes one after another, then the terminator, in a buffer that may grow |
| `NtfsRecord.ApplyUsaFixup` | scripts/ntfs_setfileinfo_oracle.py:192-222 | the fix-up loop on any bytes and any sector size, exceptions included |
| `NtfsRecord.IterAttributes` | scripts/ntfs_setfileinfo_oracle.py:238-275 | the attribute loop on any bytes |
| `NtfsRecord.ListTrail` | scripts/ntfs_setfileinfo_oracle.py:244-274 | on any bytes the loop lists the attributes along the trail of sizes until an end mark, type 0, the end of the bytes or a size below 24 or too large, and raises exactly on a header cut after its type |
| `NtfsRecord.WalkLists` | scripts/ntfs_setfileinfo_oracle.py:244-274 | walking laid-out attributes lists exactly them |
| `NtfsRecord.WalkFileRecordTerminator` | scripts/ntfs_setfileinfo_oracle.py:378-419 | the kernel-style walk on any bytes, every failure included |
| `NtfsRecord.WalkTrail` | scripts/ntfs_setfileinfo_oracle.py:386-418 | on any bytes the walk follows the trail of sizes, at most 64, and its outcome tells exactly how the trail ends |
| `NtfsRecord.WalkReaches` | scripts/ntfs_setfileinfo_oracle.py:386-418 | the walk over laid-out attributes never meets a zero size and reaches the terminator |
| `NtfsRecord.ResidentReadsBack` | scripts/ntfs_setfileinfo_oracle.py:251-263 | a resident attribute reads back with its type, name and value |
| `NtfsIndex.IndexReadsBack` | tools/mkfs_utils/ntfs_minimal.py:281-318 | parsing the printed index value lists the same names, references, times, sizes and flags, in order, up to the end entry or the first reference that is all ones |
| `NtfsIndex.EntryReadsBack` | tools/mkfs_utils/ntfs_minimal.py:246-278 | one entry reads back with every field |
| `NtfsIndex.EntriesParse` | scripts/ntfs_setfileinfo_oracle.py:294-331 | the parser walks padded entries without losing its place |
| `NtfsIndex.AllListed` | scripts/ntfs_setfileinfo_oracle.py:294-331 | with no all-ones reference every entry is listed |
| `NtfsIndex.AttrIndexRoot` | tools/mkfs_utils/ntfs_minimal.py:281-318 | the attribute builder's loop and size patching, raising exactly when a field does not fit |
| `NtfsIndex.ParseIndexEntries` | scripts/ntfs_setfileinfo_oracle.py:285-331 | the parser loop on any bytes |
| `NtfsIndex.ParseTrail` | scripts/ntfs_setfileinfo_oracle.py:294-331 | on any bytes the parser lists the entries of at least 82 bytes, each at the next multiple of eight, until none stands there, and raises exactly on sizes cut off behind a reference |
| `NtfsExtract.ImageReadsBack` | scripts/ntfs_setfileinfo_oracle.py:534-544 | for every call the formatter accepts and every case mapping, extracting a name yields what was stored for the first file whose base name matches, and fails if and only if none matches |
| `NtfsExtract.SmallFileReadsBack` | scripts/ntfs_setfileinfo_oracle.py:534-544 | a file of at most 700 bytes whose base name is unique under the case mapping comes back byte for byte |
| `NtfsExtract.LargeFileIsStub` | tools/mkfs_utils/ntfs_minimal.py:366-371 | a larger file with a unique name comes back as its stub |
| `NtfsExtract.FileTerminatorFound` | scripts/ntfs_setfileinfo_oracle.py:386-418 | the kernel walk reaches the terminator of a file record if and only if it stands at or below byte 1016 |
| `NtfsExtract.FileBuilds` | tools/mkfs_utils/ntfs_minimal.py:493-511 | a file gets a record if and only if name, data and terminator are within their limits, the last being byte 1020 |
| `NtfsAccepts.TerminatorMissed` | tools/mkfs_utils/ntfs_minimal.py:340-531 | so there are accepted calls, a file with a name of 38 units and 700 bytes, in every image of which the walk runs off that file's record |
| `NtfsExtract.WrittenClustersMarked` | tools/mkfs_utils/ntfs_minimal.py:408-412 | the volume bitmap marks every cluster written if and only if the volume has at most 32768 clusters |
| `NtfsExtract.BootFound` | scripts/ntfs_setfileinfo_oracle.py:151-189 | the reader finds and decodes the boot sector, behind an MBR or not |
| `NtfsExtract.RootFound` | scripts/ntfs_setfileinfo_oracle.py:334-354 | the index search finds the entry of the first matching file, with its record and sequence number, size, times and kind, or none |
| `NtfsExtract.FileRead` | scripts/ntfs_setfileinfo_oracle.py:534-544 | the record of a file yields its bytes |
| `NtfsExtract.FindNtfsBootOffset` | scripts/ntfs_setfileinfo_oracle.py:151-165 | the search over partition entries on any image |
| `NtfsExtract.ReadMftRecord` | scripts/ntfs_setfileinfo_oracle.py:225-235 | a record inside the image, fixed up |
| `NtfsExtract.FindIndexRootI30` | scripts/ntfs_setfileinfo_oracle.py:278-282 | the first resident index attribute of that name |
| `NtfsExtract.FindIndexEntryByName` | scripts/ntfs_setfileinfo_oracle.py:334-354 | the search on any image, raising included |
| `NtfsExtract.ExtractNtfsRootFile` | scripts/ntfs_setfileinfo_oracle.py:534-544 | the extraction on any image |
| `NtfsRuns.MftDescribed` | tools/mkfs_utils/ntfs_minimal.py:400-436 | of every finished image, read by a decoder of mapping pairs written from the format: record 0 describes the MFT as one run from cluster 4, of the length it was written with; sizes and last VCN agree, and following the run yields every record |
| `NtfsRuns.MftBitmapDescribed` | tools/mkfs_utils/ntfs_minimal.py:404-436 | its bitmap attribute describes cluster 33, whose 16 bytes mark exactly the live records |
| `NtfsRuns.VolumeBitmapDescribed` | tools/mkfs_utils/ntfs_minimal.py:408-490 | record 6 describes cluster 34; sizes and last VCN agree with that if and only if the volume has at most 32768 clusters, and then the bytes mark exactly the first 35 |
| `NtfsRuns.StreamReads` | tools/mkfs_utils/ntfs_minimal.py:167-210 | a non-resident attribute reads back with kind, VCNs and sizes; its run is the one asked for if and only if it has fewer than 256 clusters and starts below cluster 128 |
| `NtfsFormat.FormatMinimalNtfs` | tools/mkfs_utils/ntfs_minimal.py:340-531 | raises exactly when some field or record does not fit; otherwise boot sectors, MBR, every MFT record, mirror and bitmaps stand whole in the image at once, and every other byte is zero |
| `NtfsAccepts.AcceptsExactly` | tools/mkfs_utils/ntfs_minimal.py:340-531 | a call is accepted if and only if sizes fit their fields, every file fits its record, and the index entries take at most 704 bytes of the root record |
| `NtfsAccepts.RootBuilds` | tools/mkfs_utils/ntfs_minimal.py:460-473 | given small files, the root record builds if and only if its entries take at most 704 bytes |
| `NtfsFormat.FewFiles` | tools/mkfs_utils/ntfs_minimal.py:460-473 | a root record that fits lists at most eight files, which is what keeps the MFT below its mirror |
| `NtfsFormat.WriteTables` | tools/mkfs_utils/ntfs_minimal.py:523-531 | MFT, mirror and the two bitmaps do not overlap each other or the boot area |
| `NtfsFormat.WriteBoot` | tools/mkfs_utils/ntfs_minimal.py:375-385 | boot sector, its copy and the MBR do not overlap, and the rest is zero |
| `NtfsFormat.ListSlots` | tools/mkfs_utils/ntfs_minimal.py:513-519 | records in number order, zero where absent, padded to whole clusters |
| `NtfsFormat.BuildRecords` | tools/mkfs_utils/ntfs_minimal.py:414-511 | the dictionary holds exactly the live records, or some record raises |
| `NtfsFormat.MarkFirst` | tools/mkfs_utils/ntfs_minimal.py:221-228 | exactly the first numbers are marked, or marking raises past the end |
| `NtfsFormat.SetBitBits` | tools/mkfs_utils/ntfs_minimal.py:223 | setting a bit sets that bit and no other |
| `NtfsFormat.BaseName` | tools/mkfs_utils/ntfs_minimal.py:456 | the part of a path after its last slash |
| `NtfsFields.BootFieldsRead` | tools/mkfs_utils/ntfs_minimal.py:43-61 | sector count, index block size and signature of boot sector and copy |
| `NtfsFields.PartitionRead` | tools/mkfs_utils/ntfs_minimal.py:326-337 | one type 7 partition from its first sector to the end of the disk, the other three entries blank |
| `NtfsFields.RecordHeaderRead` | tools/mkfs_utils/ntfs_minimal.py:67-117 | every record filled in: sequence number, one link, in use, directory only as the root, both sizes, no base record |
| `NtfsFields.FileRecordRead` | tools/mkfs_utils/ntfs_minimal.py:493-511 | the record of a file: four times and the archive flag, the root as parent, the base name in the Win32 name space, and its bytes |
| `NtfsFields.VolumeRecordRead` | tools/mkfs_utils/ntfs_minimal.py:437-450 | record 3 is `$Volume` with eight zero bytes |
| `NtfsFields.RootRecordRead` | tools/mkfs_utils/ntfs_minimal.py:451-473 | record 5 is the directory `.` with a resident index named `$I30` |
| `NtfsFields.BitmapRecordRead` | tools/mkfs_utils/ntfs_minimal.py:474-490 | record 6 is `$Bitmap` |
| `NtfsFields.IndexHeadReads` | tools/mkfs_utils/ntfs_minimal.py:281-318 | the index is of file names, by the file name rule, in blocks of one 4096-byte cluster, and its sizes are its length |
| `NtfsFields.EntryRestReads` | tools/mkfs_utils/ntfs_minimal.py:246-278 | each entry names the root as parent, a size on disk of at least one, and the Win32 name space |
| `Fat12Layout.LaidFileReads` | scripts/qmp_ipv4_output_soak.py:48-111 | a file laid out as the disk format has it, at any depth, areas by the parameter block, chains in the allocation table, 8.3 names, reads back byte for byte |
| `Fat12Layout.BrokenPathMissing` | scripts/qmp_ipv4_output_soak.py:94-111 | a path that leads through directories to a name that is absent, or a directory where a file is wanted, or the reverse, reads as missing |
| `Fat12Layout.EntryIsTwelveBits` | scripts/qmp_ipv4_output_soak.py:62-65 | an entry of the allocation table, taken as one string of bits, is its twelve-bit number of that index, both ways |
| `Fat12Layout.ClustersInOrder` | scripts/qmp_ipv4_output_soak.py:73-74 | clusters follow each other from the start of the data area, the first numbered 2 |
| `Fat12Layout.UpperAsciiIs` | scripts/qmp_ipv4_output_soak.py:88-93 | labels: the 26 small letters become capitals, other ASCII stays, the rest is replaced |
| `Fat12Append.AppendReadsBack` | scripts/qmp_ipv4_output_soak.py:114-201 | on a well-formed image a successful append of a new line reads back as old text, separator if needed, line and line end |
| `Fat12Append.LineAdded` | scripts/qmp_ipv4_output_soak.py:119-124 | what is written: the old text, a line end if it has none, the line without the blanks at its ends, a line end |
| `Fat12Append.AppendTwice` | scripts/qmp_ipv4_output_soak.py:114-201 | appending a line without a line end inside a second time finds it there and changes nothing |
| `Fat12Append.PathIsText` | scripts/qmp_ipv4_output_soak.py:116-149 | the path is SETTINGS, AUTORUN.DAT, and the raw names are those padded with spaces |
| `Fat12Append.UnixIs` | scripts/qmp_ipv4_output_soak.py:120 | every carriage return with a line feed becomes a line feed, and nothing else changes |
| `Fat12Append.BlanksAre` | scripts/qmp_ipv4_output_soak.py:120-123 | the twelve characters that are stripped |
| `Fat12Append.AppendOutcome` | scripts/qmp_ipv4_output_soak.py:114-201 | on a well-formed image whose file the reader finds, an append of a new line answers False and changes nothing if the writer finds no such raw names; otherwise it succeeds if and only if the text fits the file's clusters and the size field, answers False exactly when it does not fit the clusters, and raises otherwise |
| `Fat12Append.LowerCaseLabel` | scripts/qmp_ipv4_output_soak.py:141-147 | a directory named in lower case is one the reader finds and the writer does not |
| `Fat12Append.OthersUnchanged` | scripts/qmp_ipv4_output_soak.py:114-201 | every path that does not lead through the rewritten chains, or leads through the settings directory to another entry, reads the same afterwards |
| `Fat12Append.UnchangedUnlessStored` | scripts/qmp_ipv4_output_soak.py:114-176 | on any image, a False result, or a line already present, leaves the image untouched |
| `Fat12Append.OverwriteMeaning` | scripts/qmp_ipv4_output_soak.py:178-188 | writing a chain in place, with the FAT reread from the image being changed, stores the bytes in order and changes nothing else |
| `Fat12Append.NameHitsLabel` | scripts/qmp_ipv4_output_soak.py:141-147 | the entry found by raw name is the one the reader finds by label, when labels are unique |
| `Fat12Append.ResizedEntry` | scripts/qmp_ipv4_output_soak.py:190 | patching a size leaves every other field of every entry alone |
| `Fat12.ReadChain` | scripts/qmp_ipv4_output_soak.py:67-76 | the walk terminates on every image, cycles included, and gives the bytes of the clusters visited |
| `Fat12.CountChain` | scripts/qmp_ipv4_output_soak.py:166-173 | the counting walk likewise |
| `Fat12.ChainSound` | scripts/qmp_ipv4_output_soak.py:71-75 | no cluster is visited twice, none that was seen before and none outside the data range |
| `Fat12.ReadFile` | scripts/qmp_ipv4_output_soak.py:48-111 | path resolution on any image |
| `Fat12.Floppy.WriteChain` | scripts/qmp_ipv4_output_soak.py:178-188 | the in-place write loop on any image |
| `Fat12.Floppy.Rewrite` | scripts/qmp_ipv4_output_soak.py:149-201 | find directory and file, check room, write file, write directory |
| `Fat12.Floppy.AppendAutorunLine` | scripts/qmp_ipv4_output_soak.py:114-201 | the whole append on any image: result and image as specified, also when an exception cuts it short |
| `TimePack.CountsSeconds` | scripts/ext_setfileinfo_oracle.py:65-87 | the count is zero at the start of 2001, and each second up to the end of 2136 in the every-fourth-year calendar adds exactly one |
| `TimePack.StrictlyIncreasing` | scripts/ext_setfileinfo_oracle.py:65-87 | later valid times give larger counts |
| `TimePack.NoWrap` | scripts/ext_setfileinfo_oracle.py:82-87 | no 32-bit reduction bites on a valid date |
| `TimePack.GregorianAgreement` | scripts/ext_setfileinfo_oracle.py:65-87 | equal to the Gregorian count if and only if the date is before March 2100, one day ahead after |
| `TimePack.FsCalculateTime` | scripts/ext_setfileinfo_oracle.py:65-87 | the conversion with its downward month loop, on any field values |
| `TimePack.WriteTimePack` | rust_kernel/kolibri_utils/src/ext_write_time.rs:24-47 | for every second count the stored pair decodes to the count plus the epoch offset, and no other word changes |
| `TimePack.UnixMeaning` | rust_kernel/kolibri_utils/src/ext_write_time.rs:24-34 | for a valid date, the second count plus the epoch offset is the Gregorian count since 1970, a day ahead from March 2100 on |
| `TimePack.FiletimeMeaning` | scripts/ntfs_setfileinfo_oracle.py:109-121 | the FILETIME is ten million times the Gregorian seconds since 1601, a day ahead from March 2100 on |

## Left out

- DrawRowFasm: models the general inner loop at scale factor 1 only; the scaled smoothing shapes are not modelled, and production sends those multipliers to the assembly version.
- DrawCharFasm: models multiplier 1 only, for the same reason.
- DrawChar: glyph memory and frame buffer are taken not to alias; the screen read is an arbitrary function.
- RasterLayers: says nothing of straddled pixels, which a pitch that is not a multiple of 4 and narrower than the drawn columns brings about; from 36 bytes on `LaterRow` does.
- AloneExact, LitColumn, NoPixelLost, GlyphColumn, NinthColumn, EdxExact: the same.
- EdxExact: the necessary half needs a pitch of at least 36 bytes; below that several later rows may blend one pixel, and the condition is only shown to be sufficient (`EdxHarmless`).
- Inline assembly, register preservation and calling-convention trampolines.
- ExfatLookup: a name entry before any file or stream entry, which the source would copy through the path pointer, ends the model run as `Stray`.
- Utf8: the destination room count of the encoder and its partial failures; a read past the end of the bytes is `None`.
- CoffReloc, CoffSymbols: offsets are unbounded integers, so 32-bit pointer wrap in table addresses is not modelled; the external symbol resolver is an arbitrary function.
- RunIsApply: needs patch slots that do not lie on the tables the run reads.
- Blit: the clipper's answer and the cursor hook are arbitrary; the three cores are one method with the pixel format as a parameter; the source bitmap and the window map do not alias the frame buffer.
- NTFS header and attribute builders: straight-line field packing is modelled as the concatenation of the fields in offset order, not as a sequence of in-place stores; loops are modelled as loops.
- NTFS names are UTF-16 units and their little-endian bytes; encoding and decoding errors, the sort order of the file dictionary and text given as `str` are not modelled, and the clock and the stub text of large files are parameters.
- NonResident: named non-resident attributes; the decoder of mapping pairs in `NtfsRuns` is not one of the repository's Python or Rust readers.
- Fat12: the path is given as upper-case components and the line as Latin-1 bytes; characters above 255 are not modelled.
- AppendReadsBack: needs unique labels in both directories, since the reader searches by label and the writer by raw name.
- WriteTimePack: the two slots are distinct words of one inode.
- `ext_read_all_times`, `cp866_to_utf8_string`, `ahci_*`, `app_header`, `coff_get_align`, `fat_get_sector`, `exfat_get_sector`, `ext_set_file_info` and the other routines of the Rust port that the file table does not name.
- The page allocator, QEMU drivers, image preparation and command-line handling.
