# Drunken-bishop randomart, modelled in Dafny

This project models the core of a small Python tool that draws a key
fingerprint as "randomart". It uses the drunken-bishop walk that OpenSSH uses
for host-key fingerprints (randomart.py:8-9). A hex fingerprint is decoded
into diagonal bishop moves, two bits per move. The bishop walks a bounded room
and stops at the walls. Every cell it lands on gets one more coin. Then the
start cell is overwritten with 15 and the end cell with 16. Each count becomes
one glyph, and the room is drawn as a bordered text block, optionally with a
`[label]` centred in the bottom border.

Modules, in dependency order:

- `Wrappers` (wrappers.dfy): `Option` and `Result`.
- `Moves` (moves.dfy): `hex_to_dirs`. It follows the source's string stages:
  `int(pair, 16)`, `bin(..)[2:].zfill(8)`, the split into bit pairs, the
  `reverse` and the direction table. These stages are proved equal to an
  arithmetic reference (`MovesOf`, `ByteMoves`): bytes left to right, and
  within each byte the low bit pair first. The method `HexToDirs` builds the
  lists the way the source's loops do.
- `Glyphs` (glyphs.dfy): `get_coin_sym`.
- `Walk` (walk.dfy): `get_position`, and the walk of `get_room` as functions.
  `Trail` is the list of landing cells. `Tally` holds the `Counter`
  increments. `RoomOf` adds the sentinel overwrites.
- `Layout` (render.dfy): the text that `display` produces, as functions. It
  includes CPython's `str.center` and a `split('\n')` view that is used to
  state the line structure.
- `Art` (randomart.dfy): the class `RandomArt`. Its constant fields are
  `hashalg`, `roomSize` and `start`. Its methods are `GetRoom`, `Display` and
  `Call`, written with loops and proved equal to the functions above. The
  module also holds the worked examples.

The room is a `map<(int, int), int>`, and `Count` reads a missing cell as 0,
like `Counter`. `hashalg` is an `Option<string>`. `None` and `Some("")` both
mean "no label".

Three behaviours of the source that the model keeps as written:

- `__init__` (randomart.py:74-80) validates neither `room_size` nor `start`,
  so the constructor accepts any values. The lemmas about bounds require a
  width and a height of at least 1.
- When the bracketed label is longer than the width, `str.center` returns it
  unpadded, and the bottom line is longer than the others
  (`Layout.BottomShape`).
- Unlike OpenSSH, counts are not capped, so a busy cell renders '!'
  (`Art.CrowdedCorner`).

## Model

| member | source | states |
|---|---|---|
| `Moves.Delta` | randomart.py:14-17 | each move is a diagonal unit step: both components are -1 or +1 |
| `Moves.CodeOf` | randomart.py:42-45 | the direction table is invertible: every move has a two-bit code that maps back to it |
| `Moves.HexValue` | randomart.py:31 | a hex digit of either case has a value below 16, and that value prints back as the same digit in lower case |
| `Moves.ParseByte` | randomart.py:31 | `int(pair, 16)` of two hex digits is below 256; the high digit is the quotient by 16 and the low digit the remainder |
| `Moves.MoveOfCode` | randomart.py:42-45 | the low bit of a two-bit code sets the x direction (1 east, 0 west) and the high bit the y direction (1 south, 0 north) |
| `Moves.DirectionMap` | randomart.py:42-45 | `direction_map` on a bit pair: the second character sets the x direction and the first the y direction, '1' meaning +1 |
| `Moves.BinaryDigits` | randomart.py:32 | `bin(v)[2:]` is a non-empty string of bits, long enough for v, starting with '1' unless v is 0 (its value is fixed by `Moves.ZFillBinary`) |
| `Moves.ZFill` | randomart.py:32 | `zfill(width)` pads on the left with '0' only, to exactly `width` when the string is shorter, and keeps the string as its suffix |
| `Moves.Bin8` | randomart.py:32 | `bin(decimal)[2:].zfill(8)` is at least eight characters; for a byte, `Moves.Bin8Bits` fixes it |
| `Moves.Bin8Bits` | randomart.py:32 | for b < 256, `bin(b)[2:].zfill(8)` is exactly the eight-bit numeral of b, most significant bit first |
| `Moves.SplitPairs` | randomart.py:38 | the list comprehension yields ⌈len/2⌉ pieces (each piece is given by `Moves.SplitPairsAt`) |
| `Moves.Reverse` | randomart.py:39 | `list.reverse` keeps the length (element i becomes element len-1-i, by `Moves.ReverseAt`) |
| `Moves.Directions` | randomart.py:47 | `[direction_map[j] for j in pairs]` has one move per pair, move i being the table entry of pair i |
| `Moves.BinBytes` | randomart.py:27-32 | the first loop builds one numeral per byte, so len(hex)/2 of them |
| `Moves.BinBytesAt` | randomart.py:30-32 | numeral k of `bin_bytes` is `bin(int(hex[2k:2k+2], 16))[2:].zfill(8)` |
| `Moves.PairsOf` | randomart.py:34-40 | when every numeral has eight characters, the second loop yields four bit pairs per numeral |
| `Moves.ZFillBinary` | randomart.py:32 | `bin(v)[2:].zfill(n)` is the fixed-width n-bit numeral of v whenever v < 2^n |
| `Moves.SplitPairsAt` | randomart.py:38 | element i of `[s[i:i + 2] for i in range(0, len(s), 2)]` is the slice s[2i:2i+2], cut short at the end of s |
| `Moves.ReversedPairs` | randomart.py:37-40 | cutting a 2k-bit numeral into pairs and reversing the list gives the k lowest bit pairs, lowest first |
| `Moves.ByteGroups` | randomart.py:32-47 | one byte through bin/zfill, split, reverse and the direction table gives the moves of b%4, b/4%4, b/16%4, b/64 in that order |
| `Moves.StagesAreReference` | randomart.py:27-47 | the three list stages of the source compute the reference decoding (bytes in order, low pair first within a byte) |
| `Moves.Decode` | randomart.py:23-49 | decoding fails exactly when the length is odd (the assertion on line 25) |
| `Moves.DecodeIsReference` | randomart.py:25-47 | for even-length hex, decoding succeeds and equals the reference decoding |
| `Moves.OneByteDecode` | randomart.py:23-49 | a two-digit fingerprint decodes to the four moves of its byte |
| `Moves.DecodeLength` | randomart.py:25-47 | an even-length fingerprint yields exactly 2·len(hex) moves, four per byte |
| `Moves.DecodeAt` | randomart.py:30-47 | move 4k+j is the code of the j-th base-four digit of byte k, counted from the least significant |
| `Moves.MovesOfAt` | randomart.py:30-40 | the reference decoding puts byte k's four moves at positions 4k..4k+3 |
| `Moves.MovesOfAppend` | randomart.py:30-40 | the reference decoding distributes over concatenation of whole bytes |
| `Moves.DecodeAppend` | randomart.py:30-40 | decode(a + b) == decode(a) + decode(b) for even-length a and b: bytes keep their order |
| `Moves.ByteRoundTrip` | randomart.py:37-47 | encoding a byte's four moves gives the byte back |
| `Moves.MovesRoundTrip` | randomart.py:37-47 | every four moves are the moves of the byte they encode |
| `Moves.ByteMovesInjective` | randomart.py:37-47 | the four moves of a byte determine that byte |
| `Moves.MovesOfEncodeHex` | randomart.py:30-47 | the reference decoding of the hex encoding of moves is those moves |
| `Moves.EncodeDecode` | randomart.py:23-49 | every sequence of whole bytes' worth of moves is the decoding of some fingerprint |
| `Moves.HexToDirs` | randomart.py:23-49 | the list-building loops return exactly `Decode`: the odd-length failure or the moves |
| `Glyphs.CoinSym` | randomart.py:51-71 | counts 0..16 map to the characters of " .o+=*BOX@%&#/^SE" in order, and every other integer to '!' |
| `Glyphs.GlyphsDistinct` | randomart.py:54-71 | the seventeen table glyphs are pairwise distinct and none is the fallback |
| `Glyphs.SentinelGlyphs` | randomart.py:55-71 | 15 shows 'S', 16 shows 'E', 0 shows a blank |
| `Walk.GetPosition` | randomart.py:86-105 | with w,h ≥ 1 the result is inside the room for any input position; when position+move is inside, the result is exactly position+move |
| `Walk.StopsAtWall` | randomart.py:96-103 | an axis whose target is past a wall takes that wall's coordinate (stop, not bounce); with no room on an axis it is 0 |
| `Walk.AxesIndependent` | randomart.py:96-103 | each output coordinate depends only on its own coordinate, delta and dimension |
| `Walk.ClampExamples` | randomart.py:96-103 | NW from (0,0) stays at (0,0), and NW from (0,5) gives (0,4) |
| `Walk.Trail` | randomart.py:110-112 | the walk lands once per move (`Walk.TrailStep` gives each landing cell) |
| `Walk.CountUpdate` | randomart.py:113-117 | the `Counter` law the walk relies on: writing v into a cell (`room[c] += 1`, `room[c] = 15`, `room[c] = 16`) makes that cell read v and leaves every other cell's count unchanged; a fresh `Counter()` reads 0 everywhere |
| `Walk.Tally` | randomart.py:109-113 | the counts are kept for exactly the cells landed on, each at least 1 (exact values in `Walk.TallyCounts`) |
| `Walk.RoomOf` | randomart.py:109-117 | the room has an entry for exactly the start and the landing cells (values in `Walk.RoomSentinels`) |
| `Walk.TrailStep` | randomart.py:110-112 | the i-th landing cell is one clamped step from the previous cell, or from the start when i = 0 |
| `Walk.TrailInRoom` | randomart.py:110-112 | every landing cell lies inside the room, whatever the start, and, after at least one move, the end cell |
| `Walk.TallyCounts` | randomart.py:109-113 | before the sentinels, each cell's count is the number of steps that landed on it; the start gets no initial count |
| `Walk.WalkConservation` | randomart.py:109-113 | before the sentinels, the counts over the room add up to the number of moves |
| `Walk.RoomSentinels` | randomart.py:116-117 | after the walk the end holds 16, the start holds 15 unless it is the end (then 16), and every other cell keeps its visit count |
| `Walk.EmptyWalk` | randomart.py:109-117 | with no moves, the room's only entry is the start, holding 16 |
| `Walk.CornerStays` | randomart.py:96-103 | from any corner, a move aimed outward on both axes leaves the bishop on that corner |
| `Walk.CornerWalk` | randomart.py:111-113 | from any corner, two outward moves land on the corner twice, and the corner is counted twice |
| `Layout.Repeat` | randomart.py:129 | `c * n` is max(n, 0) copies of c |
| `Layout.Center` | randomart.py:127 | `str.center` leaves a string of at least `width` unchanged; otherwise it pads to `width`, with the odd fill character on the left only when the width is odd |
| `Layout.TopBorder` | randomart.py:131 | the top border is max(w, 0) + 2 characters: '+', dashes, '+' |
| `Layout.BottomBorder` | randomart.py:126-129 | without a label (None or "") the bottom border is the top border; with one it is max(w, len + 2) + 2 characters between two '+' |
| `Layout.RowGlyphs` | randomart.py:139-140 | the inner loop writes one glyph per column (which glyph: `Layout.RowShape`) |
| `Layout.Row` | randomart.py:138-141 | a body row is max(w, 0) + 2 characters, opening and closing with '|' |
| `Layout.Rows` | randomart.py:137-141 | the outer loop writes one body row per y (row y itself: `Layout.LinesShape`) |
| `Layout.Lines` | randomart.py:131-142 | the block has max(h, 0) + 2 lines, the top border first and the bottom border last |
| `Layout.JoinLines` | randomart.py:131-142 | the joined text ends with the last line, with no newline after it; one line joins to itself |
| `Layout.Render` | randomart.py:121-144 | the text `display` returns ends with the bottom border |
| `Layout.TopShape` | randomart.py:126-131 | the top border is '+', w dashes, '+'; so is the bottom border when the label is None or "" |
| `Layout.BottomShape` | randomart.py:126-127 | with a label, the bottom border is w+2 long with "[label]" at its centred offset when the label fits, and "+[label]+" when it does not fit |
| `Layout.RowShape` | randomart.py:137-141 | a body row is w+2 characters: a vertical bar, the glyph of each cell (x, y) for x in 0..w-1, a vertical bar |
| `Layout.LinesShape` | randomart.py:131-142 | the lines are the top border, the body rows for y = 0..h-1 in order, and the bottom border, h+2 lines in all |
| `Layout.SplitJoin` | randomart.py:131-142 | splitting newline-joined lines at '\n' gives back the lines, so the block has no trailing newline |
| `Layout.RenderLayout` | randomart.py:131-142 | the rendered text splits into exactly the h+2 lines of the layout |
| `Layout.RenderCell` | randomart.py:137-141 | cell (x, y) of the room is character x+1 of line y+1 of the text, and that line is w+2 characters |
| `Layout.DefaultBorders` | randomart.py:125-131 | without a label, the 17-column room has `+-----------------+` at both top and bottom |
| `Art.DefaultStart` | randomart.py:77-80 | the default start is (w//2, h//2), in the room when w,h ≥ 1 |
| `Art.ArtOf` | randomart.py:82-84 | `__call__` fails exactly on an odd-length fingerprint, with the odd-length error |
| `Art.RandomArt.constructor` | randomart.py:74-80 | the fields hold the given label and size, and the given start or the centre; nothing is validated |
| `Art.RandomArt.GetRoom` | randomart.py:107-119 | the counting loop and the two overwrites return the odd-length error, or the room `RoomOf` of the decoded moves |
| `Art.RandomArt.Display` | randomart.py:121-144 | the nested loops build exactly the rendered layout |
| `Art.RandomArt.Call` | randomart.py:82-84 | `__call__` returns the decoding error, or the rendering of the room of the decoded walk |
| `Art.ZeroByteMoves` | randomart.py:30-47 | the fingerprint "00" decodes to four NW moves |
| `Art.ZeroByteTrail` | randomart.py:110-112 | from (8,4) in the 17×9 room, four NW moves land on (7,3), (6,2), (5,1), (4,0) |
| `Art.ScenarioA` | randomart.py:107-119 | for "00" in the default room the start (8,4) renders 'S' and the end (4,0) renders 'E' |
| `Art.ArtSentinels` | randomart.py:82-142 | in the art of an even-length fingerprint the end cell shows 'E', and the start cell shows 'S', or 'E' when the walk ends where it began |
| `Art.WalkSentinels` | randomart.py:107-142 | the same for the rendered room of any list of moves: the end is in the room and shows 'E'; the start shows 'S', or 'E' when it is the end |
| `Art.CornerPush` | randomart.py:99-103 | k NW moves from (1,1) all land on the corner (0,0) |
| `Art.CrowdedCorner` | randomart.py:54-71 | some fingerprint leaves a count of 19 in a cell, which renders as '!', because counts are not capped |

## Left out

- The `__main__` block (randomart.py:147-173) is not modelled. It parses arguments, reads stdin, hashes with SHA3-512 and writes SVG through `svgwrite`, all of which are I/O or library calls.
- Non-hex characters are excluded by the precondition `IsHexString`. `int(pair, 16)` accepts some odd inputs (`' f'`, `'+f'`), raises `ValueError` on others, and `'-f'` ends in a `KeyError` at the direction lookup. Only the odd-length assertion is modelled as an error (`OddLength`).
- The bound lemmas (`Walk.GetPosition`'s first ensures, `Walk.TrailInRoom`, `Walk.WalkConservation`) require a width and height of at least 1. The functions themselves are total, as in Python: with a dimension of 0, clamping yields coordinate 0.
- `collections.Counter` is modelled as a map read with default 0. Reading a missing key in `display` does not insert it, so the model does not need that detail.
- Python's dynamic typing is not modelled: `room_size` and `start` are pairs of integers, and `hashalg` is `None` or a string.
- Determinism holds by construction, because every operation is a function or a method proved equal to one. There is no separate lemma for it.
- Newlines inside the label are excluded by the line-structure lemmas (`Layout.RenderLayout`, `Layout.RenderCell`, `Art.ArtSentinels`). A label with a newline would add lines; `Art.RandomArt.Display` is still proved exact for it.
