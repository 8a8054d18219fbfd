# beadify colour matcher — a Dafny model

beadify turns an image into a bead pattern. Each pixel colour is matched
against a catalogue of bead colours. Each catalogue row has a hex colour,
COCO and MARD codes and an `available` flag. For each colour the program
offers the K nearest catalogue entries by colour distance, and lets the
user pick one option per colour in a small editor. A command-line tool
answers one hex colour at a time with its five nearest catalogue entries.

This project models the parts of that program that are logic rather than
drawing:

- `color.py`:
  - `hex_to_rgb` and `rgb_to_hex`, with Python's own `str.lstrip`, slicing,
    `int(s, 16)` and `'{:02x}'` semantics;
  - the parse half of `hex_to_srgb`;
  - `find_closest_colors`: filter by availability, pair each entry with its
    distance, stable sort by distance, keep the first `k`. The loop is a
    method, proved against a function; the library sort is a stable
    insertion sort.
- `gui.py`:
  - `load_src_img`: nested loops over an image, building the colour grid
    and the first-seen-ordered dict of unique colours;
  - `prepare_pxl_map`: fills that dict in place;
  - the two row lookups;
  - the editor state: the choice table, the focus pixel and the two style
    flags, updated by the button and click callbacks. This is a class whose
    methods change its fields.
- `cli.py`: the classification of one input line (strip, `exit`/`quit`,
  six-hex-digit validation) and the lookup done for an accepted line.

Modules:

- `Wrappers`: Option, Result, Python's exception kinds, Min.
- `PyText`: the Python string and integer built-ins used.
- `ListSort`: `list.sort(key=...)`.
- `PyDict`: an insertion-ordered dict.
- `Color`, `Gui`, `Cli`: one module per source file.

The Lab colour type is a type parameter `L`. The CIE 1976 colour difference
is a parameter `dist: (L, L) -> real`, and the sRGB-to-Lab conversion is a
parameter `hexToLab: string -> L`. Every property below holds for every
such distance and conversion.

The model follows the code as written, which accepts more than the
function names suggest:

- `hex_to_rgb` does not validate its input. After stripping any
  number of leading `#` it parses three two-character slices. Each slice is
  clamped to the string's end and read by `int(s, 16)`. So longer strings
  are truncated, and slices such as `"+f"`, `" 1"` or `"-1"` are accepted.
  Only a slice that `int` rejects raises ValueError.
- `find_closest_colors` performs no check on `k`. `k` is a natural number,
  and `k = 0` gives an empty list rather than an error.
- A row's availability is `row['available'].lower() == 'true'`. Every row
  is assumed to carry the column.

## Model

| member | source | states |
|---|---|---|
| Color.HexToRgb | color.py:12-14 | the body is the model: strip the leading '#'s, then read three slices. Its contract says the only failure is ValueError; HexToRgbOfSixDigits, HexToRgbOfPieces and the examples below characterise the result |
| Color.ReadTriple | color.py:14 | the body is the model of the tuple comprehension over (0, 2, 4); it fails only with ValueError, and ReadTripleOfParsed and ReadSixDigits say what it returns |
| Color.HexToRgbOfPieces | color.py:12-14 | a string that does not start with '#' reads as the three values `int(., 16)` gives its slices [0:2], [2:4] and [4:6] |
| Color.RejectsNonHexDigits | color.py:14 | `hex_to_rgb("ZZZZZZ")` raises ValueError |
| Color.ReadsShortInput | color.py:14 | a five-character string is not rejected: the last slice is clamped, so "12345" reads as (0x12, 0x34, 0x5) |
| Color.IntAcceptsSignsAndSpaces | color.py:14 | `int(., 16)` reads "+f", " 1" and "-1" as 15, 1 and -1 |
| Color.AcceptsSignsAndSpaces | color.py:12-14 | so hex_to_rgb accepts signed and padded slices: "+f 1-1" reads as (15, 1, -1) |
| Color.TruncatesLongInput | color.py:12-14 | all leading '#'s are dropped, mixed case is read and characters after the sixth digit are ignored: "##a1B2c3ff" reads as (161, 178, 195) |
| Color.HexToRgbOfSixDigits | color.py:12-14 | after any number of '#', six hex digits in either case parse without error to the triple they spell, and each part is in 0..255 |
| Color.HexToRgbOfHashed | color.py:13-14 | a '#' followed by six hex digits parses to the triple the digits spell |
| Color.HexToRgbIgnoresCase | color.py:13-14 | upper- and lower-case spellings of the same six digits parse to the same result |
| Color.SpelledRgbIgnoresCase | color.py:14 | the triple spelled by six digits does not depend on their case |
| Color.ReadSixDigits | color.py:14 | the three two-character slices of six hex digits read as the three bytes they spell |
| Color.ParsePieceAt | color.py:14 | a two-character slice of hex digits taken at any offset reads as one byte |
| Color.Slice | color.py:14 | Python slicing `s[i:j]` is never longer than j - i; it is the exact slice when j is within the string, and past the end it is the rest of the string from min(i, len(s)) |
| Color.RgbToHex | color.py:16-17 | the body is the model of the format string; its contract says the result starts with '#' and has at least seven characters, and RgbToHexShape and RgbToHexSpells say exactly what it writes |
| Color.RgbToHexShape | color.py:16-17 | rgb_to_hex writes '#' and exactly six lower-case digits if and only if the triple is in 0..255³ |
| Color.RgbToHexSpells | color.py:16-17 | for a byte triple the six digits after '#' spell exactly that triple |
| Color.RgbHexRoundTrip | color.py:12-17 | hex_to_rgb(rgb_to_hex(c)) == c for every c in 0..255³ |
| Color.HexRgbRoundTrip | color.py:12-17 | six lower-case digits parse, and writing the triple back gives '#' and the same six digits |
| Color.SpelledRgbWrittenBack | color.py:16-17 | the triple spelled by six lower-case digits is written back as '#' and those digits |
| Color.Format02xOfDigits | color.py:17 | the byte spelled by two lower-case digits is formatted as those two digits |
| Color.ByteValueOfHexChars | color.py:17 | the two digits '{:02x}' writes for a byte read back as that byte |
| Color.HexToSrgb | color.py:19-22 | hex_to_srgb succeeds exactly when hex_to_rgb does, with the same ValueError otherwise, and its components are that triple divided by 255 |
| Color.IsAvailable | color.py:40 | `row['available'].lower() == 'true'` holds exactly when the cell is the word `true` with any letters capitalised |
| Color.Candidates | color.py:38-43 | the body is the model of the loop's result; it has at most one candidate per entry, and the lemmas below characterise it |
| Color.EligiblePositions | color.py:39-41 | the positions the filter lets through, strictly increasing, each a catalogue entry that passes, and every passing entry among them |
| Color.CandidatesAtPositions | color.py:38-43 | candidate t is the t-th eligible entry, paired with its distance to the query: nothing is added, dropped or reordered |
| Color.CandidatesKeepOrder | color.py:38-43 | every eligible entry is a candidate, with or without available_only, and of two eligible entries the earlier one comes first |
| Color.ClosestColors | color.py:44-45 | the body is the model of the sort and slice; the result has at most k and at most len(repository) elements, and the Closest lemmas below give its exact length, order and contents |
| Color.CandidatesFromRepository | color.py:38-43 | every candidate is a catalogue entry the filter lets through, paired with its distance to the query |
| Color.CandidatesCount | color.py:39-43 | there are as many candidates as entries the filter lets through |
| Color.CandidatesUnfiltered | color.py:39-43 | with available_only false every entry is a candidate, in catalogue order, with its distance |
| Color.ClosestLength | color.py:45 | the result has min(k, number of eligible entries) elements, so k = 0 gives an empty list |
| Color.ClosestFromRepository | color.py:39-45 | every returned match comes from the catalogue with its distance, and is available when available_only is set |
| Color.ClosestSorted | color.py:44 | the result is non-decreasing in distance |
| Color.ClosestAreNearest | color.py:44-45 | no candidate left out is nearer than any returned match |
| Color.ClosestKeepsTies | color.py:44-45 | the returned matches of each distance are the first candidates of that distance, in catalogue order |
| Color.ClosestIsPrefixOfStableOrder | color.py:38-45 | the result is the length-k prefix of the one sorted, order-keeping arrangement of the candidates |
| Color.FindClosestColors | color.py:37-45 | the loop, sort and slice return the specified list: min(k, eligible) matches, sorted, each eligible and paired with its distance |
| ListSort.Insert | color.py:44 | inserting adds exactly one element and keeps all the others |
| ListSort.SortBy | color.py:44 | the sort is a permutation of its input |
| ListSort.InsertSorted | color.py:44 | inserting into a sorted list keeps it sorted |
| ListSort.SortBySorted | color.py:44 | the sorted list is non-decreasing in the key |
| ListSort.SortByStable | color.py:44 | the elements of every key appear in their input order |
| ListSort.SortedStableUnique | color.py:44 | two sorted lists that keep the same per-key orders are equal |
| ListSort.SortByIsTheStableSort | color.py:44 | any sorted list that keeps the input's per-key orders is exactly the sort's result |
| ListSort.SortedPrefixIsLeast | color.py:45 | a prefix of a sorted list holds elements no larger than anything after it |
| PyText.Strip | cli.py:36 | the stripped text neither starts nor ends with whitespace, and it is the input with only whitespace removed from its two ends |
| PyText.StripIgnoresPadding | cli.py:36 | whitespace added on either side does not change the stripped text |
| PyText.StripIdempotent | cli.py:36 | stripping twice is stripping once |
| PyText.Lower | cli.py:37 | `str.lower()` keeps the length, leaves no upper-case ASCII letter, and changes exactly the upper-case letters |
| PyText.LowerIsAnyCase | cli.py:37 | `t.lower() == w` for an ASCII word w exactly when t is w with any letters capitalised |
| PyText.ParseHexInt | color.py:14 | `int(s, 16)`: the body is the model of the literal grammar (whitespace, sign, 0x, underscores); anything it accepts contains a hex digit, and ParsePlainDigits, ParseNegatedDigits and IntAcceptsSignsAndSpaces give its values |
| PyText.DigitsWithinToken | color.py:14 | the digits `int()` reads after whitespace, sign and prefix are a contiguous piece of the token itself, so the first of them is a character of it |
| PyText.ParsePlainDigits | color.py:14 | `int(s, 16)` of a run of hex digits is their value |
| PyText.ParseNegatedDigits | color.py:14 | `int(s, 16)` of '-' and a run of hex digits is the negated value |
| PyText.DigitValueIgnoresCase | color.py:14 | a hex digit has the same value in either case |
| PyText.HexChar | color.py:17 | the digit written for a value below 16 is a lower-case hex digit of that value |
| PyText.HexCharOfDigit | color.py:17 | every lower-case digit is the digit written for its own value |
| PyText.Format02x | color.py:17 | `'{:02x}'`: at least two characters, starting with '-' exactly for a negative number; Format02xByte and Format02xReadsBack say what it writes |
| PyText.HexDigitsValue | color.py:17 | `format(n, 'x')` writes lower-case digits that read back as n |
| PyText.Format02xReadsBack | color.py:14-17 | `int(format(n, '02x'), 16) == n` for every integer n, negative ones included |
| PyText.NegativeShape | color.py:17 | a negative number is written as '-' followed by the digits of its magnitude |
| PyText.Format02xByte | color.py:17 | exactly the numbers in 0..255 are written as two lower-case digits, high nibble first |
| PyDict.Dict.constructor | gui.py:15 | `{}` has no keys |
| PyDict.Dict.Put | gui.py:23 | `d[k] = v` appends a new key to the order, keeps an existing key in place, and sets its value |
| PyDict.DistinctPairwise | gui.py:15-23 | the dict's keys are pairwise different |
| Gui.Grid | gui.py:16-24 | the body is the model of the two loops' src_pxls; it has width columns of height cells, and GridCells gives each cell |
| Gui.GridCells | gui.py:16-24 | src_pxls has width columns of height cells, and cell (x, y) is rgb_to_hex of pixel (x, y) with alpha dropped |
| Gui.Record | gui.py:23 | recording one colour keeps the keys equal to the distinct colours read so far, all without a value |
| Gui.ReadColumn | gui.py:17-23 | the inner loop yields column x of the grid and records its colours after the earlier ones |
| Gui.LoadSrcImg | gui.py:11-25 | src_pxls is the colour grid, and the dict's keys are its distinct colours in first-seen order, each mapped to None |
| Gui.DedupSnoc | gui.py:23 | a colour seen again leaves the keys alone, and a new colour is appended |
| Gui.DedupElements | gui.py:23 | the keys are exactly the colours read, each once |
| Gui.DedupFirstSeen | gui.py:23 | the keys are in the order their colours were first read |
| Gui.KeysAreGridColours | gui.py:15-24 | a string is a key if and only if it is the colour of some cell of the grid |
| Gui.PreparePxlMap | gui.py:27-32 | keys and their order are kept, and each key's value is its K nearest available matches |
| Gui.Options | gui.py:29-30 | the body is find_closest_colors with K and the availability filter; there are at most K options, and OptionsLength gives their exact number |
| Gui.Matched | gui.py:28-31 | the table has exactly the dict's keys; PreparePxlMap states that the method leaves this table |
| Gui.OptionsLength | gui.py:30 | each colour gets min(K, number of available entries) options, all available |
| Gui.PyIndex | gui.py:35 | Python list indexing: a position exactly for -n <= i < n, counting from the end for negative i |
| Gui.GetMappedColorRow | gui.py:34-35 | the row succeeds exactly when the key is present, already matched and the index is in range (KeyError, TypeError or IndexError otherwise), and it is the row of match `PyIndex(sub_idx)` of the key |
| Gui.GetAllMappedColorRows | gui.py:37-38 | there is one row per match and element i is the row of match i, with KeyError for a missing key and TypeError for an unmatched one |
| Gui.AllRowsAreMappedRows | gui.py:34-38 | element i of all rows is `get_mapped_color_row(pxl_map, h, i)`, negative indices count from the end, other indices fail with IndexError, and the two lookups fail alike |
| Gui.PaletteIsComplete | gui.py:152-161 | every one of the K option buttons of a colour has a row if and only if the catalogue holds at least K available entries |
| Gui.Editor.FocusKey | gui.py:227 | `src_pxls[var_fx][var_fy]` exists exactly when both indices are in range, and is then a key of the table and of the choices |
| Gui.Editor.InitialChoices | gui.py:67 | `{hex_str: 0 for hex_str in pxl_map}` has exactly the table's keys, each on option 0 |
| Gui.Editor.constructor | gui.py:67-71 | every key starts on option 0, the focus is (0, 0) and both style flags are set |
| Gui.Editor.ChangeFocus | gui.py:220-223 | only the focus changes |
| Gui.Editor.ChangeMapChoice | gui.py:225-231 | the focused colour's choice becomes the new index and nothing else changes; an out-of-range focus raises IndexError and changes nothing; the new choice shows the row get_mapped_color_row gives |
| Gui.Editor.ResetAllMapChoice | gui.py:233-239 | every key goes back to option 0, the focus and flags are kept, so a second reset changes nothing |
| Gui.Editor.ChangeStyle | gui.py:241-246 | both flags flip together and nothing else changes, so two calls restore them |
| Gui.OpenImage | gui.py:63-72 | the window's start-up state: grid, keys in first-seen order, table of matches, all choices 0; every initial choice shows a row exactly when there is no colour or an available entry |
| Cli.Classify | cli.py:36-42 | an accepted line is answered for its stripped text |
| Cli.QuitWords | cli.py:37-38 | the session ends exactly on `exit` or `quit` in any case, after stripping |
| Cli.AlphabetIsHexDigits | cli.py:40 | the characters `'0123456789ABCDEFabcdef'` are exactly the hexadecimal digits |
| Cli.IsSixHex | cli.py:40 | the validation holds exactly for six characters that are all hexadecimal digits |
| Cli.AlphabetRun | cli.py:40 | every character is in `'0123456789ABCDEFabcdef'` exactly when every character is a hex digit |
| Cli.AcceptedExactly | cli.py:36-42 | a line is accepted exactly when its stripped text is six hex digits; it is rejected exactly when it is neither a quit word nor six hex digits |
| Cli.ClassifyIgnoresPadding | cli.py:36 | surrounding whitespace never changes the classification |
| Cli.ClassifyStripped | cli.py:36 | classifying the stripped line gives the same answer |
| Cli.AcceptedParses | cli.py:40-44 | every accepted line parses by hex_to_rgb without error, to three values in 0..255 |
| Cli.Respond | cli.py:36-45 | the lookup happens exactly for accepted lines; only the quit words stop |
| Cli.BestMatches | cli.py:44-45 | an accepted line gets min(5, catalogue size) catalogue entries, any availability, nearest first, each with its distance |

## Left out

- Color.HexToSrgb: divides each component by 255 in exact real arithmetic. colormath stores `rgb / 255.0` as an IEEE double, so its rounding is not modelled.
- CIELAB conversion and colour difference (color.py:5-9, 24-28, 34-35): float maths in a third-party library. Lab values are a type parameter, and the conversion and distance are function parameters.
- `calculate_luminance` and `get_contrasting_text_color_hex_str` (color.py:30-32, gui.py:40-41): float arithmetic that only picks a text colour for drawing.
- repo.py, the CSV catalogue loader, is not part of this model. The catalogue is a given sequence of (Lab value, row) pairs in file order, and every row is assumed to have an `available` column.
- model.py is not part of this model. It holds passive records that the code does not use. The CLI's printing of `cem.color.hex` (cli.py:47-51) would fail on the tuples find_closest_colors returns, and is left out with the other output.
- All drawing: the tkinter canvases, their redraws in each callback, the PostScript export, the file dialog, and the matplotlib swatches (gui.py:43-46, 74-218, 248-268; cli.py:7-29, 53).
- Image loading: `Image.open` and `image.load()` become an `Image` value holding the size and the pixel access as a function of (x, y). Opening a file, and images whose pixels are not 4-tuples (which fail to unpack at gui.py:19), are out of scope.
- cli.py's `while True` loop and `input()`: I/O. One round is modelled as a function of the input line (Cli.Respond), whose Stop, Invalid and Best answers mirror `break`, `continue` and the lookup.
- Negative `k`: Python would drop elements from the end. The callers always pass 5, so `k` is a natural number.
- `int(s, 16)` also accepts non-ASCII Unicode digits, such as full-width ones. The model accepts only ASCII hex digits, so such a slice reads as a ValueError here.
- PyText.Lower, and the `str.lower()` comparisons it models: only ASCII letters are folded. Python's `str.lower()` maps no other character to ASCII text that could complete `exit`, `quit` or `true`.
- `list.sort` is modelled as a pure function returning the stable sort. It is not an in-place update of `distances`.
- Gui.Editor: holds `pxl_map` as an immutable value taken once the dict is filled. Nothing changes the dict after `prepare_pxl_map`, so the aliasing between `uniq_src_pxls` and `pxl_map` (one dict object) is not modelled.
- Gui.Editor.ChangeMapChoice: an IndexError from the focused pixel leaves the state unchanged. The model does not capture how Tk reports the exception to the console.
