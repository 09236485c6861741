# minfo metadata core in Dafny

`minfo` reads a media file's metadata through two external tools. The
EXIF reader produces `Key : Value` text lines, and `_exif_parser` turns
them into an ordered sequence of `(key, value)` pairs. The prober produces
JSON whose `streams` list holds one mapping per stream. Every derived
property (`resolution`, `fps`, `duration`, `camera_model` … `white_balance`)
and the printer's raw-key query are a two-tier lookup, `_find_data`. It asks
the EXIF pairs first (`_exif_data`, first match wins) and falls back to one
stream (`_stream_data`, Python list indexing, `None` for a missing stream or
key).

The model is written as pure functions over immutable values:

- `Wrappers`: `Option` and `Result`.
- `Seqs`: mapping a function over a sequence.
- `Values`: the Python objects involved. `Null` is `None`, which is also
  what JSON `null` decodes to. The module also defines `Float` as a binary64
  bit pattern and `PyError` (`TypeError`, `ValueError`). It also holds the
  number grammar `NumberSyntax`, which is `int(str)`, `float(str)` and
  `float(int)` passed in as a parameter.
- `PyText`: the parts of Python's `str` that the parser uses. These are
  `isspace` (the exact Unicode set), `strip`, `find` (-1 when absent),
  slicing with negative or out-of-range bounds, and `split` on one character
  together with `join`.
- `ExifParser`: `_exif_parser`, line by line.
- `Lookup`: the metadata record and `_exif_data` / `_stream_data` /
  `_find_data`.
- `Properties`: the derived properties and the raw-key query.

Behaviour of the code worth knowing:

- The coercion loop never breaks, so `int` followed by `float` turns an
  integer literal into a float (`"100"` gives `100.0`).
- Empty reader output is one empty line, so it gives `[("", "")]` and not an
  empty sequence.
- `duration` tests whether the text contains an `s` anywhere, not whether it
  ends in one. Whatever the last character is, it is cut off before `float`.

## Model

| member | source | states |
|---|---|---|
| PyText.Strip | minfo.py:151-152 | the result is a slice of the input with only whitespace around it and no whitespace at either end of it (`StripsTo`) |
| PyText.StripsToUnique | minfo.py:151-152 | a string has exactly one stripped form, so `StripsTo` pins down `strip()` completely |
| PyText.StripIdempotent | minfo.py:151-152 | stripping an already stripped key or value changes nothing |
| PyText.StripKeepsSolidChars | minfo.py:152 | stripping removes only whitespace, so every non-space character (a colon, say) keeps its count |
| PyText.Find | minfo.py:150 | `find` gives the first index of the character, or -1 exactly when the character does not occur |
| PyText.SliceBound | minfo.py:151-152 | a slice bound counts from the end when negative, is `n` above the length `n` and 0 below `-n` |
| PyText.SliceTo | minfo.py:151 | `s[:k]` is the prefix of `s` whose length is the normalised bound of `k` |
| PyText.SliceFrom | minfo.py:152 | `s[k:]` is the suffix of `s` that starts at the normalised bound of `k` |
| PyText.SliceToFromJoin | minfo.py:151-152 | `s[:k]` and `s[k:]` together give back `s` for every `k`, including -1 and 0 |
| PyText.SliceToMinusOne | minfo.py:151 | `s[:-1]` drops the last character and gives "" for "" (the key of a colon-free line) |
| PyText.Split | minfo.py:149 | `str.split` on one character never gives an empty list; which pieces it gives is fixed by `SplitFindCut`, `JoinSplit` and `SplitJoin`, and how many by `SplitCount` |
| PyText.SplitFindCut | minfo.py:149 | the split is the text before the first separator found by `find`, followed by the split of the rest, or the whole text when there is no separator |
| PyText.SplitPiecesFree | minfo.py:149 | no line produced by the split contains a newline |
| PyText.JoinSplit | minfo.py:149 | joining the lines with the separator gives back the reader's text |
| PyText.SplitJoin | minfo.py:149 | splitting a join of separator-free lines gives back those lines |
| PyText.SplitFree | minfo.py:149 | text without a separator is a single line |
| PyText.SplitAround | minfo.py:149 | the split of `a + sep + b` is the split of `a` followed by the split of `b` |
| PyText.SplitCount | minfo.py:149 | there is one line more than there are newlines, so "" gives one empty line |
| ExifParser.Coerce | minfo.py:153-157 | the value is a float exactly when `int` or `float` accepts the text, and otherwise it is the text unchanged |
| ExifParser.CoerceNumber | minfo.py:153-157 | an integer literal becomes `float(int(text))`, and other accepted text becomes `float(text)` |
| ExifParser.ParseLine | minfo.py:150-157 | one line gives a float or a string, and a string exactly when the grammar rejects the stripped text after the first colon, which is then kept |
| ExifParser.ColonLine | minfo.py:150-152 | a line is cut at its first colon: the key is the stripped text before it, the value is the stripped text after it, and later colons stay in the value |
| ExifParser.NoColonLine | minfo.py:150-152 | a line without a colon (`find` gives -1) has the line less its last character as key and the whole line as value, both stripped |
| ExifParser.PaddedLine | minfo.py:150-157 | whitespace around a colon-free key and around the value does not matter: `(key, coerce(value))` comes back exactly |
| ExifParser.ParseExif | minfo.py:147-159 | one entry per line, in order, each the parse of its line, with one entry more than there are newlines and no value `None` |
| ExifParser.ParseExifAround | minfo.py:149-158 | the text before and after a newline parse independently, and their entries are concatenated |
| ExifParser.ParseSingleLine | minfo.py:149-158 | text without a newline gives a single entry |
| ExifParser.ParseEmpty | minfo.py:147-159 | empty reader output gives the single pair `("", "")` |
| ExifParser.ParseTrailingNewline | minfo.py:149-158 | a trailing newline appends a final `("", "")` entry |
| Lookup.FromToolOutput | minfo.py:60-64 | the record holds exactly the parse of the reader's text (well formed, one entry per line) and the prober's streams unchanged |
| Lookup.ExifData | minfo.py:131-134 | the value of the first entry with the key, or `None` when no entry has the key |
| Lookup.ExifDataAppend | minfo.py:131-134 | the first match wins: entries after a block that already has the key are never consulted |
| Lookup.LaterDuplicateIgnored | minfo.py:131-134 | a later duplicate of a key changes nothing |
| Lookup.ListIndex | minfo.py:139-141 | Python list indexing: a negative index counts from the end, and an index out of range is the caught `IndexError` |
| Lookup.StreamData | minfo.py:137-144 | `stream.get(key)` on the indexed stream, or `None` when the index is out of range, the key is `None` or the stream lacks the key |
| Lookup.FindData | minfo.py:122-128 | the streams are consulted only when the EXIF entries lack the key, and with parsed entries the first EXIF value always wins when present (`Answers`) |
| Lookup.ExifWins | minfo.py:122-128 | when the EXIF entries have the key, the result ignores the streams altogether and is not `None` |
| Lookup.FindDataAbsent | minfo.py:122-128 | the result is `None` exactly when the EXIF entries lack the key and the stream gives nothing |
| Properties.Width | minfo.py:68-69 | the width is the first `Source Image Width` entry when there is one, and otherwise the first stream's `width` |
| Properties.Height | minfo.py:70-71 | the height is the first `Source Image Height` entry when there is one, and otherwise the first stream's `height` |
| Properties.Resolution | minfo.py:66-74 | `None` exactly when both dimensions are `None`, and otherwise the pair, partial pairs included |
| Properties.ResolutionAbsent | minfo.py:66-74 | `None` exactly when neither the EXIF tags nor the first stream give a width or a height |
| Properties.ResolutionPartial | minfo.py:72-74 | a width without any height gives `(width, None)`, not `None` |
| Properties.ResolutionFromStream | minfo.py:66-74 | without EXIF dimensions the first stream's `width` and `height` form the pair |
| Properties.Fps | minfo.py:76-79 | the first `Video Frame Rate` entry when there is one, and otherwise the first stream's `r_frame_rate` |
| Properties.FpsSource | minfo.py:76-79 | `fps` is the EXIF frame rate when there is one, and otherwise the first stream's `r_frame_rate` as it is (the audio test's `'0/0'`, _unittest.py:46) |
| Properties.DropUnit | minfo.py:84-86 | `None` passes; a string containing `s` becomes `float` of all but its last character, or `ValueError`; a string without `s`, and a list or dict without the member `"s"`, pass unchanged; numbers and booleans raise `TypeError`, and so does a list holding `"s"` or a dict keyed `"s"` (at the slice or at `float`) |
| Properties.DropUnitRoundTrip | minfo.py:84-85 | a number text with the unit `s` appended comes back as `float` of the text (`"10.02 s"` gives 10.02, _unittest.py:41) |
| Properties.DropUnitAnyS | minfo.py:84-85 | any string with an `s` before its last character loses that last character, whatever it is |
| Properties.Duration | minfo.py:81-86 | the unit is cut from the first `Duration` entry when there is one, and otherwise from the first stream's `duration` |
| Properties.DurationSource | minfo.py:81-86 | `duration` post-processes the EXIF value when there is one and the stream's otherwise; a float from the parser raises `TypeError`, and nothing found gives `None` |
| Properties.ExifOnly | minfo.py:89-119 | an EXIF-only property is the first entry with its tag, and `None` when the tag is missing, whatever the streams hold |
| Properties.ExifOnlySource | minfo.py:89-119 | the eight EXIF-only properties ignore the streams and are `None` exactly when their tag is missing |
| Properties.KeyValue | minfo.py:189 | the raw key is looked up as an EXIF tag first and as a key of the first stream second |
| Properties.KeyValueSource | minfo.py:189 | a raw key is answered by the EXIF entries first and the first stream second, and is `None` only when neither has it |

## Left out

- Running the tools (`_subproc`, `_exec_tool`, `_exiftool`, `_ffprobe`) is I/O. The model starts from the reader's text and from the streams as `json.loads` decodes them.
- `json.loads` itself is left out: streams are given as already decoded values.
- `_setup` copies every top-level key of the prober's output onto the object with `setattr`. The model keeps only `streams`. The `format` and `path` attributes are not read by the modelled core. A missing `streams` key, which gives `AttributeError` in the source, is not representable.
- Printing and argument parsing (`_print_data`, `_main`) are left out, except for the raw-key lookup at minfo.py:189.
- Coerce: Python's `int` and `float` grammars (digits, underscores, signs, `inf`, `nan`, surrounding whitespace) are an uninterpreted parameter. The properties hold for every grammar, but no concrete literal is decided. `OverflowError` from huge integers is not modelled.
- Properties.DropUnit: an `Object` whose keys include `"s"` is sliced as a dict. That raises `TypeError` before Python 3.12 and `KeyError` from 3.12 on. The model gives `TypeError`.
- `float` values are bit patterns with no arithmetic, so comparisons such as `fps == 30` between an int and a float are not modelled.
