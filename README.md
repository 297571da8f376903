# kanji-base64izer: KanjiVG file names, object construction and stroke removal

This project models the core of `kanjibase64izer/base64izer.py`, the module
that turns a kanji into the stroke-order SVG file of the KanjiVG corpus and
prepares that SVG for Base64 export.

The model covers:

- **KanjiVG file names.** `KanjiVG.ascii_filename` gives the code point as
  lower-case hex, padded to five digits, then `-variant` when there is a
  variant, then `.svg`. `KanjiVG.character_filename` uses the glyph itself
  instead of the digits.
- **Reading a name back.** `KanjiVG._create_from_filename` matches a name
  against `^([0-9a-f]*)-?(.*?).svg$`, then calls `chr(int(digits, 16))` and
  the constructor.
- **Construction.** `KanjiVG.__init__` reads the file named by
  `ascii_filename` from the corpus. A missing file becomes
  `InvalidCharacterError`; any other I/O error is re-raised.
- **Enumeration.** `KanjiVG.get_all` builds one object per file in the
  corpus listing.
- **Stroke removal.** `KanjiBase64izer._remove_strokes` is
  `re.sub("<text.*?</text>", "", svg)`.
- **Destination name.** `KanjiBase64izer._get_dst_filename` picks one of the
  two naming schemes.

The modules:

- `Wrappers`: `Option` and `Result`.
- `HexFormat`: `'%05x' % n`, `int(s, 16)` on lower-case digits, and the
  leading run of hex digits.
- `FilenamePattern`: the regular expression as Python's backtracking engine
  runs it. Three features of that engine matter:
  - the greedy hex group gives digits back;
  - the greedy `-?` is tried before doing without it;
  - the lazy variant group grows one character at a time.

  `.` matches anything but a newline, so the `.` before `svg` is
  unescaped. `$` matches at the end or before one final newline. The lemma
  `MatchFilenameGroups` proves that this search gives the groups stated in
  closed form by `FilenameGroups`.
- `KanjiFiles`: the error cases, the corpus, the two naming schemes and the
  parser. It also holds the `KanjiVG` class, whose fields `character`,
  `variant` and `svg` are set by its static constructors `Create` and
  `CreateFromFilename` and by `GetAll`. Each of these is proved against a
  pure function: `Load` and `FromFilename`.
- `Base64izer`: `RemoveStrokes` and `DstFilename`.

**Inputs that become parameters:**

- The corpus directory is a `Store`, a map from file name to
  `Readable(text)` or `Unreadable(errno)`. A name that is absent is a
  missing file (`ENOENT`, 2).
- The directory listing is a `seq<string>`.
- The filename mode setting is an argument of `DstFilename`.

**The model follows what the code does:**

- `get_all` does no variant filtering and no sorting.
- The regular expression accepts more than the canonical names. Examples:
  - `61.svg` (fewer than five digits);
  - `00061xsvg` (any character in place of the dot);
  - `00061.svg` followed by a newline.

  Such names are read back and looked up under their canonical name.

## Model

| member | source | states |
|---|---|---|
| HexFormat.HexDigits | kanjibase64izer/base64izer.py:85 | the `%0<width>x` numeral has at least `width` digits (and at least one), all lower-case hex |
| HexFormat.Format05x | kanjibase64izer/base64izer.py:85 | `'%05x' % n` has at least five lower-case hex digits |
| HexFormat.HexDigitsValue | kanjibase64izer/base64izer.py:85 | reading the padded numeral with `int(_, 16)` gives `n` back |
| HexFormat.HexDigitsLeading | kanjibase64izer/base64izer.py:85 | a numeral longer than its padding width has no leading zero |
| HexFormat.Format05xSpec | kanjibase64izer/base64izer.py:85 | `'%05x' % n`: at least five lower-case digits, value `n`, no leading zero beyond the padding |
| HexFormat.HexValue | kanjibase64izer/base64izer.py:71 | `int(digits, 16)` is zero exactly when every digit is `0`; that it inverts `'%05x'` is `HexDigitsValue`, and what it reads from a name is in `ParseFilename` |
| HexFormat.HexRun | kanjibase64izer/base64izer.py:70 | the prefix the greedy `([0-9a-f]*)` tries first: all hex, and the next character is not a hex digit. Backtracking can then give digits back (in `0061asvg` the group ends as `0061`); where it ends is `MatchFilenameGroups` |
| HexFormat.HexRunOfConcat | kanjibase64izer/base64izer.py:70 | hex digits followed by a non-digit: the greedy group takes exactly the digits |
| FilenamePattern.MatchEnd | kanjibase64izer/base64izer.py:70 | `$` matches at the end of the name, or before one final newline |
| FilenamePattern.LazyGroup | kanjibase64izer/base64izer.py:70 | the lazy `(.*?)` ends only where `.svg$` then matches |
| FilenamePattern.AfterDigits | kanjibase64izer/base64izer.py:70 | `-?(.*?)` yields a variant span that lies after the digits |
| FilenamePattern.MatchFilename | kanjibase64izer/base64izer.py:70 | on a match, the hex group holds only hex digits and the variant group holds no newline |
| FilenamePattern.MatchFilenameGroups | kanjibase64izer/base64izer.py:70 | the backtracking search ends with the closed-form groups: the longest hex run (up to the four final characters), an optional `-`, and the rest before `.svg` |
| FilenamePattern.MatchDomain | kanjibase64izer/base64izer.py:70 | `re.match` succeeds exactly when `svg` ends the name (before an optional newline) after at least one more character, with no newline before it |
| FilenamePattern.SplitGroupsShape | kanjibase64izer/base64izer.py:70 | the groups are a maximal hex run, then `-` exactly when one follows the run, then the variant |
| FilenamePattern.MatchFilenameShape | kanjibase64izer/base64izer.py:70 | a matched name is digits, optional `-`, variant and four final characters ending in `svg`, none of them a newline before `svg` |
| FilenamePattern.MatchBodyAndSvg | kanjibase64izer/base64izer.py:70 | a newline-free body followed by `.svg` matches, with the body's groups |
| FilenamePattern.MatchIgnoresDot | kanjibase64izer/base64izer.py:70 | the unescaped `.`: any non-newline character in its place gives the same groups |
| FilenamePattern.MatchIgnoresFinalNewline | kanjibase64izer/base64izer.py:70 | a final newline changes nothing, since `$` matches before it |
| KanjiFiles.Open | kanjibase64izer/base64izer.py:52-55 | opening a file of the corpus gives its state; an absent file fails with `ENOENT` |
| KanjiFiles.NormalizeVariant | kanjibase64izer/base64izer.py:48-50 | a `None` variant becomes `''`; any other value is kept |
| KanjiFiles.AsciiName | kanjibase64izer/base64izer.py:84-91 | fails exactly when the character is not one code point, with `InvalidCharacterError(character, variant)` |
| KanjiFiles.AsciiNameShape | kanjibase64izer/base64izer.py:84-91 | the ASCII name is a maximal run of at least five hex digits (no superfluous leading zero) whose value is the code point, followed by `.svg` or `-variant.svg` |
| KanjiFiles.DisplayName | kanjibase64izer/base64izer.py:101-104 | the glyph name is the character followed by `.svg` or `-variant.svg` |
| KanjiFiles.ParseFilename | kanjibase64izer/base64izer.py:70-71 | a success is one code point and a newline-free variant; no match fails on the name; an empty hex group fails in `int(_, 16)` |
| KanjiFiles.Load | kanjibase64izer/base64izer.py:47-59 | construction reads the file under the ASCII name. Readable: the fields are the character, the normalised variant and the file's text. Missing: `InvalidCharacterError` with the arguments as given. Any other errno: re-raised. Not one code point: the name's own error |
| KanjiFiles.AsciiNameRoundTrip | kanjibase64izer/base64izer.py:70-91 | the ASCII name of a character and a newline-free variant parses back to exactly that character and variant, even when the variant contains `-` |
| KanjiFiles.MatchDigitsAndSuffix | kanjibase64izer/base64izer.py:70 | hex digits followed by a variant suffix match with those digits and that variant |
| KanjiFiles.SplitGroupsOfKey | kanjibase64izer/base64izer.py:70 | the groups of digits followed by `-variant` (or nothing) are the digits and the variant |
| KanjiFiles.FromFilename | kanjibase64izer/base64izer.py:61-71 | an object built from a file name holds one code point and a newline-free variant. The failures are `ParseFilename`'s and `Load`'s; `FromAsciiNameIsLoad` and `FromFilenameCanonical` relate it to the constructor |
| KanjiFiles.FromFilenameCanonical | kanjibase64izer/base64izer.py:24-71 | whatever name an object was read from, it holds the text of the file under its own ASCII name, and that name reads back as the same object |
| KanjiFiles.FromAsciiNameIsLoad | kanjibase64izer/base64izer.py:61-71 | `_create_from_filename` on a canonical name constructs the same object as the constructor |
| KanjiFiles.AsciiNameInjective | kanjibase64izer/base64izer.py:84-91 | different (character, variant) keys get different ASCII names |
| KanjiFiles.VariantSuffixInjective | kanjibase64izer/base64izer.py:88-91 | the suffix determines the variant |
| KanjiFiles.DisplayNameInjective | kanjibase64izer/base64izer.py:101-104 | different one-code-point keys get different glyph names |
| KanjiFiles.NamesShareSuffix | kanjibase64izer/base64izer.py:88-104 | after the character part, both schemes put the same variant suffix |
| KanjiFiles.ParseDomain | kanjibase64izer/base64izer.py:70-71 | parsing succeeds only on names that start with a hex digit and end with a non-newline and `svg`, with more than four characters before `$`. A match that starts with a digit and has more than four characters before `$` can then fail only in `chr`; with exactly four (`asvg`), the hex group is empty and `int` fails |
| KanjiFiles.NameExamples | kanjibase64izer/base64izer.py:77-79 | `漢` gives `06f22.svg`, and `漢.svg` as a glyph name (lines 97-99) |
| KanjiFiles.AsciiNameOfA | kanjibase64izer/base64izer.py:153 | `a` gives `00061.svg` |
| KanjiFiles.AsciiNameOfEl | kanjibase64izer/base64izer.py:42-45 | `Л` (U+041B) gives `0041b.svg` |
| KanjiFiles.NotFoundExample | kanjibase64izer/base64izer.py:42-45 | constructing `Л` without its file raises `InvalidCharacterError('Л', '')` |
| KanjiFiles.ParseExample | kanjibase64izer/base64izer.py:66-68 | `00061.svg` reads back as `a` with variant `''` |
| KanjiFiles.LooseParseShortDigits | kanjibase64izer/base64izer.py:70-71 | `61.svg` reads as `a` too, and is then looked up as `00061.svg` |
| KanjiFiles.LooseParseAnyDot | kanjibase64izer/base64izer.py:70-71 | `00061xsvg` reads as `a` |
| KanjiFiles.LooseParseFinalNewline | kanjibase64izer/base64izer.py:70-71 | `00061.svg` plus a final newline reads as `a` |
| KanjiFiles.KanjiVG.Init | kanjibase64izer/base64izer.py:47-50 | the fields hold the character and the normalised variant |
| KanjiFiles.KanjiVG.Create | kanjibase64izer/base64izer.py:24-59 | a new object whose fields are what `Load` gives, or exactly `Load`'s error |
| KanjiFiles.KanjiVG.CreateFromFilename | kanjibase64izer/base64izer.py:61-71 | a new object whose fields are what `FromFilename` gives, or exactly its error |
| KanjiFiles.KanjiVG.GetAll | kanjibase64izer/base64izer.py:106-118 | on success: one new, distinct object per listed name, in listing order, each the object `_create_from_filename` builds from that name. On failure: the error of the first name that fails |
| KanjiFiles.CanonicalCorpusLoads | kanjibase64izer/base64izer.py:106-118 | in a corpus of readable files under canonical names of newline-free keys, every listed name loads its own key with its own file's text |
| Base64izer.CloseFrom | kanjibase64izer/base64izer.py:150 | the lazy `.*?</text>` ends right after a `</text>` |
| Base64izer.SpanEnd | kanjibase64izer/base64izer.py:150 | a match of `<text.*?</text>` is at least 12 characters long and fits in the text |
| Base64izer.RemoveStrokes | kanjibase64izer/base64izer.py:149-150 | the result is never longer than the SVG text; which characters go is stated by `RemoveStrokesFirstMatch`, `KeptBefore` and `RemoveStrokesDeletes` |
| Base64izer.SpanEndIsShortestMatch | kanjibase64izer/base64izer.py:150 | a match starts with `<text`, ends at the first following `</text>`, and has no newline in between; any such prefix is the match |
| Base64izer.CloseFromIsFirst | kanjibase64izer/base64izer.py:150 | from a position, the lazy group stops exactly at the end of the first `</text>`, with no newline before it |
| Base64izer.RemoveStrokesDeletes | kanjibase64izer/base64izer.py:149-150 | the result is a subsequence of the input: characters are only deleted, and the rest keep their order |
| Base64izer.RemoveStrokesUnchanged | kanjibase64izer/base64izer.py:149-150 | the text comes back unchanged exactly when no match starts anywhere in it; otherwise it gets strictly shorter |
| Base64izer.KeptBefore | kanjibase64izer/base64izer.py:149-150 | a prefix in which no match starts is kept as it is, and the scan goes on from its end |
| Base64izer.RemoveStrokesFirstMatch | kanjibase64izer/base64izer.py:149-150 | leftmost, non-overlapping deletion: when the first match starts at `i` and is `e` long, the result is `s[..i]` followed by the result for the text after the match |
| Base64izer.UnmatchedOf | kanjibase64izer/base64izer.py:149-150 | no match starting at any position before `i` means none starts at the front while the first `i` characters are scanned one at a time |
| Base64izer.NoOpenUnchanged | kanjibase64izer/base64izer.py:149-150 | a text without `<text` is returned unchanged |
| Base64izer.TwoLabelsExample | kanjibase64izer/base64izer.py:149-150 | `<text>1</text><text>2</text>` becomes empty |
| Base64izer.DstFilename | kanjibase64izer/base64izer.py:154-158 | the `character` mode always yields a name; any other mode yields one exactly for a one-code-point character |
| Base64izer.DstFilenameIsSource | kanjibase64izer/base64izer.py:154-158 | outside `character` mode, a constructed object's destination name is the file its SVG was read from, and that name reads back as the same object |
| Base64izer.DstFilenameInjective | kanjibase64izer/base64izer.py:154-158 | in either mode, objects built for different keys get different destination names |
| Base64izer.DstFilenameExample | kanjibase64izer/base64izer.py:152-158 | `a` is exported as `00061.svg`, or as `a.svg` in `character` mode |

## Left out

- **Command-line and argparse setup** (`KanjiBase64izer.__init__`, `_init_parser`, `read_cl_args`, `read_arg_string`). This is configuration glue, and as written it calls `self._init_.parser()` and uses `false`. Nothing in it defines `settings.filename_mode`, so `DstFilename` takes the mode as an argument.
- **Real file system access.** `open`, `f.read()`, `os.listdir`, `os.path.join` and the `source_directory` path are replaced by the `Store` map and the listing sequence. The exceptions these raise go with them. One is `os.listdir` failing inside `get_all`, for example on a missing directory. Another is `open` raising `ValueError` for a name that contains a NUL character, which a variant can introduce. UTF-8 decoding of the file content is not modelled: a file's text is a `string` in the store.
- **Listing order.** `os.listdir` order is whatever the listing sequence holds.
- **`get_svg_html` and the commented-out Base64 step.** The method returns `None` and the Base64 encoding exists only as a comment, so no SVG fragment extraction, Base64 encoding or CSV export is modelled. Variant filtering for export does not exist in the code either.
- **The doctest runner** at the end of the module.
- **Surrogate code points.** `chr` accepts 0xD800–0xDFFF, but a Dafny `char` cannot hold them. `ParseFilename` reports such a code point as `InvalidCodePoint`, the same error it gives beyond 0x10FFFF, where Python raises `ValueError`. The distinction between `ValueError` and `OverflowError` for huge values is not kept.
- **Non-string arguments.** A character that is not a string (the `TypeError` branch) is modelled only by strings whose length is not one. A variant is always a string or `None`.
- **Exception chaining** (`raise ... from e`) and the exact exception classes. `Error` lists one constructor per cause instead.
