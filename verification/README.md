# openprattle's Open Babel layer, in Dafny

openprattle converts molecule files between formats through Open Babel. It can
use Open Babel's in-process Python binding (pybel), or it can run the `obabel`
program. This project models the decision logic of `openprattle/babel.py`:

- how a format shortcode is inferred from a file name;
- which backend a converter gets;
- what the binding backend is asked to do, and which checks reject a call
  before that;
- the argument list the `obabel` backend builds;
- how a finished `obabel` run is judged;
- how `obabel -L formats read|write` listings are parsed and cached.

Every Python exception raised on purpose becomes a constructor of
`Results.Error`, and each operation that can raise returns a `Result`.

The modules follow the source:

| module | what it holds |
|---|---|
| `Results` | `Option`, `Result`, and the error per `raise` |
| `Text` | the ASCII forms of the `str` methods used: `lower`, `strip`, `split`, `splitlines` |
| `FileTypes` | `type_from_file_name`, with pathlib's `name` and `suffix` |
| `Backends` | the converter record, `__init__`, `from_file`, `get_cls`, `input_name` |
| `PybelConverter` | `Pybel_converter.convert` up to the binding calls |
| `ObabelConverter` | `Obabel_converter.convert` and `run_obabel` |
| `FormatCatalog` | `Obabel_formats.run`, `read`, `write`, and `formats()` |

Anything outside openprattle's own logic is a parameter:

- Whether the binding could be loaded (`HAVE_PYBEL`) is `havePybel`.
- A finished process is `exec: seq<string> -> Process`, a function from the
  argument list to the exit status, standard output and standard error.
- What the binding reads is `firstMolecule`: the dimensionality of the first
  molecule, or `None` when there was none.
- The contents of an open file are given as `Handle(content)`.

## Model

| member | source | states |
|---|---|---|
| `FileTypes.TypeFromFileName` | openprattle/babel.py:79-116 | When `allowNone` is set the result is never an error, and an absent type occurs only then. A found type is a non-empty, lower-case shortcode with no dot and no separator. Every failure is "no name" or "unrecognised name", and the latter carries the path. |
| `FileTypes.BaseName` | openprattle/babel.py:106 | pathlib's `name` never contains a separator. |
| `FileTypes.DropTrailingSlashes` | openprattle/babel.py:106 | pathlib drops trailing separators: the result is a prefix of the path, does not end in `/`, and everything removed is `/`. |
| `FileTypes.BaseNameIsLastComponent` | openprattle/babel.py:106 | pathlib's `name` is the tail of the path, with trailing separators dropped, that follows its last separator, or the whole of it when there is none. |
| `FileTypes.Extension` | openprattle/babel.py:100 | pathlib's `suffix` without its dot has no dot. When it is non-empty, it is the end of the name, preceded by a dot that is not the name's first character. |
| `FileTypes.BaseNameOfJoin` | openprattle/babel.py:106 | pathlib's `name` of `dir + name` is `name`, for any directory prefix. |
| `FileTypes.ExtensionOfJoin` | openprattle/babel.py:100 | pathlib's `suffix` without its dot, of `stem.ext`, is `ext`. |
| `FileTypes.ResolvesExtension` | openprattle/babel.py:99-104 | A file with an extension resolves to that extension lower-cased, whatever `allowNone` says and whatever the stem is. |
| `FileTypes.CoordIsTurbomole` | openprattle/babel.py:106-108 | A file called `coord` in any directory is `tmol`. |
| `FileTypes.DotlessNameUnresolvable` | openprattle/babel.py:110-116 | A dot-less name other than `coord` gives `None` under `allowNone` and otherwise the error naming the path. |
| `FileTypes.HiddenNameUnresolvable` | openprattle/babel.py:99-116 | A hidden file like `.bashrc` has no extension and is unresolvable. |
| `FileTypes.MissingNameUnresolvable` | openprattle/babel.py:88-97 | No name gives `None` under `allowNone`, and the "no file name" error otherwise. |
| `FileTypes.AllowNoneOnlySoftensErrors` | openprattle/babel.py:88-116 | `allowNone` changes nothing except turning each error into `None`. |
| `FileTypes.CoordWithExtension` | openprattle/babel.py:102-108 | The extension rule wins over the `coord` rule: `coord.txt` is `txt`. |
| `FileTypes.UpperCaseExtension` | openprattle/babel.py:100-104 | `Foo.XYZ` resolves to `xyz`. |
| `Backends.GetCls` | openprattle/babel.py:119-134 | The binding is only chosen when it is loaded. |
| `Backends.LowerIsChemDraw` | openprattle/babel.py:130 | A string folds to `cdx` exactly when it is one of its eight capitalisations. |
| `Backends.ObabelExactlyWhen` | openprattle/babel.py:119-134 | `obabel` is chosen if and only if the binding is missing or the format is `cdx` in some capitalisation. |
| `Backends.ChoiceIgnoresCase` | openprattle/babel.py:128-131 | Two formats with the same lower-case form get the same backend. |
| `Backends.MissingTypeUsesBinding` | openprattle/babel.py:128-134 | An absent and an empty format are treated alike and go to a loaded binding. |
| `Backends.FromFile` | openprattle/babel.py:57-76 | A given format is kept even if empty, and only an absent one is inferred from the path, without `allowNone`. The call fails exactly when that inference fails, with its error. The backend is `get_cls` of the resulting format, and the inputs are passed through. |
| `Backends.FromFileByExtension` | openprattle/babel.py:63-67 | With no format given, a file `dir/stem.ext` gets the format `ext` lower-cased. It goes to `obabel` exactly when the binding is missing or `ext` is `cdx` in any capitalisation, so a `.CDX` file never reaches the binding. |
| `Backends.InputName` | openprattle/babel.py:136-144 | Defines the input's descriptive name: its path, or the label for input loaded from memory. What the name is used for is stated by `PybelConverter.UnreadableInputNamed`. |
| `Backends.ResolveOutputType` | openprattle/babel.py:174-177 | A non-empty requested output format is used as given. Otherwise the format is inferred from the output file, and its failure is the call's failure. A resolved format is never empty. |
| `PybelConverter.Source` | openprattle/babel.py:193-216 | An open file with content, or else a non-empty buffer, is read from memory. In every other case the path is read, including an open but empty file. |
| `PybelConverter.Convert` | openprattle/babel.py:163-256 | The checks come in source order, each one's error stated: output format, then png without a file, then an absent or empty input format, then nothing read, which names the input. It succeeds exactly when all four checks pass. A successful plan returns text exactly when no output file is named, and draws exactly when the format is png. It generates 3D exactly when the molecule is not 3D and 3D was not switched off (the default is on). Charge, multiplicity and hydrogens pass through. The molecule is read, in the input format, from the buffer or path `PybelConverter.Source` chooses. The write uses the resolved output format and the output file, and a png is drawn into the output file. |
| `PybelConverter.EmptyInputTypeRejected` | openprattle/babel.py:189-191 | Given an explicit output format that is not png without a file, an absent or empty input format is rejected. |
| `PybelConverter.NoOutputFileRejections` | openprattle/babel.py:174-180 | Without an output file, png is rejected, and so is an absent or empty output format (there is no name to infer it from). |
| `PybelConverter.UnreadableInputNamed` | openprattle/babel.py:224-228 | When the binding reads nothing, the error carries `input_name`: the input path when there is one, and the memory label otherwise. |
| `ObabelConverter.DefaultGen3D` | openprattle/babel.py:289-294 | In `obabel`, 3D generation defaults to on exactly for `cdx` in any capitalisation. An explicit choice is kept. |
| `ObabelConverter.Plan` | openprattle/babel.py:284-305 | A run is planned exactly when the output format resolves. It carries the input format, the output file, the input path only when non-empty, the gen3D default and the hydrogen flag. |
| `ObabelConverter.Argv` | openprattle/babel.py:316-340 | The list starts with `obabel`, and its length counts each optional part: path, `--gen3D`, `-h`, and `-O <file>`. |
| `ObabelConverter.ArgvLayout` | openprattle/babel.py:317-340 | The exact order of the list: `obabel`, the path when there is one, `-o <out> -i <in>`, then `[--gen3D] [-h] [-O <file>]`. |
| `ObabelConverter.FromFileAddsHydrogens` | openprattle/babel.py:335-336 | `__init__` always sets `add_H`, so every `obabel` run of a converter made by `from_file` passes `-h`: for any input format, given or inferred from the path, and any output format that resolves. |
| `ObabelConverter.ParseFlagsOfArgv` | openprattle/babel.py:329-340 | The trailing flags read back to the gen3D flag, the hydrogen flag and the output file. |
| `ObabelConverter.ParseArgvInvertsArgv` | openprattle/babel.py:316-340 | Reading an argument list back recovers every field of the run, provided the input path is not `-o`. |
| `ObabelConverter.ArgvInjective` | openprattle/babel.py:316-340 | Distinct runs give distinct argument lists, setting aside the input path `-o`. |
| `ObabelConverter.DashOPathIsAmbiguous` | openprattle/babel.py:319-327 | With input path `-o`, two different runs build the same argument list. |
| `ObabelConverter.NoMoleculesAt` | openprattle/babel.py:268 | Defines a match of `\b0 molecules converted` at a position: the message starts there, at the start of the text or after a non-word character. |
| `ObabelConverter.ReportsNoMolecules` | openprattle/babel.py:268 | Defines a successful search of that pattern: a match at some position. |
| `ObabelConverter.SearchNoMolecules` | openprattle/babel.py:266-268 | The search finds the first place where `0 molecules converted` starts at a word boundary, and finds nothing exactly when there is no such place. |
| `ObabelConverter.ReportedAtBoundary` | openprattle/babel.py:268 | The message counts wherever it follows the start or a non-word character. |
| `ObabelConverter.LongerCountIsNoReport` | openprattle/babel.py:266-268 | A count that merely ends in 0 (`10 molecules converted`) is not a failure report. |
| `ObabelConverter.CountExamples` | openprattle/babel.py:266-268 | `10 molecules converted` is no report, and `0 molecules converted` is one. |
| `ObabelConverter.Outcome` | openprattle/babel.py:358-379 | A run succeeds if and only if it exits with 0 and reports no failure. A non-zero status fails first, and a failure report fails second. On success the result is the standard output exactly when no output file was named. |
| `ObabelConverter.Convert` | openprattle/babel.py:273-305 | The conversion fails with the planning error, or else it is the outcome of running the planned argument list. Content is returned exactly when there is no output file. |
| `ObabelConverter.ZeroExitStillFails` | openprattle/babel.py:372-376 | For an explicit output format, exit status 0 with a failure report is still a conversion failure. |
| `ObabelConverter.ChargeAndMultiplicityIgnored` | openprattle/babel.py:296-302 | Charge and multiplicity have no effect on an `obabel` conversion. |
| `ObabelConverter.PngToStandardOutput` | openprattle/babel.py:273-305 | Unlike the binding, `obabel` accepts png without an output file and returns the standard output. |
| `Text.Lower` | openprattle/babel.py:104 | Lower-casing keeps the length, maps each character, and leaves no upper-case letter. |
| `Text.Trim` | openprattle/babel.py:465 | The stripped string has no surrounding whitespace and is no longer than the input. |
| `Text.TrimPadded` | openprattle/babel.py:465 | Stripping removes exactly the whitespace padding around a core that does not start or end with whitespace. |
| `Text.SplitJoin` | openprattle/babel.py:465 | Joining the parts of a split with the separator gives back the string. |
| `Text.SplitAfterFirst` | openprattle/babel.py:465 | Splitting `a + sep + b`, with no separator in `a`, gives `a` followed by the parts of `b`. |
| `Text.SplitNoSeparator` | openprattle/babel.py:465 | A string with no separator splits into itself alone. |
| `Text.Split` | openprattle/babel.py:465 | `str.split` always returns at least one part. The full meaning of a split is stated by `Text.SplitJoin`, `Text.SplitAfterFirst` and `Text.SplitNoSeparator`. |
| `Text.SplitLines` | openprattle/babel.py:464 | `splitlines` gives no lines exactly for the empty text. Otherwise its lines, joined with line breaks, give back the text less one final line break. No line contains a line break. |
| `Text.SplitPartsFree` | openprattle/babel.py:464-465 | No part of a split on a single character contains that character. |
| `Text.SplitLinesTerminated` | openprattle/babel.py:464 | Splitting the lines of a text of newline-terminated lines gives back those lines. |
| `FormatCatalog.ParseEntry` | openprattle/babel.py:465-466 | A line parses if and only if splitting on `--` gives exactly two parts. Both stripped parts are then returned, and any other line is an error naming it. |
| `FormatCatalog.Entries` | openprattle/babel.py:462-470 | On success there is one entry per line and each is that line's parse. A failure is the error of the first line that does not parse. |
| `FormatCatalog.Collect` | openprattle/babel.py:462-470 | The loop over lines either gives one value per line, in order, or stops with the error of the first line that failed. |
| `FormatCatalog.ToMap` | openprattle/babel.py:463-466 | Defines the dict the loop builds, each entry assigned in turn. Its keys and values are stated by `FormatCatalog.ToMapDomain` and `FormatCatalog.ToMapLast`. |
| `FormatCatalog.ToMapDomain` | openprattle/babel.py:463-466 | The catalog's codes are exactly the codes of the entries. |
| `FormatCatalog.ToMapLast` | openprattle/babel.py:466 | The description kept for a code is that of its last entry. |
| `FormatCatalog.ParseListing` | openprattle/babel.py:462-470 | A failed parse is always a malformed-catalog error. |
| `FormatCatalog.Run` | openprattle/babel.py:434-472 | A direction other than read or write fails before anything is run. For read or write, a non-zero exit status fails with that status, and an exit status of 0 gives exactly the parse of the output. |
| `FormatCatalog.ListingArgv` | openprattle/babel.py:441-446 | Defines the listing command: `obabel -L formats <direction>`. |
| `FormatCatalog.LineSplits` | openprattle/babel.py:465 | A `code -- desc` line, with no `--` on either side, splits into exactly two parts. |
| `FormatCatalog.LineParses` | openprattle/babel.py:465-466 | A printed line parses back to its entry. |
| `FormatCatalog.LinesParse` | openprattle/babel.py:464-466 | The printed lines of printable entries parse back to those entries. |
| `FormatCatalog.ListingRoundTrip` | openprattle/babel.py:457-472 | Parsing a printed listing gives back the catalog of its entries, with later duplicates winning. |
| `FormatCatalog.LineWithoutSeparatorRejected` | openprattle/babel.py:465 | A line without `--` is rejected. |
| `FormatCatalog.EntriesFailAt` | openprattle/babel.py:462-470 | One line that does not parse makes the whole sequence fail. |
| `FormatCatalog.BadLineRejectsListing` | openprattle/babel.py:462-470 | One bad line anywhere in a listing rejects the whole listing. |
| `FormatCatalog.BlankLineRejectsListing` | openprattle/babel.py:464-465 | A blank line rejects the whole listing. |
| `FormatCatalog.Store` | openprattle/babel.py:481-494 | Writing one cache slot leaves the other untouched. |
| `FormatCatalog.Lookup` | openprattle/babel.py:475-515 | The other direction's slot is never touched. A cached catalog is returned as is when there is no refresh. On a refresh or a miss the result is a fresh run, which is stored on success and leaves the slot empty on failure. |
| `FormatCatalog.LookupIsCached` | openprattle/babel.py:488-494 | After a successful lookup, a repeat lookup without refresh returns the same catalog and cache, whatever the process would now print. |
| `FormatCatalog.RefreshReruns` | openprattle/babel.py:481-494 | A refresh always re-runs the listing. |
| `FormatCatalog.MissRunsListing` | openprattle/babel.py:488-494 | A miss on the empty cache runs the listing for its direction, and a failure leaves the cache empty. |
| `FormatCatalog.MissOnWellFormedListing` | openprattle/babel.py:488-494 | A miss whose listing run exits with 0 and prints a well-formed listing returns the catalog of its entries, with later duplicates winning, and caches it. |
| `FormatCatalog.CatalogMatchesConverter` | openprattle/babel.py:517-522 | `formats()` falls back to the `obabel` listing exactly when the binding is missing, and then every conversion also goes through `obabel`. |

## Left out

- The binding's own work is opaque and is not modelled: reading, `localopt`, `addh`, `write`, `draw`, and switching its error log off and on.
  Only the plan of binding calls is modelled.
- Process execution is the parameter `exec`.
  So are the piping of the buffer or open file into `obabel`, the environment copy, and the disabled `BABEL_LIBDIR` branch.
- Logging and warnings are side effects with no bearing on results, so they are left out.
- `HAVE_PYBEL`, which comes from an import attempt, is the parameter `havePybel`.
- `Pybel_formats.read` and `write` return the binding's own tables, which are outside openprattle, so they are not modelled.
  `formats()` is modelled as the choice of catalog source.
- `Text.Lower`: only ASCII letters are lower-cased, not full Unicode case mapping.
- `Text.Trim`: only ASCII whitespace is stripped, including `\x1c`–`\x1f`.
  Unicode spaces are not.
- The `\w` of the failure regex is ASCII only.
- `splitlines` is modelled as splitting on `\n` only, not on `\r`, `\v`, `\f`, `\x1c`–`\x1e` or Unicode separators.
- pathlib is reduced to `/`-separated strings.
  `name` is the part after the last `/` once trailing `/` are dropped.
  `suffix` is the text after the last dot when that dot is neither the first nor the last character.
  Windows paths and `.` components are not normalised.
  The unrecognised-name error carries the path as given, whereas the source formats the normalised `Path` (`a//b/` prints as `a/b`, and an empty path as `.`).
- `ObabelConverter.Plan` and `ObabelConverter.Convert` require an input format.
  With none, the source fails on `None.lower()` or passes `None` to the process, and neither failure is part of openprattle's contract.
- The catalog is an unordered `map`. The source's dict also keeps the order in which each code first appears; nothing in the conversion layer depends on that order.
- Bytes input is not modelled.
  The binding reads `str(buffer)`, which for `bytes` is its `b'…'` representation, and the model treats every buffer as text.
- `Text.Split`: its contract only states that there is at least one part.
  What a split means is stated by `Text.SplitJoin`, `Text.SplitAfterFirst` and `Text.SplitNoSeparator`.
- `FormatCatalog.ParseListing`: its contract only states the kind of error.
  Its meaning is stated by `FormatCatalog.Entries`, `FormatCatalog.ListingRoundTrip` and `FormatCatalog.BadLineRejectsListing`.
- The abstract `Openbabel_converter.convert` and `Openbabel_formats` methods, which only raise `NotImplementedError`, are not modelled.
- `run_obabel` runs the process in text mode (`universal_newlines`, babel.py:366-367).
  Standard output and standard error are taken as already-decoded text, and the decoding failure of binary output, such as a png on standard output, is not modelled.
- The test files exercise real conversions and are not modelled.

## Notes on the code's behaviour

The model follows `openprattle/babel.py` as written, including these behaviours:

- `Obabel_formats.run` splits each listing line on every `--`, not only on the first (babel.py:465).
  A description containing `--` gives three parts, the two-name unpacking fails, and the whole listing is rejected.
- `Obabel_formats.run` does not skip blank lines (babel.py:464-465).
  A blank line has no `--` and makes the whole listing fail (`FormatCatalog.BlankLineRejectsListing`).
- Only `Pybel_converter.convert` rejects png without an output file (babel.py:179-180).
  `Obabel_converter.convert` has no such check; the model returns whatever `exec` gives as standard output (`ObabelConverter.PngToStandardOutput`).
- `from_file` infers the format only when it is `None` (babel.py:63).
  The constructor's docstring (babel.py:47), for the argument `from_file` forwards, says the format is determined automatically when it is "not given".
  An explicitly empty format is therefore kept, and then goes to the binding when the binding is loaded.
