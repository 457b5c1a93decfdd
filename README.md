# Identifier-to-file resolution for the UniProt structure browser

`make_entries_json.py` reads a spreadsheet of UniProt identifiers and looks up each
identifier in a dataset tree. Each identifier has a folder `<uid>/`. Below it, a
Boltz-2 structure file sits somewhere under `<uid>/<uid>_Boltz-2/` and the sequence
file is `<uid>/<uid>_Sequence/<uid>.fasta`. The script writes `entries.json`, which
lists every identifier whose two files were found, each with two raw-download URLs.
It also reports the identifiers whose files are missing.

This project is a Dafny model of that pipeline, in five modules:

- `Wrappers` (`wrappers.dfy`) holds `Option` and `Result`.
- `Text` (`text.dfy`) holds the Python string operations the script relies on:
  - `str.isspace`, modelled as the exact set of 29 code points Python treats as whitespace;
  - `lower` on ASCII letters;
  - `strip`, `split` and `" ".join`;
  - `re.search` of an escaped literal, which is a plain substring test;
  - `PurePath.suffix`.
- `Headers` (`headers.dfy`) models `normalize_header` and `locate_uid_field` as pure functions.
  - The dict comprehension becomes the fold `KeyedMap`, in which the last header wins.
  - The candidate loop becomes `FirstPresent`.
  - The lemmas about both are stated for any normalisation function, then applied to `NormalizeHeader`.
- `Resolver` (`resolver.dfy`) models `find_files_for` over a filesystem value.
  - The value is `FileSystem(dirs, files)`: a set of directory paths and a sequence of file paths in walk order.
  - Every path is a sequence of segments relative to the data root.
  - `FindFilesFor` is the imperative search. Its loop stops at the first accepted file, like the `break`.
  - The method is proved equal to the specification function `Resolve`.
- `Manifest` (`manifest.dfy`) models the row loop of `main` as the method `BuildManifest`.
  - The method appends to `entries` and `missing`, skipping blank rows with `continue`.
  - It is proved equal to the left fold `Collect` over the rows.
  - Lemmas state what `Collect` promises:
    - every non-blank row lands in exactly one list;
    - blank rows land in neither list;
    - rows keep their order and are not deduplicated;
    - URLs are `RAW_BASE + "/" + rel`;
    - `count` is the number of entries.

Inputs that the script takes from the outside world are parameters of the model:
- the header list and the rows that `csv.DictReader` yields;
- the filesystem snapshot;
- the `RAW_BASE` string.

A row is a map from the original header to `Option<string>`. `None` stands for the
value `DictReader` gives the missing cells of a short row. `str(None)` is `"None"`,
so such a row is read as the identifier `"None"`. A header that is absent from the
row reads as `""`.

The structure search in `find_files_for` has no prefix-boundary guard, no fallback
pass, and no ordering of candidates. The name test is a plain substring test, and the
first accepted file in walk order wins. `Resolver.ExtendedIdentifierAccepted` and
`Resolver.LongerIdentifierAccepted` state the consequence outright: `P05067` accepts a
file named for `P050671`.

## Model

| member | source | states |
|---|---|---|
| Text.Lower | make_entries_json.py:20 | `lower()` character by character; `LowerAt` states that it keeps the length and maps each character with `LowerChar` |
| Text.LowerAppend | make_entries_json.py:20 | lower-casing a concatenation lower-cases each piece |
| Text.LowerChar | make_entries_json.py:20 | lower-casing leaves no upper-case letter, keeps whitespace and the space character, and changes nothing but upper-case letters |
| Text.LowerAt | make_entries_json.py:20 | `lower` keeps the length and maps every character on its own |
| Text.IsSpace | make_entries_json.py:19 | the 29 code points that `str.split()` and `str.strip()` treat as whitespace: U+0009 to U+000D, U+001C to U+0020, U+0085, U+00A0, U+1680, U+2000 to U+200A, U+2028, U+2029, U+202F, U+205F and U+3000; the same test serves the `.strip()` at make_entries_json.py:104 |
| Text.Strip | make_entries_json.py:19 | the stripped text is no longer than the input, and neither starts nor ends with whitespace |
| Text.StripSpec | make_entries_json.py:19 | the stripped text is a slice of the input with only whitespace around it, and is empty exactly when the input is all whitespace |
| Text.StripSurrounded | make_entries_json.py:104 | stripping removes exactly the whitespace around a piece that starts and ends with other characters |
| Text.StripIdempotent | make_entries_json.py:104 | stripping twice is stripping once |
| Text.JoinWith | make_entries_json.py:19 | `sep.join(parts)`: parts with the separator between neighbours only; `Headers.JoinedWordsSingleSpaced` states that joining words with `" "` gives single-spaced text, and `Headers.SplitJoinSingleSpaced` that splitting and joining rebuilds single-spaced text |
| Text.Contains | make_entries_json.py:73 | the substring test `re.search` performs on an escaped literal; `ContainsAt` states it position by position |
| Text.ContainsAt | make_entries_json.py:73 | the name test holds exactly when the pattern occurs at some position of the name, with no boundary condition |
| Text.LastIndexOfSpec | make_entries_json.py:72 | the dot found is the last dot, and no dot means no occurrence |
| Text.Suffix | make_entries_json.py:72 | `PurePath.suffix`: from the last dot, when that dot is neither first nor last in the name; `SuffixSpec` states its meaning |
| Text.SuffixSpec | make_entries_json.py:72 | a non-empty suffix is a dot followed by dot-free characters that ends the name after a non-empty stem; the suffix is empty exactly when no dot qualifies |
| Headers.ReplaceNbsp | make_entries_json.py:18 | no NBSP is left, and every position keeps whether it is whitespace |
| Headers.ReplaceNbspSplit | make_entries_json.py:18-19 | NBSP already counts as whitespace for `split()`, so the replacement changes no word the split yields |
| Headers.Split | make_entries_json.py:19 | `split()` yields only non-empty, whitespace-free words |
| Headers.SplitKeepsContent | make_entries_json.py:19 | `split()` loses only whitespace: its words, concatenated, are exactly the non-whitespace characters of the input, in order |
| Headers.SplitSkipsSpace | make_entries_json.py:19 | leading whitespace contributes no word |
| Headers.SplitLeadingWord | make_entries_json.py:19 | a word followed by whitespace or by nothing is the first word of the split, and the rest splits on its own |
| Headers.SplitSpacedWords | make_entries_json.py:19 | two words with any non-empty run of whitespace between them split into exactly those two words |
| Headers.SplitTwoWords | make_entries_json.py:19 | two words joined by one space split back into exactly those two words |
| Headers.JoinedWordsSingleSpaced | make_entries_json.py:19 | joining whitespace-free words with one space gives text with single spaces between words, no other whitespace, and none at either end |
| Headers.SplitJoinSingleSpaced | make_entries_json.py:19 | single-spaced text is rebuilt exactly by splitting and joining it |
| Headers.NormalizeHeader | make_entries_json.py:16-20 | `None` and `""` normalise to `""`; `NormalizeOneWord` and `NormalizeTwoWords` state what other headers normalise to |
| Headers.NormalizeHeaderSpec | make_entries_json.py:16-20 | the output has no leading, trailing or doubled space, no other whitespace, and no upper-case letter |
| Headers.NormalizedIsFixpoint | make_entries_json.py:16-20 | already-normalised text is left unchanged |
| Headers.NormalizeIdempotent | make_entries_json.py:16-20 | normalising twice equals normalising once |
| Headers.NormalizeOneWord | make_entries_json.py:16-20 | one word with any whitespace, NBSP included, around it normalises to the word lower-cased: the match is insensitive to case and to surrounding whitespace, as make_entries_json.py:100 says |
| Headers.UnderscoreExample | make_entries_json.py:16-20 | `"  UniProt_ID "` normalises to the candidate `"uniprot_id"` |
| Headers.NormalizeTwoWords | make_entries_json.py:16-20 | two words with any whitespace, NBSP included, before, between and after them normalise to the two words lower-cased and joined by one space |
| Headers.ReplaceTwoWords | make_entries_json.py:18-19 | after NBSP replacement and `strip()`, two words keep their text and only whitespace remains between them |
| Headers.NormalizeExample | make_entries_json.py:18-20 | `"  UniProt\u00A0ID "` (with a no-break space) normalises to `"uniprot id"`: NBSP counts as a space |
| Headers.KeyedMap | make_entries_json.py:45 | the dict comprehension as a left fold in which a later header overwrites an earlier one with the same key; `KeyedMapSpec` states its keys and values |
| Headers.KeyedMapSpec | make_entries_json.py:45 | the map's keys are the normalised forms of the present headers; each key maps to the last header with that key, and `None` headers are ignored |
| Headers.FirstPresent | make_entries_json.py:53-56 | nothing is found exactly when no key is in the map; otherwise the result belongs to the first key present, and no earlier key is present |
| Headers.FirstPresentKeyedNone | make_entries_json.py:44-56 | for any normalisation, the priority lookup fails exactly when no present header maps to a key |
| Headers.FirstPresentKeyedSome | make_entries_json.py:44-55 | for any normalisation, a successful lookup returns the header of the last column mapped to the first key that any column maps to |
| Headers.SelectedByUnique | make_entries_json.py:44-55 | for any normalisation, at most one (candidate, column) pair is the selected one |
| Headers.LocateUidField | make_entries_json.py:44-56 | the first candidate key present in the normalised header map, or nothing; `LocateUidFieldNone` and `LocateUidFieldSome` state both outcomes in terms of the headers |
| Headers.LocateUidFieldNone | make_entries_json.py:53-56 | `locate_uid_field` returns `None` exactly when no non-`None` header normalises to one of the four candidates |
| Headers.LocateUidFieldSome | make_entries_json.py:44-55 | a found header is an element of `fieldnames` and is not empty. It is the last header normalising to the first candidate, in the order "uniprot id", "uniprot_id", "uniprot accession", "id", that any header normalises to |
| Headers.CandidateHeaderNonEmpty | make_entries_json.py:47-52 | a header that normalises to a candidate is not empty |
| Headers.SelectedColumnUnique | make_entries_json.py:44-55 | the column `locate_uid_field` chooses is determined uniquely |
| Resolver.FirstWhere | make_entries_json.py:71-75 | the `for` loop over the walk with its `break` as a function: the position of the first admitted file, or nothing; a found position is inside the walk, and `FirstWhereSpec` states that it is the first admitted one |
| Resolver.FirstWhereSpec | make_entries_json.py:71-75 | the search with `break` returns the first admitted file in walk order, and nothing only when no file is admitted |
| Resolver.FirstAtUnique | make_entries_json.py:71-75 | there is only one first admitted file, so the file the `break` stops at is determined |
| Resolver.HasStructureSuffix | make_entries_json.py:72 | the suffix, lower-cased, is `.cif` or `.mmcif`; `Text.SuffixSpec` states what the suffix is |
| Resolver.IsStructureFile | make_entries_json.py:71-73 | a file strictly below `uid/uid_Boltz-2/` with a structure suffix whose name contains `monomer_Boltz-2_<uid>`; `ResolveSucceeds` and `ExtendedIdentifierAccepted` state what it admits |
| Resolver.Posix | make_entries_json.py:87-88 | `as_posix()` joins the segments with `/`; `SequencePosix` and `StructurePosix` state the strings it gives |
| Resolver.LastDotStartsExtension | make_entries_json.py:72 | in a name ending with a dot and dot-free characters, the last dot starts that ending |
| Resolver.ExtendedIdentifierAccepted | make_entries_json.py:72-73 | under `uid`'s structure folder, the `.cif` file named for any identifier that extends `uid` is accepted for `uid` |
| Resolver.LongerIdentifierAccepted | make_entries_json.py:73 | `monomer_Boltz-2_P050671.cif` under `P05067/P05067_Boltz-2/` is accepted for `P05067` |
| Resolver.Resolve | make_entries_json.py:83-84 | resolution returns both paths or neither |
| Resolver.ResolveFails | make_entries_json.py:59-84 | resolution fails exactly when `uid/` or `uid/uid_Boltz-2/` is not a directory, no file is accepted, `uid/uid_Sequence/` is not a directory, or `uid.fasta` is not a file there |
| Resolver.ResolveSucceeds | make_entries_json.py:63-88 | on success the FASTA path is exactly `uid/uid_Sequence/uid.fasta`. The CIF path is that of the first accepted file in walk order and starts with `uid/uid_Boltz-2/`. An accepted file has a `.cif`/`.mmcif` suffix in any case and contains `monomer_Boltz-2_<uid>` |
| Resolver.SequencePosix | make_entries_json.py:79 | the sequence file's POSIX path is `uid/uid_Sequence/uid.fasta` |
| Resolver.StructurePosix | make_entries_json.py:87 | a path below the structure folder renders as `uid/uid_Boltz-2/` followed by the rest |
| Resolver.FindFilesFor | make_entries_json.py:58-89 | the imperative search with its `break` returns exactly what `Resolve` specifies |
| Manifest.CellText | make_entries_json.py:103-104 | `str(row.get(field, ""))`: an absent header reads as `""`, a `None` cell as `"None"`, any other cell as its text; `ShortRowReadsNone` states the short-row case |
| Manifest.RowIdentifier | make_entries_json.py:103-104 | the stripped cell text; `CollectSound` states that every identifier in either list is stripped and non-blank |
| Manifest.Url | make_entries_json.py:116-117 | the URL splits back into `RAW_BASE`, one `/` and the relative path |
| Manifest.Contribution | make_entries_json.py:103-119 | one row's effect: nothing for a blank identifier, one entry when both files resolve, one missing identifier otherwise; `ContributionAccounts` states that it accounts for the identifier once |
| Manifest.Collect | make_entries_json.py:102-119 | the loop over the rows as a left fold of `Contribution`; `CollectAppend`, `CollectSound` and `CollectAccountsForEveryRow` state its properties |
| Manifest.LocatedHeaderNonEmpty | make_entries_json.py:96-97 | `locate_uid_field` never returns `""`, so `not uid_field` fails only on `None` |
| Manifest.ResolvedPathsNonEmpty | make_entries_json.py:108-109 | resolved paths are never `""`, so `not (cif_rel and fasta_rel)` fails only on `None` |
| Manifest.BuildManifest | make_entries_json.py:91-122 | the run fails with the headers it saw exactly when no identifier column exists. Otherwise `count` is the number of entries, and the entries and missing identifiers are those `Collect` gives for the rows |
| Manifest.CollectAppend | make_entries_json.py:102-119 | rows are processed independently and in order: the lists for two batches of rows are the concatenations of their lists |
| Manifest.CollectSound | make_entries_json.py:103-119 | every entry has a trimmed, non-blank identifier that resolves, with URLs `RAW_BASE + "/" + rel`; every missing identifier is trimmed, non-blank and fails to resolve |
| Manifest.ContributionAccounts | make_entries_json.py:103-119 | a row accounts for its trimmed identifier once, in one list, unless it is blank |
| Manifest.CollectAccountsForEveryRow | make_entries_json.py:102-119 | counted with repetition, entry identifiers plus missing identifiers are exactly the trimmed identifiers of the non-blank rows: blank rows are in neither list, and there is no deduplication |
| Manifest.CollectTotal | make_entries_json.py:102-119 | the two lists together are as long as the list of non-blank rows |
| Manifest.ShortRowReadsNone | make_entries_json.py:103-104 | a short row's missing identifier cell is read as the identifier `"None"` |

## Left out

- `sniff_dialect` and `open_csv_reader` (make_entries_json.py:22-42) are not modelled: delimiter sniffing, UTF-8-BOM decoding and CSV parsing. The parsed header list and rows are inputs. `reader.fieldnames or []` is modelled by passing `[]` for a file with no header row.
- The configuration constants (make_entries_json.py:6-14) are parameters. `RAW_BASE` is an opaque string.
- JSON serialisation, `mkdir`, and the console and debug prints (make_entries_json.py:99, 121-126) are not modelled. The `AssertionError` for a missing identifier column becomes the `Failure(NoIdentifierColumn(fieldnames))` result, which carries the headers the debug print shows.
- The real filesystem is replaced by a snapshot value. The model covers no symlinks, no path resolution, no filesystem errors during the walk, and no particular `rglob` order. The walk order is the order of `files`.
- An identifier is treated as one path segment. The model does not cover identifiers that contain `/` or that are `.` or `..`, which the real path join would interpret.
- Text.Lower: lower-cases ASCII letters only, because Python's full Unicode case mapping is not modelled. The only non-ASCII characters whose `lower()` contains an ASCII letter are U+0130, which becomes `"i\u0307"` (two characters, so never an ASCII-only string), and U+212A (Kelvin sign), which becomes `k`. None of the four candidates contains a `k`, and neither `.cif` nor `.mmcif` does, so for every input the restriction changes neither the match against the candidates (make_entries_json.py:47-54) nor the suffix test (make_entries_json.py:72).
- `site/app.js` is not part of this model. It is browser UI whose only logic is a one-line substring filter.
