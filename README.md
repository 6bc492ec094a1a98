# FilmSousTitre configuration store and SubRip formatter, in Dafny

This project models two small pieces of the FilmSousTitre video-transcription tool and proves what they promise.

- **`src/config.py`, the configuration loader.**
  - `load_config` reads a YAML file once and keeps the parsed document in the process-wide `_config_cache`. Every later call returns the cached document.
  - `get_config` looks up a dotted key path such as `audio.preferredcodec`. It walks nested mappings one segment at a time and falls back to a default.
- **`src/utils.py`, the subtitle formatter.**
  - `format_time` writes a time as `HH:MM:SS,mmm`.
  - `format_to_srt` turns the recognised segments into numbered SubRip cues joined by newlines.

The project has four modules, one file each:

- `wrappers.dfy` (`Wrappers`): `Option` and `Result`.
- `strings.dfy` (`Strings`): the Python string operations the two files rely on, on `seq<char>`.
  - `str.split` and `str.join` with a one-character separator.
  - `f"{n}"` and `f"{n:02d}"`.
  - `str.strip()`, over the `str.isspace` character set.
  - One-character `str.replace`.
- `config.dfy` (`Config`): the configuration loader.
  - A YAML document is the datatype `Value`.
  - One call of `load_config` is the pure function `LoadStep`, from the old cache and a `Request` to the result and the new cache.
  - `Request` carries the path after `expanduser`, whether that file exists, and the parsed document. A parsed document of `None` stands for a parse error.
  - `Run` chains calls, so the once-only behaviour of the cache is stated over any sequence of calls.
  - The class `ConfigStore` holds `_config_cache` as a field. Its methods `Load` and `GetConfig` update the field as the source does, and are proved against `LoadStep` and `Get`.
  - `get_config`'s loop is the method `Walk`. It is proved equal to the recursive `Lookup` over `Split(key, '.')`.
- `utils.dfy` (`Utils`): the subtitle formatter.
  - Times are whole milliseconds.
  - `FormatTime` follows the source's decomposition and its final `.`→`,` replacement.
  - `ParseTime` reads a time back. It is an independent reference definition: `FormatTime` is proved to be injective and exactly inverted by it.
  - `FormatToSrt` is the source's loop that appends one cue per segment. It is proved equal to `SrtText`, whose cue numbering, layout and separators are proved as lemmas.

## Model

| member | source | states |
|---|---|---|
| Strings.Split | src/config.py:78 | `key.split(".")` never returns an empty list, and no piece contains the separator |
| Strings.SplitNoSep | src/config.py:78 | a key without a dot splits into itself alone |
| Strings.SplitAfterSep | src/config.py:78 | `p + "." + t` with no dot in `p` splits into `p` followed by the pieces of `t` |
| Strings.JoinSplit | src/config.py:78 | joining the pieces of a split with the separator gives back the original string, so no character is lost |
| Strings.Join | src/utils.py:47 | `"\n".join(parts)`: the parts with one separator between neighbours; specified by JoinCons, JoinAt, JoinAppend and the split round trips SplitJoin and JoinSplit |
| Strings.JoinCons | src/utils.py:47 | joining `[p] + ps` (with `ps` non-empty) is `p`, a separator, then the join of `ps` |
| Strings.SplitJoin | src/utils.py:47 | splitting the join of separator-free parts gives the parts back |
| Strings.JoinAt | src/utils.py:47 | part `i` appears whole at its offset in the joined text, right after a separator unless it is the first |
| Strings.OffsetStep | src/utils.py:47 | the next part starts one separator after the end of the current one |
| Strings.DoubleSepBefore | src/utils.py:46-47 | when a part ends with the separator, the next part is preceded by two separators |
| Strings.JoinPlaced | src/utils.py:46-47 | part `i` is placed whole at its offset, and preceded by two separators when the previous part ends with one |
| Strings.JoinAppend | src/utils.py:47 | appending a part to a non-empty list appends a separator and the part to the join |
| Strings.NatToString | src/utils.py:46 | `f"{n}"` is a non-empty string of decimal digits, with one digit below 10, at most two below 100 and at most three below 1000, and no leading zero for a positive number |
| Strings.NatToStringRoundTrip | src/utils.py:46 | the decimal numeral reads back as the number |
| Strings.Zeros | src/utils.py:54 | `k` zero digits |
| Strings.ZerosValue | src/utils.py:54 | a run of zeros has value 0 |
| Strings.LeadingZeros | src/utils.py:54 | leading zeros do not change the value of a numeral |
| Strings.ZeroPad | src/utils.py:54 | `{n:02d}` (and the three-digit millisecond field) is all digits, at least the width long, exactly the width when the numeral fits, and the plain numeral when it is as long as the width or longer (100 hours print as `100`) |
| Strings.ZeroPadValue | src/utils.py:54 | padding never changes the number the digits spell |
| Strings.IsSpace | src/utils.py:46 | the characters `str.isspace` accepts, which `strip()` removes |
| Strings.TrimStart | src/utils.py:46 | the leading-whitespace trim; specified by TrimStartSpec |
| Strings.TrimEnd | src/utils.py:46 | the trailing-whitespace trim; specified by TrimEndSpec |
| Strings.Strip | src/utils.py:46 | `text.strip()`; specified by StripIsTrimmedSlice and StripIdempotent |
| Strings.TrimStartSpec | src/utils.py:46 | the left trim keeps a suffix, drops only whitespace, and keeps nothing that starts with whitespace |
| Strings.TrimEndSpec | src/utils.py:46 | the right trim keeps a prefix, drops only whitespace, and keeps nothing that ends with whitespace |
| Strings.StripIsTrimmedSlice | src/utils.py:46 | `text.strip()` is the slice of the text between a whitespace-only prefix and a whitespace-only suffix, and neither starts nor ends with whitespace |
| Strings.StripIdempotent | src/utils.py:46 | stripping a stripped text changes nothing |
| Strings.ReplaceChar | src/utils.py:54 | `.replace('.', ',')` keeps the length |
| Strings.ReplaceCharAt | src/utils.py:54 | every `.` becomes `,` and every other character stays in place |
| Strings.ReplaceConcat | src/utils.py:54 | replacing in a concatenation is replacing in each piece |
| Strings.ReplaceAbsent | src/utils.py:54 | a string without `.` is left unchanged |
| Config.Truthy | src/config.py:53 | Python truthiness, which decides `yaml.safe_load(fp) or {}`; used by LoadFalsyIsEmptyMapping and LoadParsedDocument |
| Config.NotFoundMessage | src/config.py:47-50 | the text of the missing-file error; specified by NotFoundMessageNamesPath |
| Config.NotFoundMessageNamesPath | src/config.py:47-50 | the missing-file message contains the resolved path |
| Config.LoadStep | src/config.py:38-55 | one `load_config` call: result and new cache from the old cache and what the file system and the parser answer; specified case by case by the five Load lemmas, over sequences by PinnedForever, SuccessesAgree and FilledIffSomeSuccess, and implemented by ConfigStore.Load |
| Config.LoadCachedIgnoresRequest | src/config.py:42-43 | with the cache filled, any call returns the cached document, whatever the path, and the cache stays as it is |
| Config.LoadMissingFile | src/config.py:45-50 | on the first call, a missing file raises a not-found error naming the path and leaves the cache empty |
| Config.LoadParseErrorKeepsCacheEmpty | src/config.py:52-53 | on the first call, a file that is not valid YAML raises and leaves the cache empty |
| Config.LoadFalsyIsEmptyMapping | src/config.py:53 | a document that is falsy (empty file, `null`, `{}`, `[]`, `""`, `0`, `false`) is cached and returned as `{}` |
| Config.LoadParsedDocument | src/config.py:52-55 | a truthy document is cached and returned unchanged |
| Config.Run | src/config.py:38-55 | a sequence of calls gives one result per call |
| Config.PinnedForever | src/config.py:42-43 | once the cache holds `d`, every later call returns `d` and the cache never changes |
| Config.SuccessesAgree | src/config.py:52-55 | every document any call returns is the document in the final cache, so later calls never return a different document, and a filled cache is never replaced |
| Config.FilledIffSomeSuccess | src/config.py:38-55 | starting empty, the cache ends up filled exactly when some call succeeded |
| Config.Lookup | src/config.py:77-83 | the walk over the key's segments with its early return of the default; specified by LookupFound, LookupStops, TrailIsWalk and LookupAppend, and implemented by Walk |
| Config.Get | src/config.py:78-83 | `get_config` on a document: Lookup over `key.split(".")`; specified by GetDotted, GetNested, NonMappingGivesDefault and EmptyDocumentGivesDefault |
| Config.LookupFound | src/config.py:77-83 | when every segment is present in successively nested mappings, the final node is returned unchanged |
| Config.LookupStops | src/config.py:78-82 | when the walk reaches a node that is not a mapping or lacks the next segment, the default is returned |
| Config.Trail | src/config.py:77-83 | the nodes the walk visits start at the document, with at most one per segment plus the start |
| Config.TrailIsWalk | src/config.py:77-83 | every walk either takes all segments or stops at a first segment it cannot take, so LookupFound and LookupStops decide every lookup |
| Config.LookupAppend | src/config.py:78-82 | looking up `p + q` is looking up `q` in the node that `p` reaches |
| Config.GetDotted | src/config.py:78-82 | `a.rest` is `rest` looked up in the value at `a` when the document is a mapping holding `a`, and the default otherwise |
| Config.NonMappingGivesDefault | src/config.py:79-82 | a document that is a list or a scalar gives the default for every key, without raising |
| Config.EmptyDocumentGivesDefault | src/config.py:78-82 | the empty document gives the default for every key |
| Config.GetNested | src/config.py:77-83 | `a.b` reaches the value under `b` in the mapping under `a`, as in `audio.preferredcodec` |
| Config.GetExampleMissingLeaf | src/config.py:78-82 | `audio.missing` in `{"audio": {"preferredcodec": "mp3"}}` with default 192 gives 192 |
| Config.GetExampleMissingRoot | src/config.py:78-82 | `missing.nested.path` in the same document gives `None` |
| Config.Walk | src/config.py:77-83 | the loop over `key.split(".")` with its early return computes `Get` |
| Config.ConfigStore.constructor | src/config.py:31 | the cache starts empty |
| Config.ConfigStore.Load | src/config.py:38-55 | the result and the new cache are those of `LoadStep` on the old cache |
| Config.ConfigStore.GetConfig | src/config.py:74-83 | with an explicit `_config`, the cache is neither read nor written and the result is the lookup in that document; without one, `load_config()` runs on the default path, its error propagates, and on success the result is the lookup in the loaded document |
| Utils.NestedMod | src/utils.py:52-53 | taking the minutes within the hour does not change the time within the minute |
| Utils.Decompose | src/utils.py:51-53 | minutes are below 60, the seconds field is below 60 s, and `hours*3600 + minutes*60 + seconds` recombines to the input |
| Utils.FixedSeconds | src/utils.py:53-54 | `{seconds:06.3f}` on whole milliseconds: two-digit seconds, a point, three-digit milliseconds; its layout is stated by FormatTimeLayout |
| Utils.FormatTime | src/utils.py:49-54 | `format_time`; specified by FormatTimeLayout, FormatTimeRoundTrip and FormatTimeInjective |
| Utils.FormatTimeLayout | src/utils.py:54 | the output is two-digit-padded hours, two-digit minutes, two-digit seconds, a comma and three-digit milliseconds, with no `.` left; it is 12 characters long below 100 hours |
| Utils.NoPointInDigits | src/utils.py:54 | a digit field holds no `.`, `:` or `,` |
| Utils.ParseFields | src/utils.py:49-54 | the reference reader takes the four fields of `HH:MM:SS,mmm` back to milliseconds |
| Utils.FormatTimeRoundTrip | src/utils.py:49-54 | every formatted time reads back as the time it came from |
| Utils.FormatTimeInjective | src/utils.py:49-54 | distinct times never print the same |
| Utils.Cue | src/utils.py:46 | one cue, `f"{i+1}\n{start} --> {end}\n{text.strip()}\n"`; specified by CueEndsWithNewline and CueExample |
| Utils.Numbered | src/utils.py:43 | `enumerate(segments)` gives one item per segment |
| Utils.NumberedAt | src/utils.py:43-46 | item `k` is segment `k`'s, numbered `k + 1` |
| Utils.NumberedAppend | src/utils.py:43-46 | one more segment appends one more item, numbered after the others, and leaves the earlier ones alone |
| Utils.Cues | src/utils.py:43-46 | the list `srt_output` after the loop; specified by CuesAt and CuesStep |
| Utils.SrtText | src/utils.py:43-47 | `format_to_srt`'s result; specified by SrtEmpty, SrtAppend, SrtCueAt and SrtBlankLineBefore, and implemented by FormatToSrt |
| Utils.CuesAt | src/utils.py:43-46 | exactly one cue per segment, and cue `k` is `Cue(k + 1, segments[k])`, so numbering is 1..n in input order |
| Utils.CuesStep | src/utils.py:43-46 | each loop iteration appends the next segment's cue to the list |
| Utils.FormatToSrt | src/utils.py:40-47 | the loop that appends one cue per segment, followed by `"\n".join`, computes `SrtText` |
| Utils.SrtEmpty | src/utils.py:47 | no segments give the empty string |
| Utils.CueEndsWithNewline | src/utils.py:46 | every cue ends with its own newline |
| Utils.CuesEndWithNewline | src/utils.py:46 | every cue in the list is non-empty and ends with a newline |
| Utils.SrtCueAt | src/utils.py:43-47 | cue `i` appears whole at its offset in the output |
| Utils.SrtBlankLineBefore | src/utils.py:46-47 | every cue after the first is preceded by a blank line (`"\n\n"`) |
| Utils.SrtAppend | src/utils.py:43-47 | one more segment appends a `"\n"` separator and its cue, numbered `n + 1`, after the earlier output; a single segment gives its cue alone |
| Utils.NumeralExamples | src/utils.py:46 | `f"{n}"` for 0, 1 and 500 |
| Utils.PadExamples | src/utils.py:54 | `00`, `01`, `000` and `500` as zero-padded fields |
| Utils.FormatTimeZeroExample | src/utils.py:49-54 | 0 ms prints as `00:00:00,000` |
| Utils.FormatTimeExample | src/utils.py:49-54 | 1.5 s prints as `00:00:01,500` |
| Utils.StripExample | src/utils.py:46 | `" hi ".strip()` is `hi` |
| Utils.CueExample | src/utils.py:46 | the cue for segment 0 s to 1.5 s with text `" hi "`, numbered 1, is `1\n00:00:00,000 --> 00:00:01,500\nhi\n` |
| Utils.SrtExample | src/utils.py:40-54 | that single segment formats to `1\n00:00:00,000 --> 00:00:01,500\nhi\n` |

## Left out

- Floating-point seconds: times are whole milliseconds, so sub-millisecond inputs are not modelled. Neither are the float `//` and `%` of `format_time` or the rounding of `06.3f`. One consequence is that a value such as 59.9996 s, which the float code prints with a `60,000` seconds field, cannot arise in the model.
- Segments are records with a start, an end and a text. A segment dictionary missing one of these keys, which raises `KeyError` in the source, is not modelled.
- YAML parsing (`yaml.safe_load`) is not modelled: each call receives the parsed document, or `None` when parsing fails. Only string-keyed mappings, lists, strings, integers, booleans and null are represented; floats and non-string keys are not.
- `Path.expanduser` and the existence check are not modelled: a call receives the resolved path and whether the file exists. Errors that come from opening or reading an existing file are not modelled.
- Config.ConfigStore.Load: `load_config` returns the cached dictionary object itself, so a caller that mutates the returned dictionary in place changes what every later call returns; the model's documents are immutable values, so such callers (none appear in the source) are not modelled, and PinnedForever and SuccessesAgree hold only for callers that do not mutate the result.
- Config.LoadMissingFile states that the error message contains the path, using `NotFoundMessage`. The exception object and its type are not modelled.
- Concurrent first loads racing on `_config_cache` are not modelled; the model is single-threaded.
- The command-line blocks (`src/config.py:89-104`) are left out because they are argument parsing and printing.
- `extract_audio` and `transcribe_video` (`src/utils.py:5-38`) are left out because they run `ffmpeg` and a Whisper model. `src/download.py` is left out because it is `yt_dlp` and file-system plumbing.
- Utils.ParseTime has no counterpart in the source. It is a reference inverse used only to state that `FormatTime` loses nothing.
