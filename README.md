# go-config-reader in Dafny

A model of `config/config.go`, a small INI-style configuration reader
written in Go. A `Config` holds a file name and a flat map from qualified
keys to string values. `Read` goes once over the physical lines of the
file and keeps two pieces of state:

- the pending logical line, for continuation with a trailing backslash;
- the current section prefix, `""` or `name.` after a header `[name]`.

Each physical line is handled in this order. An empty line is skipped. A
header is recognised only when nothing is pending. A comment (`//`, `#` or
`;` after trimming) is skipped. Otherwise the line is appended to the
pending line, and one trailing backslash continues it. A completed logical
line is split at its first `=` into a trimmed key and a trimmed value. The
pair is stored under `section + key`. A logical line without `=` stops the
read with the error `WRONG: ` followed by that line. Entries stored before
the error stay.

The project has three modules:

- `Strings` (`strings.dfy`): the few Go `strings` functions the reader
  uses. These are `TrimSpace`, `HasPrefix`, `HasSuffix`, and `SplitN` with a
  limit of 2, which is `SplitFirst` here.
- `ConfigReader` (`config.dfy`): the three line classifiers and a pure
  reference definition of one read. `Classify` decides what a line does,
  `Apply` makes that change, `Step` is one iteration, `Scan` is the whole
  loop and `Parse` is the result. It also holds the class `Config`. Its
  imperative `Read` is proved to leave exactly the map and the error that
  `Parse` describes.
- `ReadProperties` (`read_properties.dfy`): lemmas about whole reads. They
  cover no rollback on error, the shape of error messages, merging into the
  existing map, continuation, comments inside a continuation, white-space
  lines and sections.

`Read` takes the lines of the file as a `seq<string>` with the line
terminators removed. Opening and closing the file is not modelled. The
map before the read is `old(config)`.

Some consequences of the code that are easy to miss:

- A continuation removes only the trailing backslash, so white space before
  it stays in the value: `a = 1 \` then `2` stores `1 2`, while `a = 1\`
  then `2` stores `12` (config/config.go:63-65). See
  `ContinuationJoinsWithoutSeparator`.
- The comment test runs on every non-empty line that is not taken as a
  header, also while a continuation is pending, so a comment line inside a
  continued line is skipped (config/config.go:57, 60). See `CommentInsideContinuation`.
- The section name is the text between the brackets as written, not
  trimmed: `[ a ]` gives the prefix ` a .` (config/config.go:108). See
  `SectionHeaderName`.
- A qualified key is the section prefix followed by the key, with no check
  on either, so a key or a section name can itself contain dots
  (config/config.go:56, 72).
- Only a line equal to `""` is skipped as empty (config/config.go:50). A
  line of white space only, with nothing pending, is a logical line without
  `=`, and the read fails on it. See `BlankLineIsMalformed`.

## Model

| member | source | states |
|---|---|---|
| Strings.TrimSpace | config/config.go:102 | the result starts and ends with no white space and is no longer than its input |
| Strings.TrimSpaceIsSlice | config/config.go:120-121 | trimming keeps one contiguous slice of the input, and everything dropped on either side of it is white space |
| Strings.TrimSpacePadded | config/config.go:126 | trimming `a + t + b` gives back exactly `t` when `a` and `b` are white space and `t` is trimmed |
| Strings.TrimSpaceIdempotent | config/config.go:102 | trimming twice is the same as trimming once |
| Strings.TrimLeftSuffix | config/config.go:102 | removing leading white space keeps a suffix, drops only white space, and leaves no white space at the start |
| Strings.TrimRightPrefix | config/config.go:102 | removing trailing white space keeps a prefix, drops only white space, and leaves no white space at the end |
| Strings.TrimSpaceKeepsLast | config/config.go:102 | a string whose last character is not white space keeps that character last once trimmed |
| Strings.SplitFirst | config/config.go:116 | `SplitN(s, "=", 2)` gives one part or two |
| Strings.SplitFirstParts | config/config.go:116 | one part, equal to `s`, exactly when `sep` does not occur; otherwise two parts, the first free of `sep`, which joined around `sep` give `s` back |
| Strings.SplitFirstAtFirst | config/config.go:116 | splitting `k + sep + v` with `sep` not in `k` gives `[k, v]`, even when `v` contains `sep` |
| Strings.HasPrefix | config/config.go:128 | definition of `strings.HasPrefix`: `s` starts with all of `p`; used through `CommentByFirstCharacters` |
| Strings.HasSuffix | config/config.go:64 | definition of `strings.HasSuffix`: `s` ends with all of `p`; used through `ContinuationAppends` and `BackslashLineIsNoHeader` |
| ConfigReader.CheckSection | config/config.go:101-111 | for a trimmed line of at least two characters in brackets, the result is the inner text, so that `"[" + name + "]"` is the trimmed line; otherwise `""` |
| ReadProperties.SectionHeaderName | config/config.go:101-111 | a header `[name]` with any white space around it names exactly `name`, untrimmed; `[]` names no section |
| ConfigReader.CheckLine | config/config.go:113-123 | fails exactly when the line has no `=`, with the message `WRONG: ` and the line; otherwise the key and value are the trimmed text before and after the first `=` |
| ReadProperties.CheckLineSplitsAtFirstEquals | config/config.go:113-123 | `k + "=" + v` with no `=` in `k` gives the key `TrimSpace(k)` and the value `TrimSpace(v)`; later `=` stay in the value |
| ConfigReader.CommentPrefixes | config/config.go:26 | definition: the comment prefixes `//`, `#` and `;`, in that order |
| ConfigReader.CheckComment | config/config.go:125-133 | definition: the trimmed line starts with one of the prefixes of `commentPrefix`; characterised by `CommentByFirstCharacters` |
| ReadProperties.CommentByFirstCharacters | config/config.go:125-133 | a line is a comment exactly when its trimmed form starts with `#`, with `;` or with `//` |
| ReadProperties.PlainLine | config/config.go:101-133 | a trimmed line whose first character is none of `[`, `#`, `;` and `/` is neither a header nor a comment |
| ConfigReader.Classify | config/config.go:50-71 | definition of the decisions of one loop iteration in their order; characterised by `ClassifyEntersOnlyAtHeader` and the step lemmas below |
| ConfigReader.Apply | config/config.go:51-73 | definition of the effect of each decision; characterised by `ApplyKeepsSection` and `StepChangesAtMostOneEntry` |
| ConfigReader.Step | config/config.go:50-73 | definition of one loop iteration; `Config.ReadLine` is proved to do exactly this |
| ConfigReader.Scan | config/config.go:49-74 | definition of the whole loop; characterised by `ScanNext`, `ScanStops` and `ScanAppend` |
| ConfigReader.Start | config/config.go:47-48 | definition: a read starts with nothing pending, no section prefix and the map it fills; used by `Parse` |
| ConfigReader.EmptyLineSkipped | config/config.go:50-52 | an empty physical line leaves the pending line, the section and the map unchanged |
| ConfigReader.SectionHeaderSetsPrefix | config/config.go:53-59 | a header read with nothing pending sets the prefix to the name and a dot, and changes nothing else |
| ConfigReader.SectionChangesOnlyAtHeader | config/config.go:53-59 | when a step changes the section, nothing was pending, the line is a non-empty header, and the new prefix is its name and a dot |
| ConfigReader.ClassifyEntersOnlyAtHeader | config/config.go:50-59 | a line is treated as a header only if it is non-empty, nothing is pending and it names a section |
| ConfigReader.ApplyKeepsSection | config/config.go:56 | no action except entering a section changes the section prefix |
| ConfigReader.CommentIsNoHeader | config/config.go:101-133 | a comment line is never a header, since its trimmed form starts with `/`, `#` or `;` |
| ConfigReader.BackslashLineIsNoHeader | config/config.go:53-65 | a line ending in a backslash is never a header, since its trimmed form ends in the backslash |
| ConfigReader.CommentSkipped | config/config.go:60-62 | a comment line changes nothing, whether or not a continuation is pending |
| ConfigReader.ContinuationAppends | config/config.go:63-67 | a line after which the logical line ends in a backslash is appended with no separator, that one backslash is dropped, and nothing is stored |
| ConfigReader.CommitStoresOneEntry | config/config.go:68-73 | a completed logical line with `=` stores one entry, `section + key`, upserted over any old value, and empties the pending line |
| ConfigReader.MalformedLineAborts | config/config.go:68-71 | a completed logical line without `=` stops the read with `WRONG: ` and that line, and the map stays as it was |
| ConfigReader.StepChangesAtMostOneEntry | config/config.go:50-73 | any step either leaves the map as it was or upserts the one entry its logical line names; an abort keeps the map |
| ConfigReader.ScanNext | config/config.go:49-74 | a line that leads to a state `s` leaves the rest of the read to start from `s` |
| ConfigReader.ScanStops | config/config.go:69-71 | a line that aborts ends the read with that abort |
| ConfigReader.Config.constructor | config/config.go:33-38 | `NewConfig`: the store keeps the file name and starts with no entries |
| ConfigReader.Parse | config/config.go:40-76 | definition of the map and the error a read leaves; `Config.Read` is proved to produce it |
| ConfigReader.Config.Read | config/config.go:40-76 | the map after `Read`, together with the error it returns, is exactly what `Parse` gives for the lines and the map before the read |
| ConfigReader.Config.ReadLine | config/config.go:50-73 | one iteration of the loop changes the map, the pending line and the section exactly as `Step` describes, or returns the error `Step` stops with |
| ConfigReader.Config.Get | config/config.go:78-84 | the stored value for a present key, `""` for an absent one |
| ConfigReader.Config.Set | config/config.go:86-88 | the map afterwards is the old map with `key` set to `value`, and nothing else changed |
| ConfigReader.Config.Add | config/config.go:90-92 | the same upsert as `Set`; an existing key is overwritten |
| ConfigReader.Config.Del | config/config.go:94-96 | the map afterwards is the old map without `key`; every other entry stays |
| ReadProperties.ScanAppend | config/config.go:49-74 | reading `a + b` is reading `a`, then reading `b` from where `a` stopped, unless `a` aborted |
| ReadProperties.AbortKeepsCommitted | config/config.go:68-72 | an abort happens at one line `j`; the lines before `j` read without error, and the aborted read keeps exactly the map they built |
| ReadProperties.AbortMessage | config/config.go:70 | every abort message is `WRONG: ` followed by a logical line with no `=` |
| ReadProperties.ReadErrorKeepsEarlierEntries | config/config.go:68-72 | a failed read returns `WRONG: ` and an offending line without `=`; it fails on a line `j`, the lines before `j` read without error and leave the same map, and the message is `WRONG: ` followed by the line still pending after them and then line `j` |
| ReadProperties.AbortNamesLine | config/config.go:63-70 | a step that aborts names the logical line: `WRONG: `, the pending line and the physical line |
| ReadProperties.StepUnder | config/config.go:72 | one step on `m + e` is the step on `e` with `m` laid underneath |
| ReadProperties.ApplyUnder | config/config.go:72 | the same for one action |
| ReadProperties.ScanUnder | config/config.go:49-74 | a whole read on `m + e` is the read on `e` with `m` laid underneath |
| ReadProperties.ReadMerges | config/config.go:47-76 | reading into a map `m` gives the same error as reading into an empty map, and the map `m` overridden by what that read stores |
| ReadProperties.ReadNeverClears | config/config.go:72 | a read never removes a key, and a key the file does not set keeps its old value, whether the read succeeds or fails |
| ReadProperties.KeyValueLineCommits | config/config.go:63-73 | a completed logical line `k = v` with no `=` in `k` stores the trimmed `v` under the section prefix and the trimmed `k` |
| ReadProperties.KeyValueLineStored | config/config.go:63-73 | the same for a complete line read with nothing pending |
| ReadProperties.ContinuationOpens | config/config.go:63-67 | a line ending in a backslash, read with nothing pending, becomes the pending line without its backslash |
| ReadProperties.ContinuationCloses | config/config.go:63-73 | a line without a trailing backslash after the pending `k = v1` stores the trimmed `v1 + v2` under the trimmed `k` |
| ReadProperties.ContinuationJoinsWithoutSeparator | config/config.go:63-73 | reading `k = v1\` and then `v2` stores the trimmed `v1 + v2` under the trimmed `k`; no separator is inserted |
| ReadProperties.CommentInsideContinuation | config/config.go:60-67 | a comment line between the two halves of a continued line does not change the result of the read |
| ReadProperties.DanglingContinuationDropped | config/config.go:63-75 | after any error-free lines, a last line that continues the logical line leaves it pending; it is dropped and the read ends exactly as the read without that line, with no error and the same map |
| ReadProperties.BlankLineAborts | config/config.go:50-71 | a line of white space only, read with nothing pending, aborts with `WRONG: ` and the line |
| ReadProperties.BlankLineIsMalformed | config/config.go:50-71 | reading one line of white space fails, names the line and leaves the map unchanged |
| ReadProperties.HeaderEntersSection | config/config.go:53-58 | a padded header `[name]` read with nothing pending sets the prefix to `name.` |
| ReadProperties.SectionQualifiesKeys | config/config.go:53-73 | a key-value line after `[name]` is stored under `name.` followed by the trimmed key |

## Left out

- Opening and closing the file, and the error of `os.Open` (config/config.go:41-45): this is file I/O; `Read` takes the lines of the file as input.
- Splitting the file into lines with `bufio.Scanner` (config/config.go:46-49): the lines are input with their terminators already removed. The scanner's own error on a line that is too long, which `Read` ignores, is not modelled.
- `Write` (config/config.go:98-99): it is an empty function.
- Strings.TrimSpace: trims only ASCII white space (space, tab, line feed, vertical tab, form feed and carriage return). Go's `strings.TrimSpace` also trims the other Unicode white-space characters.
- Strings are sequences of characters. Go indexes the bytes of a UTF-8 string. This makes no difference for the ASCII characters `[`, `]`, `=`, `\` and the comment prefixes that the reader tests.
- The store is not safe for concurrent use in Go, and the model does not consider concurrency.
