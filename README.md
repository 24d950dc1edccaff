# JComicUtils core, modelled in Dafny

JComicUtils is a command-line tool that tidies comic collections. This project models the
logic the tool's commands share and proves properties of it. The I/O around that logic
stays abstract.

- **`NameConverter`** (`name_converter.dfy`): the normaliser of comic names. It splits off
  and lower-cases the extension. It removes `[...]` and `(...)` annotations. It collapses
  white space, treats dots as separators and capitalises each word. Finally it applies
  the numbering rule: a trailing `n de m` / `n of m`, or a trailing number whose `#` is
  dropped, with `- ` put in front.
- **`Validation`** (`repeated_names_validator.dfy`): the `RepeatedNamesValidator` class and
  the decision it takes. A batch is refused when two files normalise to the same name.
- **`FileTree`** (`file_tree.dfy`): directory trees, paths, and the breadth-first work
  queue the packing code drains.
- **`CompressionService`** (`compression_service.dfy`): what goes into a `.cbz`. This
  covers the extension exclusions, the garbage collector, the search for a single image
  directory to pack from, the archive entries, and the order of the steps of
  `compressComic` (check, plan, write, remove).
- **`GenericFileListOperation`** (`generic_file_list_operation.dfy`): the batch engine. It
  checks the working directory, selects the entries and runs the validator gate. It then
  runs the processor once per entry, collects the failures and builds the report.
- **`PdfService`** (`pdf_service.dfy`): page-file naming. It covers the `Counter`, the
  temporary names `image_<n>.<format>`, `extractIndex` and the zero-padded final names.
- **`Text`** (`text.dfy`): the Java string and character operations the others rely on.
  These are `trim`, `\s`, `\d`, `toLowerCase` on ASCII letters and U+00C0 to U+00FE, `lastIndexOf`,
  `String.join` and decimal numerals.

Every regular expression of the source is written out as a function over `string`.
Each Java `assert` used as a precondition becomes a checked error result, which is what
the tests rely on. Java's 32-bit `int` is written out where it matters:
`Counter.postIncrease` wraps, and `Integer.parseInt` rejects a value above 2147483647.

Two points where the code differs from what its documentation says; the model follows
the code:

- Normalising is not idempotent. `X ##12` becomes `X #12`, and normalising that again
  gives `X - 12` (`NameConverter.NormalizeNotIdempotent`).
- No directory is excluded by name. A `__MACOSX` directory gets no special treatment.
  Only its files are judged, by extension and garbage pattern, like any other file. A
  directory never becomes an archive entry, so an empty `__MACOSX` leaves no trace.

## Model

| member | source | states |
|---|---|---|
| NameConverter.NormalizeSplitsBack | src/main/java/comics/logic/NameConverter.java:31-36 | splitting a normalised name again gives back the rewritten base and the same extension, so the extension survives normalisation |
| NameConverter.ExtensionOf | src/main/java/comics/logic/NameConverter.java:32-35 | a name with a dot gets as extension a dot plus the trimmed, lower-cased text after the last dot; that text has no dot and no trimmable end |
| NameConverter.RemoveGroupsLeavesNone | src/main/java/comics/logic/NameConverter.java:38 | after removing annotations no complete bracketed group is left |
| NameConverter.RemoveGroupsCutsGroup | src/main/java/comics/logic/NameConverter.java:38 | a group is cut from its opening bracket to the first closing bracket, even when it holds another opening bracket as in `[TM[Whatever Comics]` |
| NameConverter.RemoveGroupsFixpoint | src/main/java/comics/logic/NameConverter.java:38 | annotation removal leaves a string unchanged exactly when it holds no complete group |
| NameConverter.CollapseSpacesFixpoint | src/main/java/comics/logic/NameConverter.java:40 | collapsing white space leaves a string unchanged exactly when no two white-space characters are adjacent |
| NameConverter.CollapseKeepsTokens | src/main/java/comics/logic/NameConverter.java:40-43 | collapsing white space does not change the words the later split finds |
| NameConverter.CaseWordsCanonical | src/main/java/comics/logic/NameConverter.java:42-46 | the case step yields words separated by single spaces, with no dot and nothing trimmable at either end |
| NameConverter.CaseWordsTitle | src/main/java/comics/logic/NameConverter.java:42-46 | after the case step each word starts with a character that is not a lower-case letter and has no upper-case letter after it |
| NameConverter.CaseWordsFixpoint | src/main/java/comics/logic/NameConverter.java:42-46 | the case step leaves a singly spaced, title-cased string as it is |
| NameConverter.RewriteBaseCanonical | src/main/java/comics/logic/NameConverter.java:38-65 | every rewritten base is singly spaced, has no dot and has no trimmable end |
| NameConverter.NumberingNoNumber | src/main/java/comics/logic/NameConverter.java:57-65 | a base that does not end in a digit gets no numbering change |
| NameConverter.NumberingNumber | src/main/java/comics/logic/NameConverter.java:57-65 | a trailing number that is not part of `n De m` keeps its digits and gets `- ` before it when a space not preceded by `-` comes before it |
| NameConverter.NumberingNumberSign | src/main/java/comics/logic/NameConverter.java:59-64 | a `#` directly before the trailing number is dropped, and the hyphen rule then applies |
| NameConverter.NumberingCollection | src/main/java/comics/logic/NameConverter.java:49-56 | a trailing `n De m` or `n Of m` gets a lower-case `de` or `of`, and the hyphen rule applies before `n` |
| NameConverter.NumberingDe | src/main/java/comics/logic/NameConverter.java:52 | the `de` case of the collection rule |
| NameConverter.NumberingOf | src/main/java/comics/logic/NameConverter.java:53 | the `of` case of the collection rule |
| NameConverter.NormalizeTitled | src/main/java/comics/logic/NameConverter.java:29-68 | a name that is already singly spaced and title-cased, without dots or brackets, is changed only by the numbering rule |
| NameConverter.NumberSignTwice | src/main/java/comics/logic/NameConverter.java:59-64 | of two `#` before a trailing number only one is dropped, and no hyphen goes in |
| NameConverter.NormalizeNotIdempotent | src/main/java/comics/logic/NameConverter.java:29-68 | normalising `pre ##n` gives `pre #n`, and normalising that gives `pre - n`: normalising twice is not normalising once |
| NameConverter.AnnotationIgnored | src/test/java/comics/logic/TestFilenameValidator.java:34-42 | `f [g]` normalises to the same name as `f` |
| Validation.Frequency | src/main/java/comics/logic/RepeatedNamesValidator.java:32 | the frequency of a name is its multiplicity in the list |
| Validation.RepeatedAt | src/main/java/comics/logic/RepeatedNamesValidator.java:31-33 | a name is in the repeated set exactly when it stands at two different positions |
| Validation.RepeatedEmpty | src/main/java/comics/logic/RepeatedNamesValidator.java:34 | no name is repeated exactly when all names are different |
| Validation.Decide | src/main/java/comics/logic/RepeatedNamesValidator.java:31-41 | the batch is accepted exactly when the normalised names are pairwise distinct; a conflict reports exactly the names found at two positions, each once |
| Validation.ConflictMessageNames | src/main/java/comics/logic/RepeatedNamesValidator.java:31-40 | the message of a conflict starts with the header and lists a non-empty set of names, each once, that are exactly the normalised names found at two positions of the files read |
| Validation.Enumerable | src/main/java/comics/logic/RepeatedNamesValidator.java:38 | every set of repeated names can be listed, each name once, so a conflict always has a message |
| Validation.CheckOrderFree | src/main/java/comics/logic/RepeatedNamesValidator.java:26-33 | the verdict does not depend on the order in which the files were read |
| Validation.DecideOrderFree | src/main/java/comics/logic/RepeatedNamesValidator.java:31-33 | the decision depends only on how often each normalised name occurs |
| Validation.MapPermutes | src/main/java/comics/logic/RepeatedNamesValidator.java:28-30 | normalising a reordering of the names gives a reordering of the normalised names |
| Validation.AnnotatedCopyConflicts | src/test/java/comics/logic/TestFilenameValidator.java:30-44 | `f` and `f [g]` conflict, on their common normalised name alone |
| Validation.RepeatedNamesValidator.constructor | src/main/java/comics/logic/RepeatedNamesValidator.java:16-18 | a new validator holds no files |
| Validation.RepeatedNamesValidator.ReadFile | src/main/java/comics/logic/RepeatedNamesValidator.java:20-23 | the file goes at the end of the list and nothing else changes |
| Validation.RepeatedNamesValidator.Validate | src/main/java/comics/logic/RepeatedNamesValidator.java:26-42 | the validator accepts exactly when the files read so far normalise to pairwise distinct names; it changes nothing |
| FileTree.WalkAllMember | src/main/java/comics/logic/CompressionService.java:109-110 | the files found below a listing are the files found below its entries |
| FileTree.WalkBelow | src/main/java/comics/logic/CompressionService.java:108-114 | every file found below a directory lies strictly under its path, so it has a path relative to it |
| FileTree.DirItemsMember | src/main/java/comics/logic/CompressionService.java:167 | the queued sub-directories of a listing hold exactly the files below them |
| FileTree.QueueStepDir | src/main/java/comics/logic/CompressionService.java:164-177 | taking a directory off the queue and queueing its sub-directories trades it for its plain entries, and lightens the queue |
| FileTree.QueueStepFile | src/main/java/comics/logic/CompressionService.java:165-166 | a queued entry that is not a directory is passed over by `collectGarbage` and, being no directory, has no file below it to lose |
| CompressionService.IsExcluded | src/main/java/comics/logic/CompressionService.java:183-190 | a file is excluded exactly when its lower-cased name ends in a dot and one of the lower-cased extensions; a missing array excludes nothing |
| CompressionService.DefaultExclusionIgnoresCase | src/main/java/comics/logic/CompressionService.java:25 | `x.TXT` and `x.txt` are both excluded by the default exclusions |
| CompressionService.IsGarbage | src/main/java/comics/logic/CompressionService.java:168-176 | a plain file is garbage exactly when it is not excluded and its lower-cased name fully matches one of the five patterns |
| CompressionService.ZNamesAreGarbage | src/main/java/comics/logic/CompressionService.java:27 | a kept name of two or more characters starting with `z` or `Z` is garbage |
| CompressionService.InfixNamesAreGarbage | src/main/java/comics/logic/CompressionService.java:28-31 | a kept name holding `nerd`, `colab`, `collab` or `flyer`, in any case, strictly inside it is garbage |
| CompressionService.GarbageOfListing | src/main/java/comics/logic/CompressionService.java:168-176 | the garbage found in one listing is exactly its plain entries that are garbage |
| CompressionService.CollectGarbage | src/main/java/comics/logic/CompressionService.java:158-181 | the collected list holds exactly the garbage files anywhere below the directory |
| CompressionService.GroupListing | src/main/java/comics/logic/CompressionService.java:143-151 | scanning one listing queues its sub-directories and adds its directory to the image map exactly when it holds a kept file |
| CompressionService.SearchForTrivialNestingCase | src/main/java/comics/logic/CompressionService.java:136-156 | the search returns the single directory that holds kept files, or the packed directory when there are none or several |
| CompressionService.SourceIsTheSingleParent | src/main/java/comics/logic/CompressionService.java:154-155 | with exactly one image directory the source is that directory; otherwise it is the packed directory itself |
| CompressionService.EntriesMember | src/main/java/comics/logic/CompressionService.java:108-114 | an entry, placed under the source, is a file found by the walk that is under the source, not excluded and not garbage, and each such file is an entry |
| CompressionService.CompressDirectory | src/main/java/comics/logic/CompressionService.java:98-132 | the entries written are the kept files under the source, in walk order, named relative to the source |
| CompressionService.NestingLosesNothing | src/main/java/comics/logic/CompressionService.java:88-91 | packing from the chosen source loses no kept file and adds none |
| CompressionService.PackedFromSource | src/main/java/comics/logic/CompressionService.java:136-156 | every kept file lies strictly under the chosen source |
| CompressionService.NestedArchiveIsFlat | src/test/java/comics/logic/TestPack.java:274-304 | when one directory holds every kept file, every entry is a bare file name |
| CompressionService.CompressComic | src/main/java/comics/logic/CompressionService.java:71-96 | a null, missing, symbolic-link or non-directory target fails with no effect; a directory is packed into `normalizeFileName(name + ".cbz")` |
| CompressionService.Packing | src/main/java/comics/logic/CompressionService.java:91-95 | the directory is removed only after the archive was written and without failure; the call fails exactly when writing or removing fails |
| CompressionService.PackDirectory | src/main/java/comics/logic/CompressionService.java:87-94 | with the collector off nothing is garbage; the archive, possibly empty, gets the planned entries, then the directory is removed |
| GenericFileListOperation.Filter | src/main/java/comics/commands/GenericFileListOperation.java:51 | the selected entries are exactly the children the selector accepts, never more than the children, and distinct when the children are |
| GenericFileListOperation.FilterConcat | src/main/java/comics/commands/GenericFileListOperation.java:51 | filtering a concatenation is filtering each part, in the same order, so the accepted children keep their listing order |
| GenericFileListOperation.Execute | src/main/java/comics/commands/GenericFileListOperation.java:40-93 | the outcome is `Run` of the call: a stop on a bad working directory or on the validator's conflict, otherwise every entry processed with its failure tabled; the return value is -1 for a stop and 0 otherwise; a given validator has read every entry after the files it already held |
| GenericFileListOperation.ReadAll | src/main/java/comics/commands/GenericFileListOperation.java:53 | the validator's list grows by the entries, in order, and nothing else changes |
| GenericFileListOperation.ProcessAll | src/main/java/comics/commands/GenericFileListOperation.java:56-76 | the processor is called once per entry, in order; the error table, the success count and the report lines are those of the failing and succeeding entries |
| GenericFileListOperation.ExecuteUnvalidated | src/main/java/comics/commands/GenericFileListOperation.java:33-38 | the two-argument `execute` is `execute` without a validator |
| GenericFileListOperation.StopsExactlyWhen | src/main/java/comics/commands/GenericFileListOperation.java:47-55 | a run stops before any processing, and `execute` returns -1, exactly when the working directory is null or not a directory or the validator finds two names that normalise alike; otherwise it returns 0 |
| GenericFileListOperation.EntriesAreSelectedChildren | src/main/java/comics/commands/GenericFileListOperation.java:51 | the entries are the accepted children, and none for a null listing |
| GenericFileListOperation.FailuresAreFailingEntries | src/main/java/comics/commands/GenericFileListOperation.java:71-73 | the error table holds exactly the entries whose processing threw, each with its own exception's message |
| GenericFileListOperation.SuccessesAndFailuresAddUp | src/main/java/comics/commands/GenericFileListOperation.java:57-73 | for distinct entries the successes and the failures add up to the entries |
| GenericFileListOperation.FailureLinesMember | src/main/java/comics/commands/GenericFileListOperation.java:83-85 | a report line names a failing entry and its message, and each failing entry has one |
| GenericFileListOperation.CompletedRunSummary | src/main/java/comics/commands/GenericFileListOperation.java:77-92 | a completed run returns 0 whatever failed, prints a report exactly when some entry failed, and counts entries less failures as successes |
| GenericFileListOperation.ReportLines | src/main/java/comics/commands/GenericFileListOperation.java:78-87 | the report has one `<name> - <message>` line per entry of the error table |
| PdfService.IntIncrement | src/main/java/comics/logic/PdfService.java:47 | `counter++` on a Java `int`: one more, wrapping from the largest value to the smallest |
| PdfService.Counter.constructor | src/main/java/comics/logic/PdfService.java:44 | a new counter starts at 1 |
| PdfService.Counter.PostIncrease | src/main/java/comics/logic/PdfService.java:46-48 | returns the current value and raises the field by one, keeping it a Java `int` |
| PdfService.CalculateTemporalFilename | src/main/java/comics/logic/PdfService.java:109-111 | the name is `image_<n>.<format>` with `n` the counter's value, unpadded, and the counter moves on by one |
| PdfService.TemporalNames | src/test/java/comics/logic/TestPdf.java:28-41 | one fresh counter names the images `image_1`, `image_2`, and so on |
| PdfService.DigitsFrom | src/main/java/comics/logic/PdfService.java:53 | the run of digits `\d+` takes at a position is the longest one |
| PdfService.FirstMatch | src/main/java/comics/logic/PdfService.java:54 | `find` reports the leftmost position where `image_<digits>.<format>` matches, or that none does |
| PdfService.ExtractIndex | src/main/java/comics/logic/PdfService.java:51-58 | -1 exactly when nothing matches; otherwise the value of the digits of the leftmost match, and the parse error exactly when that value exceeds an `int` |
| PdfService.TemporalNameRoundTrip | src/main/java/comics/logic/PdfService.java:51-58 | the index read back from a temporary name is the number it was built of |
| PdfService.PaddedField | src/main/java/comics/logic/PdfService.java:104-107 | for `0 <= i <= total`, `i` is padded to exactly the width of `total`, with digits that read back as `i` |
| PdfService.FileNameRoundTrip | src/main/java/comics/logic/PdfService.java:104-107 | the index read back from a final name is the page number |
| PdfService.FewImagesKeepTheirNames | src/main/java/comics/logic/PdfService.java:104-107 | with fewer than ten images the final name of a page is its temporary name |

## Left out

- I/O is not modelled: the zip stream, CRC32, `Files.copy`, PDFBox and ImageIO. Writing the archive is an effect listing its entries, and the per-file read and write errors that `compressDirectory` logs and swallows are not represented.
- `decompressComic`, the backup store, the 7-Zip wrappers and the rest of `convertPDF` are outside this model: they are calls into codecs, processes and the clock.
- Concurrency is not modelled. The `ForkJoinPool`, the parallel stream and the progress bar are replaced by a sequential loop, since each entry is processed independently.
- Hash orders are not modelled. The validator's conflict message lists the repeated names in an order the hash set does not fix, which `Validation.Enumerates` allows in any order. The batch report lists failures in entry order, while the `Hashtable` gives an unspecified order. The image map's values in the nesting search are not kept, only its keys.
- The order of `Files.walk` is taken to be pre-order in listing order, and `listFiles` order to be the order of a directory's children.
- Symbolic links inside the packed tree are treated as ordinary files or directories. Only the target of `compressComic` is checked for being a link.
- File identity is by path from the packed directory; the parent directory of the target, where the archive goes, is not modelled, only the archive's name.
- `CompressionService.Packing`: when writing fails part-way, the partial archive left behind is not modelled, nor is a partial removal of the directory when removal fails.
- `GenericFileListOperation.Execute`: a processor that throws an `Error` rather than an `Exception`, which would escape the loop and end the run with -1, is not modelled. The text printed on the error stream when a run stops is not modelled either.
- `PdfService.ExtractIndex`: the format is inserted into the regular expression unescaped; the model reads it literally, which agrees with the source for formats without regex metacharacters such as `jpg` or `png`.
- `$` in the numbering patterns is taken as the end of the input. Java also lets it match before a final line terminator.
- Case mapping covers ASCII and U+00C0 to U+00FE only. `ÿ` (U+00FF) and `µ` (U+00B5), whose title case lies outside Latin-1, keep their case, as does every character past U+00FF, so the Unicode tables and the locale of Java's `toLowerCase` are not modelled.
- `NameConverter.CaseWordsTitle` assumes that the only characters up to U+0020 in its input are white space. The title-case property is not proved for other control characters.
- The concrete names of the validator test (`dir1`, `dir2`, `dir 3` do not collide) are not evaluated. The general conflict lemma `Validation.AnnotatedCopyConflicts` covers the colliding pair.
- `GenericFileListOperation.Execute` takes a `RepeatedNamesValidator` or none, not any `FileValidator`: it is the only implementation of that interface in the code, and the model has no interfaces.
- `Utils.removeDirectory`, `Utils.commonChecks`, the command classes and the CLI wiring are not part of this model.
