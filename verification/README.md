# dtrx decision layer in Dafny

dtrx ("do the right extraction") is a command-line program that extracts
archives of many formats. It picks an extraction tool and names the
output. It also places the result so that an archive never scatters files
into the current directory.

This project models the decisions dtrx makes, as pure Dafny functions over
strings, small enumerations and finite sequences:

- which archive formats to try for a file, and in what order;
- what to call the output;
- how to classify what an extraction produced;
- where to put it, and under which collision-free name;
- when an exit status counts as a failure;
- how the one-entry and recursion questions are asked and answered;
- how the listing tools' output is parsed into member names;
- how the main loop tries extractors and queues nested archives.

The subprocesses, the file system and Python's `mimetypes` tables are
parameters of the model.

| file | module | what it holds |
|---|---|---|
| wrappers.dfy | Wrappers | `Option` and `Result` |
| strings.dfy | Strings | the Python string operations the program uses (`split`, `join`, `strip`, `rfind`, …) on ASCII |
| formats.dfy | Formats | archive kinds, encodings, extractor classes, decoders, and the MIME, extension and magic tables |
| classifier.dfy | Classifier | the mimetype → extension → magic candidate cascade, with de-duplication |
| naming.dfy | Naming | `basename()` of every class, and the argv of the no-pipe tools with `{OUTPUT_FILE}` filled in |
| pipeline.dfy | Pipeline | exit-status evaluation, the stages each class runs, and the Debian data member |
| contents.dfy | Contents | `check_contents`, the package overrides, and nested-archive discovery |
| placement.dfy | Placement | the collision-safe name checker, the handler table, and the match and flat destinations |
| policy.dfy | Policy | `ask_question`, the one-entry and recursion policies, and `wrap` |
| listing.dfy | Listing | the `get_filenames` parsers of the LZH, 7z, CAB, InstallShield, RAR, unar and ARJ tools |
| orchestrator.dfy | Orchestrator | `extract` cleanup, `try_extractors`, `recurse` and `run` |

## Model

| member | source | states |
|---|---|---|
| Formats.KindNameRoundTrip | dtrx/dtrx.py:1224-1328 | every archive kind's table key parses back to that kind |
| Formats.EncodingNameRoundTrip | dtrx/dtrx.py:208-217 | every encoding's name parses back to that encoding |
| Formats.BuildVariants | dtrx/dtrx.py:1377-1384 | one or two classes per kind; the metadata classes are chosen exactly when metadata is requested and the kind has a metadata entry (deb, gem) |
| Formats.Decoder | dtrx/dtrx.py:208-236 | `lrz` and `lrzip` decode with whatever the shared table holds for them, which is nothing until an lrzip extractor has been built; the `lz` name never decodes; every other encoding has a fixed command that is not `lrzcat` |
| Formats.TableAfter | dtrx/dtrx.py:220-233 | building a piped class with an lrzip encoding registers `lrzcat -Q` or `lrzcat -q` by the probe; any other construction leaves the table as it was |
| Formats.RegisteredDecodes | dtrx/dtrx.py:220-236 | after an lrzip extractor is built, both lrzip names decode with the registered command |
| Formats.TarMime | dtrx/dtrx.py:1224-1336 | `application/x-tar` maps to the tar kind |
| Formats.Construct | dtrx/dtrx.py:220-236 | the encoding check fails exactly for a piped class given the unknown `lz` encoding, with "unrecognized encoding lz"; no-pipe classes drop the encoding |
| Formats.LastMimeHit | dtrx/dtrx.py:1332-1336 | the MIME map yields a kind iff some table entry has that MIME type, and the kind is one such entry's |
| Formats.CabMimeBelongsToShield | dtrx/dtrx.py:1274-1296 | `application/x-cab` maps to InstallShield, because that kind's entry is written to the map after the cabinet kind's |
| Formats.ExtLookup | dtrx/dtrx.py:1339-1358 | the extension map lists exactly the candidates registered for a key, in registration order |
| Formats.ExtLookupAppend | dtrx/dtrx.py:1339-1358 | the lookup of a concatenated table is the concatenation of the lookups |
| Formats.TarLzLookupAsWritten | dtrx/dtrx.py:1347 | in the table as written, `tar.lz` proposes tar with the encoding `lz` first |
| Formats.TarLzLookup | dtrx/dtrx.py:1347 | in the corrected table, `tar.lz` proposes tar with lzip first |
| Formats.TarGzLookup | dtrx/dtrx.py:1344 | `tar.gz` proposes tar with gzip first |
| Formats.CabLookup | dtrx/dtrx.py:1274-1296 | `cab` proposes the cabinet kind first and the InstallShield kind second |
| Classifier.TryByMimetype | dtrx/dtrx.py:1405-1412 | at most one candidate: the mapped kind with the guessed encoding; otherwise a compressed-file candidate when only an encoding is known; otherwise none |
| Classifier.TryByExtensionWith | dtrx/dtrx.py:1446-1454 | a dotless name has no candidates, and every candidate's key is a suffix of the name |
| Classifier.TryByExtensionKeys | dtrx/dtrx.py:1446-1454 | for a name with two or more dots, the result is the two-piece key's lookup followed by the last piece's lookup |
| Classifier.TryByExtensionTwoPieces | dtrx/dtrx.py:1446-1454 | for a name with one dot, the whole name is tried as a key before the extension |
| Classifier.StripFilePrefix | dtrx/dtrx.py:1434-1435 | the `"<file>: "` prefix is removed exactly when present |
| Classifier.MagicKindsOf | dtrx/dtrx.py:1337-1338 | exactly the kinds whose magic pattern matches the output |
| Classifier.MagicEncodingsOf | dtrx/dtrx.py:1360-1371 | exactly the encodings whose text occurs in the output |
| Classifier.Product | dtrx/dtrx.py:1442 | the kind × encoding product contains exactly the pairs of the two lists |
| Classifier.TryByMagic | dtrx/dtrx.py:1421-1442 | no output gives no candidates; kinds alone are paired with no encoding; encodings alone are paired with the compressed-file kind; otherwise the full product |
| Classifier.Dedup | dtrx/dtrx.py:1387-1403 | the result has no duplicates and holds exactly the candidates not already tried |
| Classifier.DedupFirstOccurrenceOrder | dtrx/dtrx.py:1397-1403 | kept candidates come in the order of their first occurrences; with Dedup's clauses this makes the result the subsequence of first untried occurrences |
| Classifier.DedupAppend | dtrx/dtrx.py:1387-1403 | de-duplicating two lists in turn equals de-duplicating the second against everything in the first |
| Classifier.Candidates | dtrx/dtrx.py:1386-1403 | for a given extension table, the cascade yields each candidate of the three tiers exactly once and nothing else; over the as-written table it is the cascade as written |
| Classifier.CandidatesTierOrder | dtrx/dtrx.py:1386-1403 | the mimetype tier comes first, then the new extension candidates, then the new magic candidates |
| Classifier.Plan | dtrx/dtrx.py:1377-1403 | every attempt pairs a candidate with one of its kind's classes; every such pair is attempted; the first attempt is the first candidate's first class |
| Classifier.PlanOne | dtrx/dtrx.py:1377-1384 | one candidate gives one attempt per class of its kind, in class-table order |
| Classifier.PlanAppend | dtrx/dtrx.py:1397-1403 | the attempts of two candidate lists are those of the first list followed by those of the second |
| Classifier.TarGzByExtension | dtrx/dtrx.py:1446-1454 | `project.tar.gz` tries tar+gzip first and also proposes the gzip stream |
| Classifier.CabByExtension | dtrx/dtrx.py:1446-1454 | `setup.cab` tries the cabinet kind first and also proposes InstallShield |
| Classifier.DotlessHasNoExtensionCandidates | dtrx/dtrx.py:1447-1450 | a name without a dot has no extension candidates |
| Classifier.TarLzRowAsWritten | dtrx/dtrx.py:1347 | the row as written proposes tar with `lz` first, and that extractor cannot be constructed |
| Classifier.EncodedEntriesConstructible | dtrx/dtrx.py:1342-1358 | with the corrected row, every encoded extension entry can be built by every class of its kind |
| Classifier.TarLzRow | dtrx/dtrx.py:1347 | the corrected row proposes tar with lzip first, and that extractor can be constructed |
| Classifier.TarLzAfterMimeTier | dtrx/dtrx.py:1347 | the cascade over the as-written table, for `x.tar.lz` with a MIME guess of tar with lzip, tries that pair first and still yields the tar with `lz` pair later |
| Naming.PathBase | dtrx/dtrx.py:368 | `os.path.basename`: the part after the last slash, with no slash in it |
| Naming.BaseKept | dtrx/dtrx.py:367-390 | the base rule keeps all pieces, or drops one or two; a trailing encoding suffix is always dropped when there is more than one piece |
| Naming.BaseKeptAgrees | dtrx/dtrx.py:367-390 | wherever the code as written does not crash, it keeps the same pieces as the corrected rule |
| Naming.JoinFirst | dtrx/dtrx.py:390 | joining the kept pieces gives a prefix of the name whose pieces are exactly the kept ones |
| Naming.BaseBasename | dtrx/dtrx.py:367-390 | the base name is the dot-join of a prefix of the name's pieces, at most two shorter |
| Naming.BaseBasenameAsWritten | dtrx/dtrx.py:367-390 | the code as written fails exactly for a dotless name that is itself an encoding suffix, and otherwise agrees with the corrected rule |
| Naming.BareEncodingNameCrashes | dtrx/dtrx.py:379-381 | for a file named `gz` the code as written fails, and the corrected rule keeps the name |
| Naming.CompressionBasename | dtrx/dtrx.py:468-473 | only a trailing encoding suffix is removed |
| Naming.RpmBasename | dtrx/dtrx.py:533-544 | a dotless name is kept; a name not ending in `rpm` uses the base rule; otherwise the name is the result followed by `.rpm`, with one further dotted piece in between when that piece is shorter than 8 characters |
| Naming.DebBasename | dtrx/dtrx.py:574-581 | a name without `_` is kept; the last `_` piece is removed when it ends in `.deb` and has at most 10 characters; otherwise the base rule is used |
| Naming.ShieldBasename | dtrx/dtrx.py:820-824 | the base name loses a trailing `.hdr` |
| Naming.GemMetadataBasename | dtrx/dtrx.py:615-616 | the name followed by `-metadata.txt` |
| Naming.TarGzBasename | dtrx/dtrx.py:367-390 | `stem.tar.gz` becomes `stem` |
| Naming.TxtGzBasename | dtrx/dtrx.py:468-473 | the compressed-file rule turns `stem.txt.gz` into `stem.txt` |
| Naming.RpmArchBasename | dtrx/dtrx.py:533-544 | `name.release.x86_64.rpm` becomes `name.release` |
| Naming.DebArchBasename | dtrx/dtrx.py:574-581 | `pkg_version_amd64.deb` becomes `pkg_version` |
| Naming.SplitExtRoot | dtrx/dtrx.py:640 | `os.path.splitext(...)[0]`: a prefix of the name, cut at the last dot when that dot is not part of a leading run of dots |
| Naming.Format | dtrx/dtrx.py:642-644 | `str.format` leaves a brace-free argument unchanged |
| Naming.FormatEscaped | dtrx/dtrx.py:642-644 | formatting a brace-escaped string gives the string back |
| Naming.PasswordArg | dtrx/dtrx.py:833-840 | no password argument without a non-empty password; the argument ends with the password |
| Naming.FormatAll | dtrx/dtrx.py:642-644 | formatting a list succeeds iff every element formats, and element by element |
| Naming.ExtractArgvAsWritten | dtrx/dtrx.py:636-651 | when it succeeds, the argv is the tool's arguments, the password argument and the archive path, in that order, each of the first two formatted with the archive's root name |
| Naming.ExtractArgv | dtrx/dtrx.py:636-651 | the argv is the template with `{OUTPUT_FILE}` filled by the archive's root name, then the password argument unchanged, then the archive path |
| Naming.ExtractArgvAgrees | dtrx/dtrx.py:636-651 | wherever the code as written succeeds, it gives the corrected argv |
| Naming.BracedPasswordCrashes | dtrx/dtrx.py:642-644 | a zip password `{x}` makes the code as written fail; the corrected argv passes `-P {x}` |
| Naming.DoubledBracePasswordAltered | dtrx/dtrx.py:642-644 | the code as written turns a 7z password `a{{b` into `a{b` |
| Naming.DoubledBracePasswordKept | dtrx/dtrx.py:642-644 | the corrected argv passes `-pa{{b` unchanged |
| Pipeline.FirstBadExitCode | dtrx/dtrx.py:395-399 | none iff every code is at most 0; otherwise the first index with a positive code |
| Pipeline.DecimalRoundTrip | dtrx/dtrx.py:411-413 | the decimal rendering of a status reads back as the status |
| Pipeline.CheckSuccess | dtrx/dtrx.py:392-414 | success when every code is at most 0. A bad code without files fails. With files, only zip and LZH fail, and only when the first bad code is above 1. Any failure names the stage of the first bad code |
| Pipeline.ZipWarningPasses | dtrx/dtrx.py:668-669 | zip status 1 with files passes; status 2 fails; tar passes with files and fails without |
| Pipeline.DebDataMember | dtrx/dtrx.py:553-562 | the first member matching `data.tar.<ext>`, or none iff no member matches |
| Pipeline.DebPrepare | dtrx/dtrx.py:555-572 | fails iff there is no data member, the member's encoding is unknown, or the shared table has no decoder for it (an lrzip member before any lrzip extractor was built is the KeyError); otherwise `ar p` of the member, then its decoder |
| Pipeline.PrepareStages | dtrx/dtrx.py:530-613 | RPM adds the one stage `rpm2cpio -`; Debian metadata adds `ar p <path> control.tar.gz`, the gem adds `tar -xO data.tar.gz` and gem metadata `tar -xO metadata.gz`, each followed by `zcat`; Debian is its data-member preparation, errors included; only Debian can fail; other classes add nothing |
| Pipeline.ConstructWellFormed | dtrx/dtrx.py:220-236 | every constructed extractor's encoding is decodable with the table as its constructor leaves it, and a no-pipe class has no encoding |
| Pipeline.ExtractionStages | dtrx/dtrx.py:220-258 | no-pipe classes run their argv alone; otherwise the stages are the decoder for the encoding, then exactly the class's preparation stages, then the class's extraction command when it has one (`tar -x` or the cpio line), and compressed-file classes end without one; it fails exactly when Debian preparation fails |
| Pipeline.TarGzStages | dtrx/dtrx.py:208-217 | a gzip tar runs `zcat`, then `tar -x` |
| Pipeline.DebStages | dtrx/dtrx.py:551-572 | a package with members `debian-binary`, `control.tar.gz`, `data.tar.xz` runs `ar p` of `data.tar.xz`, then `xzcat`, then `tar -x` |
| Contents.CheckContents | dtrx/dtrx.py:350-365 | no entries is empty; two or more is a bomb; one entry matches iff it is named like the archive, and is otherwise a one-entry file or directory by kind; the content name gains a slash iff it is a directory |
| Contents.ContentNameRoundTrip | dtrx/dtrx.py:360-362 | stripping the trailing slash from a content name gives the entry's name back |
| Contents.ContentsAfterExtract | dtrx/dtrx.py:488-605 | compressed files are one known entry named by the base name; RPM, Debian and gem packages are always bombs; other classes use the base rule |
| Contents.PackagesAlwaysGetFiles | dtrx/dtrx.py:546-548 | a package extraction always counts as having produced files |
| Contents.IncludedRoot | dtrx/dtrx.py:336-339 | the single content directory when there is one, `./` otherwise |
| Contents.JoinPath | dtrx/dtrx.py:348 | `os.path.join(dir, f)` ends with `f` and starts with a non-empty `dir` |
| Contents.ArchivesIn | dtrx/dtrx.py:344-348 | the paths of exactly the files that look like archives |
| Contents.IncludedArchives | dtrx/dtrx.py:340-348 | no more archives than files walked; nothing found in a walk without files |
| Contents.IncludedArchivesFound | dtrx/dtrx.py:340-348 | a path is recorded iff some walked file that looks like an archive has that path |
| Contents.IncludedArchivesAppend | dtrx/dtrx.py:340-348 | walking two listings in turn adds the counts and concatenates the archives |
| Placement.NameChecker | dtrx/dtrx.py:464-466 | the file checker exactly for the compressed-file classes |
| Placement.FreshName | dtrx/dtrx.py:141-160 | a name not taken, starting with the original name and a dot |
| Placement.Check | dtrx/dtrx.py:130-151 | the name returned was free and is now reserved; it is the original name when that is free, otherwise the first free `.1`…`.9` probe, otherwise a fresh name |
| Placement.SecondSuffix | dtrx/dtrx.py:148 | the probe after `name.1` is `name.2` |
| Placement.SelectHandler | dtrx/dtrx.py:1487-1494 | the first handler, in the order flat, overwrite, match, empty, bomb, whose `can_handle` holds; there is always one |
| Placement.HandlerExamples | dtrx/dtrx.py:962-1044 | a matching directory goes to match, or to flat with overwrite; one known entry with flat goes to overwrite; empty goes to empty; a one-entry file goes to match only when the policy allows it |
| Placement.TableAgrees | dtrx/dtrx.py:951-957 | the handler each content type and option selects puts the output where the placement table says |
| Placement.GetHandler | dtrx/dtrx.py:1487-1494 | the one-entry policy is consulted only for one-entry-unknown contents, and the handler is the one its answer selects |
| Placement.BatchWrapsOneEntry | dtrx/dtrx.py:1069-1072 | in batch mode a one-entry archive is wrapped, without asking |
| Placement.MatchDestination | dtrx/dtrx.py:1014-1017 | extracting here uses the content name without its slash; otherwise the base name |
| Placement.MatchingGoesToBasename | dtrx/dtrx.py:1014-1017 | a matching entry goes to the base name whatever the policy |
| Placement.HereKeepsEntryName | dtrx/dtrx.py:1014-1015 | extracting a single entry here puts it under the entry's own name, whether it is a directory or a file |
| Placement.JoinPartsPlain | dtrx/dtrx.py:975 | `os.path.join` of plain components is their join with `/` |
| Placement.FlatRewrite | dtrx/dtrx.py:969-975 | a rewrite exists iff the path has at least two components; it joins the components without the scratch one, which is the second after a leading `.` and the first otherwise |
| Placement.FlatRewriteDropsScratch | dtrx/dtrx.py:969-975 | `./T/sub` becomes `./sub`: exactly the scratch component is dropped |
| Policy.Ask | dtrx/dtrx.py:1076-1089 | reads at most the given replies; every reply before the last one read was not an answer; the result is the last reply's answer, or the empty reply's answer at end of input |
| Policy.OneEntryAnswer | dtrx/dtrx.py:1112-1117 | `h`, `i`, `r` and the empty reply are answers, and the empty reply wraps |
| Policy.DefaultChoice | dtrx/dtrx.py:1133-1140 | the default is matched as a prefix of `here`, then `rename`, then `inside` |
| Policy.OneEntryInit | dtrx/dtrx.py:1125-1140 | flat forces here; otherwise the default decides, or batch mode wraps; an unmatched default is an error |
| Policy.OneEntryPrep | dtrx/dtrx.py:1142-1154 | a permanent policy answers without asking; otherwise the replies decide, and the permanent policy is unchanged |
| Policy.OneEntryDefaults | dtrx/dtrx.py:1125-1140 | the empty default means here; batch with `I` means wrap; `x` is an error |
| Policy.BatchNeverAsks | dtrx/dtrx.py:1069-1072 | batch mode reads no reply and wraps |
| Policy.OneEntryReplies | dtrx/dtrx.py:1076-1089 | end of input wraps; an unknown reply is asked again, and `R` renames |
| Policy.RecurseAnswer | dtrx/dtrx.py:1161-1168 | `o`, `a`, `n`, `v`, `l` and the empty reply are answers; the empty reply is not now; `l` lists |
| Policy.RecursionInit | dtrx/dtrx.py:1178-1183 | showing a list never recurses; recursive always recurses; otherwise batch mode means not now |
| Policy.AskUntilNotList | dtrx/dtrx.py:1203-1215 | the choice is never list: it is the answer of the first line that is a known reply other than `l`, which is the last line read, or not now after every line is read when there is none |
| Policy.RecursionPrep | dtrx/dtrx.py:1185-1217 | with a permanent policy, or at most one archive per ten files, no reply is read and the choice is the permanent one or not now; otherwise the choice and the lines read are those of the question loop; always and never become permanent |
| Policy.AlwaysSticks | dtrx/dtrx.py:1187-1217 | once always is chosen, later archives recurse without asking |
| Policy.ListAsksAgain | dtrx/dtrx.py:1187-1215 | `L` then `o` recurses once; `l` then end of input is not now; one archive in ten files asks nothing |
| Policy.PlaceholderAt | dtrx/dtrx.py:1094 | `words.index("%s")`: the first `%s` word |
| Policy.FillAsWritten | dtrx/dtrx.py:1092-1094 | the substitution as written keeps the number of words |
| Policy.PercentNameOverwritten | dtrx/dtrx.py:1092-1094 | as written, an archive named `%s` leaves the content type unfilled: `%s contains one %s` becomes `file contains one %s` |
| Policy.Placeholders | dtrx/dtrx.py:1092-1094 | the positions of exactly the `%s` words, in increasing order |
| Policy.Fill | dtrx/dtrx.py:1092-1094 | the k-th argument goes to the k-th placeholder, every other word is kept, and there are no more arguments than placeholders |
| Policy.FillAgrees | dtrx/dtrx.py:1092-1094 | when no argument is itself `%s`, the substitution as written equals the corrected one, failures included |
| Policy.IncreasingUnique | dtrx/dtrx.py:1092-1094 | two increasing position lists with the same elements are equal, so the placeholders are fixed by their set |
| Policy.PercentNameKept | dtrx/dtrx.py:1092-1094 | the corrected fill gives `%s contains one file` |
| Policy.PackWordKeeps | dtrx/dtrx.py:1096-1101 | adding a word keeps the lines packed and keeps the words in order |
| Policy.PackAllKeeps | dtrx/dtrx.py:1095-1102 | packing the words one at a time keeps them all, in order, in packed lines |
| Policy.Pack | dtrx/dtrx.py:1095-1102 | at least one line; the lines hold exactly the words, in order; a line is only started when joining would exceed the width; the lines are those of packing the words one at a time |
| Policy.WrapQuestion | dtrx/dtrx.py:1091-1102 | no result without words or with too many arguments; otherwise each line is the space-join of one line of the filled words packed to the width, the packed lines obey the width rule, and together they hold the filled words in order |
| Policy.JoinEach | dtrx/dtrx.py:1102 | one joined string per line, each the space-join of that line |
| Policy.JoinLines | dtrx/dtrx.py:1095-1102 | joining the joined lines gives the joined words |
| Listing.MapLinesAppend | dtrx/dtrx.py:731-736 | a line-by-line parser distributes over concatenated listings |
| Listing.MapUntilStops | dtrx/dtrx.py:706-710 | a stopping line ends the listing and nothing after it is read |
| Listing.FirstWhere | dtrx/dtrx.py:791-794 | the first line of a kind, or none iff there is none |
| Listing.SevenField | dtrx/dtrx.py:731-736 | a line has a name iff it has a space; the name is what follows the last space |
| Listing.SevenRoundTrip | dtrx/dtrx.py:731-736 | names without spaces come back from a listing of `columns name` lines |
| Listing.ArjFieldOfLine | dtrx/dtrx.py:895-912 | a `N) name` line gives the name |
| Listing.ArjRoundTrip | dtrx/dtrx.py:895-912 | names not starting with a space come back from their numbered listing |
| Listing.ShieldStopsAtEnd | dtrx/dtrx.py:807-818 | the dashed closing line ends the listing |
| Listing.ShieldFieldOfLine | dtrx/dtrx.py:807-818 | an indented `size name` line gives the name |
| Listing.Find | dtrx/dtrx.py:797 | the first occurrence of the separator at or after a position |
| Listing.CabFieldOfLine | dtrx/dtrx.py:796-797 | a line of size, date and name joined by the bar separator gives the name, whatever the name contains |
| Listing.CabListing | dtrx/dtrx.py:790-800 | a CAB listing gives the fields of the member lines after the border, up to the first line without a third field |
| Listing.RarBodyOfListing | dtrx/dtrx.py:842-855 | alternating name and detail lines give the stripped name lines, up to the border |
| Listing.RarListing | dtrx/dtrx.py:842-855 | a whole RAR listing gives the stripped name lines between the two borders |
| Listing.BorderIndex | dtrx/dtrx.py:689-698 | a column exists iff the line is dashes and spaces with a space; it is the position after the last space |
| Listing.LzhListing | dtrx/dtrx.py:689-711 | an LZH listing gives each member line from the border's column, up to the next border |
| Listing.UnarNames | dtrx/dtrx.py:884-889 | an empty listing is an error; otherwise one name per line after the first |
| Listing.UnarFieldOfLine | dtrx/dtrx.py:884-889 | `name (details)` gives the name back, whatever the name holds, when the details contain no `(` |
| Listing.UnarFieldDropsLast | dtrx/dtrx.py:887-889 | a line without `(` loses its last character |
| Listing.CompressedNames | dtrx/dtrx.py:475-485 | the base name is the one member iff the magic test proposes a compressed-stream candidate; otherwise the error "doesn't look like a compressed file" |
| Listing.CompressionOnlyLists | dtrx/dtrx.py:475-485 | a file that `file` describes by a compression only is listed as its base name |
| Listing.NoMagicNoListing | dtrx/dtrx.py:475-485 | without `file` output the compressed-file lister fails |
| Listing.ListReport | dtrx/dtrx.py:1464-1470 | the list action reports nothing iff the lister succeeded, and otherwise the error's message |
| Orchestrator.Extract | dtrx/dtrx.py:420-441 | a failing `mkdtemp` is reported as `cannot extract here`; otherwise the steps' outcome passes through; an error of the caught kinds restores the working directory and removes the scratch directory; any other exception leaves the scratch directory as working directory |
| Orchestrator.ExtractLeaves | dtrx/dtrx.py:420-441 | for a fresh scratch directory: the old working directory comes back iff no exception escapes, the scratch directory survives iff no caught error happened, no other directory changes, and a caught error rolls the file system back to exactly its earlier state |
| Orchestrator.TableBuilt | dtrx/dtrx.py:220-233 | the shared decoder entry after some attempts is the registered lrzip command iff one of them registered it, and otherwise the entry the search started with |
| Orchestrator.AttemptResult | dtrx/dtrx.py:1787-1789 | an attempt raises exactly when its class rejects the encoding, when the file cannot be opened (OSError for no-pipe classes, "could not open" otherwise), when Debian `prepare` fails, or when the action raises an exception `report` does not catch; otherwise it reports what the action returns |
| Orchestrator.Report | dtrx/dtrx.py:1464-1470 | `report` returns nothing for a step that finished and the message of a caught error, and passes on exactly the exceptions outside `EXTRACTION_ERRORS` |
| Orchestrator.TryFrom | dtrx/dtrx.py:1785-1816 | the same outcomes as the whole search, from a given attempt on; a raised error is the escaping error of an attempt after which every earlier one failed |
| Orchestrator.TryExtractors | dtrx/dtrx.py:1785-1816 | not known iff there is no attempt; success names an attempt whose action returned no error or an empty one after every earlier one failed; all failed records each non-empty error in order |
| Orchestrator.FirstSuccessStops | dtrx/dtrx.py:1796-1805 | attempts after the first success never change the outcome |
| Orchestrator.TarLzRaises | dtrx/dtrx.py:1787-1789 | a `tar.lz` attempt as written ends the search with the constructor's error |
| Orchestrator.UnopenableRaises | dtrx/dtrx.py:251-254 | a file that cannot be opened ends the search at its first constructible candidate with the constructor's error, which nothing catches |
| Orchestrator.DebWithoutDataRaises | dtrx/dtrx.py:555-562 | a Debian package without a data member ends the search with `.deb contains no data.tar file` |
| Orchestrator.DebLrzipRaises | dtrx/dtrx.py:567-572 | a Debian package whose data member is lrzip-compressed, tried before any lrzip extractor was built, ends the search with the decoder table's KeyError |
| Orchestrator.EmptyErrorSucceeds | dtrx/dtrx.py:779-781 | listing a Brotli file ends the search as a success, because its lister's error has no message |
| Orchestrator.EscapeEndsSearch | dtrx/dtrx.py:1785-1790 | an extraction whose steps raise an exception outside `EXTRACTION_ERRORS` ends the search with that exception, whatever attempts follow |
| Orchestrator.CaughtErrorFails | dtrx/dtrx.py:1785-1795 | an extraction whose steps raise a caught error with a message is a failed attempt, and the search goes on with the next one |
| Orchestrator.DirIndex | dtrx/dtrx.py:1771 | the queue position of a directory, or none iff it is not queued |
| Orchestrator.Enqueue | dtrx/dtrx.py:1771 | directories stay distinct; a queued directory gains the name at the end, a new one is added last; other directories are unchanged |
| Orchestrator.EnqueueAll | dtrx/dtrx.py:1762-1771 | queueing keeps directories distinct and adds at most one directory per name |
| Orchestrator.EnqueueAllKeeps | dtrx/dtrx.py:1771 | a queued name stays queued under its directory |
| Orchestrator.EnqueueAllQueues | dtrx/dtrx.py:1762-1771 | every name handed over is queued under its directory |
| Orchestrator.PathSplit | dtrx/dtrx.py:1763 | `os.path.split`: the last component has no slash; a path without a slash splits into nothing and itself |
| Orchestrator.SplitJoinPath | dtrx/dtrx.py:1763 | splitting a path joined from a directory and a file name gives both back |
| Orchestrator.QueueDir | dtrx/dtrx.py:1764-1770 | with an absolute current directory and relative later parts, the queued directory is absolute |
| Orchestrator.JoinAbsolute | dtrx/dtrx.py:1770 | `os.path.join` keeps an absolute first part when no later part is absolute |
| Orchestrator.Recurse | dtrx/dtrx.py:1758-1771 | nothing is queued unless recursion is allowed; otherwise each archive is queued by its base name under its directory |
| Orchestrator.RecurseQueuesFound | dtrx/dtrx.py:1758-1771 | a nested archive recorded as `dir/f` is queued by the name `f` under the join of the current directory, the target when it is a directory, the included root and `dir` |
| Orchestrator.HandleFiles | dtrx/dtrx.py:1841-1853 | each file becomes exactly one success or failure unless one raises, which stops the loop before that file is counted; with a handler that never raises nothing stops it; earlier results are kept |
| Orchestrator.RunBatch | dtrx/dtrx.py:1838-1854 | the last queued directory is handled; unless a file raised, its files are counted and wrapping becomes the permanent one-entry policy |
| Orchestrator.Run | dtrx/dtrx.py:1832-1857 | the exit status is 0 iff no file failed and nothing raised, and 1 otherwise, an uncaught exception being status 1; without an exception the queue is empty at the end, every file waiting in it is counted and, after any batch, the permanent one-entry policy is wrap; failures already recorded are kept; a handler that never raises never ends the run with an exception |
| Orchestrator.RaisedEndsRun | dtrx/dtrx.py:1843-1848 | a file whose search raised ends the program with status 1 and that exception; neither it nor any later file is counted |
| Orchestrator.EnqueueAllPending | dtrx/dtrx.py:1771 | queueing n names adds n pending files |

## Left out

- Subprocess plumbing is not modelled: pipes, non-blocking reads, timeouts, and the terminal echo and password prompts. The stages each class runs are modelled as data.
- The `lrzip --help` probe (dtrx/dtrx.py:223-233) is a boolean parameter, `lrzipHasQ`. The class-level decoder table lives for the whole process; the model takes its `lrz` entry at the start of one file's search as a parameter and threads it through that search's attempts.
- File-system effects are not modelled: renames, `rmtree`, `makedirs` and `chmod`. The name checker sees the existing names as a set. `os.walk` is a list of (directory, files) pairs.
- Placement.FreshName: `mkstemp`/`mkdtemp` with `dir="."` return a path `./<name>.<random>`. The model returns a deterministic name without the `./` prefix. It keeps the promise the rest of the model relies on: not taken, and starting with the original name and a dot.
- Python's `mimetypes` tables are parameters: a `MimeTables` pair of suffix sets and a `MimeGuess` per file name.
- Regular expressions are written out as predicates on ASCII characters. `\s` and `\d` are the ASCII classes, not Unicode.
- `str.format` is modelled only as far as the argv needs it: fields, `{{`/`}}` escapes and unknown-field errors. Conversions and format specs are not modelled.
- Signal handling (`abort`, `clean_destination`), the `download`/wget path, option parsing, logger setup and the version banner are not modelled.
- The terminal-width ioctl is not modelled; the width is a parameter. `show_extraction`, the list action's printing, log and error messages are not modelled either.
- The choices under a question are wrapped by `textwrap`, which is not modelled.
- The Zstandard listing parser (dtrx/dtrx.py:760-770) calls `string.rindex`, which does not exist in Python 3. Its behaviour is only the resulting exception, so it is not modelled.
- Listing: the listers read tool output already decoded to text. The pipe reader drops every non-ASCII byte (`errors="ignore"`, dtrx/dtrx.py:453); the parsers here never see such bytes, so a member name with non-ASCII characters is not represented.
- Classifier.TryByMagic: takes the `file -zL` line as text. The strict ASCII decode (dtrx/dtrx.py:1432) raises UnicodeDecodeError on a non-ASCII line, and that exception is not modelled.
- Naming.PathBase: the extractors store `os.path.realpath(filename)` (dtrx/dtrx.py:237, 633), so for a symbolic link the names come from the link's target. The model takes the resolved path as given.
- The exit statuses of the `ar t` listing that Debian preparation runs are not modelled; only the member names are.
- Contents.GotFiles: for the compressed-file classes the flag passed to `check_success` is "the output file is not empty" (dtrx/dtrx.py:503). The caller supplies that flag to `Pipeline.CheckSuccess` directly.
- Orchestrator.Run: takes a fuel bound on the number of batches. A run that queues nested archives forever gives no result.
- Orchestrator.Run: per-file handling (download, `check_file`, `try_extractors`, handler, recursion) is a parameter function. It returns the file's success, the archives it queued and the one-entry policy afterwards, or the exception that escaped; Orchestrator.FileOutcome says how a search's outcome becomes that result.
- Formats.Construct: models only the constructor's encoding check. The open and `os.open` failures are part of Orchestrator.AttemptResult, and the `lrzip --help` probe's CalledProcessError (dtrx/dtrx.py:225-227) is not modelled.
- Orchestrator.AttemptResult: a failing `lrzip --help` probe raises CalledProcessError from the constructor; the probe is a boolean parameter, so that exception is not represented.
- Naming.ShieldBasename: builds on the corrected Naming.BaseBasename. As written the InstallShield class calls the base rule of dtrx/dtrx.py:367-390, so a file named `gz` raises IndexError there (Naming.BaseBasenameAsWritten), where the model keeps the name `gz`. Naming.DebBasename falls back to the same corrected rule only for names containing `_`, which are never a bare encoding suffix.
- Pipeline.ExtractionStages: builds a no-pipe class's command line with the corrected Naming.ExtractArgv, so a password containing braces is passed verbatim. As written the program formats it: `{x}` raises KeyError and `{{` loses a brace. Naming.ExtractArgvAsWritten is the as-written partner, and Orchestrator.EscapeEndsSearch shows what such a KeyError does to the search.
- Policy.WrapQuestion: fills the question with the corrected Policy.Fill, so an archive named `%s` keeps its name. As written the second argument overwrites it; Policy.FillAsWritten and Policy.PercentNameOverwritten are the as-written partners, and Policy.FillAgrees shows the two agree for every other name.
- Orchestrator.Run: only the one-entry policy is carried from file to file. The recursion policy's permanent choice also persists across files in the program; Policy.AlwaysSticks shows it for two archives, but Run does not thread it.

## Findings

| source | as written | input that shows it | evidently intended | confidence | as-written member | corrected member |
|---|---|---|---|---|---|---|
| dtrx/dtrx.py:1347 | the `tar.lz` row names the encoding `lz`, which the decoder table (dtrx/dtrx.py:208-217) does not have, so the constructor raises ValueError and nothing catches it | a file named `x.tar.lz` once the tar+lzip attempt that the MIME tier proposes first has failed (lzip missing, or a damaged archive); Classifier.TarLzAfterMimeTier shows the `lz` pair still follows | the encoding `lzip`, as the magic table and mimetypes registration use | high, not executed | Classifier.TarLzRowAsWritten | Classifier.TarLzRow |
| dtrx/dtrx.py:379-381 | after removing an encoding suffix, `pieces[-1]` is read without checking that a piece is left | a file named `gz` (any bare encoding suffix) reaching the base rule | remove the encoding suffix only when there is more than one piece | medium, not executed | Naming.BareEncodingNameCrashes | Naming.BaseBasename |
| dtrx/dtrx.py:642-644 | `str.format` runs over every argv element, including the password argument | zip password `{x}` raises KeyError; 7z password `a{{b` becomes `a{b` | fill `{OUTPUT_FILE}` in the tool's own template only, and pass the password verbatim | high, not executed | Naming.DoubledBracePasswordAltered | Naming.DoubledBracePasswordKept |
| dtrx/dtrx.py:1092-1094 | each argument replaces the first `%s` word still present, so an argument that is itself `%s` is overwritten by the next one | an archive named `%s` with one unknown entry: the question reads `file contains one %s` | the k-th argument fills the k-th placeholder | medium, not executed | Policy.PercentNameOverwritten | Policy.PercentNameKept |
