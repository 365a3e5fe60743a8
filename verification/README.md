# certfinder: a verified model of the scanner

This project models the scanning core of certfinder, the Go program that walks a
file tree and reports the X.509 certificates it finds in PEM, DER, Java keystore
and PKCS#12 files, also inside nested ZIP, TAR and gzip archives. It proves what
the limits, the binary readers, the archive recursion, the symbolic-link walk and
the concurrent pipeline guarantee on every input, archive, tree and interleaving.

`dafny verify dfyconfig.toml` checks everything.

## How it is built

Each imperative piece of the source is a class or a method of the same shape,
proved equal to a function on values; the results are lemmas about those functions.

| files | source | contents |
|---|---|---|
| `TextCodec` | `jks.go`, `pkcs12.go` | modified UTF-8 and big-endian UTF-16 |
| `JavaKeystore`, `JavaKeystoreProofs` | `jks.go` | reader, parser; store writer and results |
| `Der` | `pkcs12.go` | element headers, strict TLV reader, SEQUENCE splitting |
| `Pkcs12`, `Pkcs12Parser`, `Pkcs12Proofs`, `Pkcs12KeyValues` | `pkcs12.go` | parser, detection; traversal, noninterference |
| `Pkcs12Identifiers`, `Pkcs12RoundTrip`, `Pkcs12Grammar` | `pkcs12.go` | object identifiers from their arcs, writer, and the grammar of what is accepted |
| `Content` | `scanner.go` | sniffing a prefix, then rereading |
| `Archive`, `ArchiveScanner` | `archive.go` | the nested scan as functions, and the scanner object |
| `ArchiveSafety`, `ArchiveFooter`, `ArchiveBudget`, `ArchiveFlatten`, `ArchiveFile` | `archive.go`, `scanner.go` | limits, ZIP footers, exact byte threshold, flattening, capped files |
| `SymlinkWalk`, `SymlinkWalkProofs`, `SymlinkWalkOrder`, `SymlinkWalkPatterns`, `SymlinkWalkQueue` | `scanner.go` | the walker; soundness, order of listings, completeness, queued files |
| `Pipeline`, `PipelineClose`, `Ordering`, `Schedule` | `scanner.go` | goroutines as a transition system; the sorted report |
| `ScanReport` | `scanner.go` | from the tree through the pipeline to the report |
| `Duplicates` | `duplicates.go`, `main.go` | grouping and streaming counts |

What comes from outside is a parameter of the model: whether `x509.ParseCertificate`
accepts some bytes, what PEM and DER bundles hold, how the ZIP, TAR and gzip
libraries decompose bytes, how large each read turns out, how bytes are hashed, what
a glob matches, and what the file system shows. Every result holds for all of them.

Errors are lists of tagged causes; an error is nil when the list is empty.

## Findings

- After cancellation the `outcomes` channel may be closed while the walker stands
  before a send on it. `PipelineClose.CloseHazard` says exactly when: in some cancelled
  run of every scan whose walk reports an error, and in no other run.
- With symbolic links followed, an exclude pattern that contains a slash can make the
  walk miss directories that are reachable under a path it does not exclude, since a
  directory is listed under one of its paths only. `SymlinkWalkPatterns.PatternsDecide`
  gives the exact condition on the patterns, over the trees a file system can show
  (real names, sorted listings): some entry is excluded behind one way v to a directory
  and not behind another way u, and the walk comes along v first, because v parts from u
  towards an earlier name or because u leaves the way behind v in a circle of links. A
  pattern without wildcards meets it exactly when it spells out a path of real names
  (`SymlinkWalkPatterns.LiteralPatternDecides`): `m/n` does, and `a//b`, which matches no
  path at all, does not.
- A file scanned as an archive is counted as capped only if it is gzip
  (`internal/scanner/archive.go:168-173` returns the entry's own result, while
  the ZIP and TAR loops merge into a fresh one that drops the flag).
- The separate NUL test of the modified UTF-8 decoder
  (`internal/scanner/jks.go:287-289`) never fires.

## Model

| member | source | states |
|---|---|---|
| TextCodec.ModifiedUtf8Bijective | internal/scanner/jks.go:271-324 | the decoder accepts exactly the encodings of scalar-value sequences, each as the one text it encodes: both round trips at once |
| TextCodec.Utf16Bijective | internal/scanner/pkcs12.go:384-409 | the same for big-endian UTF-16 |
| TextCodec.DecodersAgree | internal/scanner/jks.go:307-323 | on the same code units, well paired or not, both decoders give the same text or both fail |
| TextCodec.NulCheckNeverFires | internal/scanner/jks.go:287-289 | a zero two-byte value comes from C0 80 only |
| TextCodec.MasksAreRanges | internal/scanner/jks.go:279-296 | the bit masks of the decoder are the ranges and differences the model uses, for all bytes |
| TextCodec.DecodeJavaModifiedUtf8 | internal/scanner/jks.go:271-324 | the two loops return the text whose encoding the input is, or nothing exactly when it encodes no text |
| TextCodec.DecodeBigEndianUtf16 | internal/scanner/pkcs12.go:384-409 | the same for the UTF-16 loop |
| JavaKeystore.EntriesFrom | internal/scanner/jks.go:90-173 | whatever counts are declared, each completed entry takes at least 14 bytes and each chain certificate at least 4 more; the run is whole exactly when every declared entry was completed |
| JavaKeystore.JavaKeystoreReader.Take | internal/scanner/jks.go:258-265 | succeeds exactly when the bytes are there, moves by exactly their number, and does not move on failure |
| JavaKeystore.JavaKeystoreReader.Certificate | internal/scanner/jks.go:190-223 | the cursor reads the certificate record the offset-based definition describes and stands behind it |
| JavaKeystore.JavaKeystoreReader.Entry | internal/scanner/jks.go:91-172 | one iteration of the entry loop |
| JavaKeystore.JavaKeystoreReader.AllEntries | internal/scanner/jks.go:86-173 | the whole loop, including where it gives up |
| JavaKeystore.ParseJavaKeystore | internal/scanner/jks.go:58-188 | the parser with its cursor and loops computes Parse, on every input |
| JavaKeystoreProofs.RoundTrip | internal/scanner/jks.go:58-188 | for every well-framed version 1 or 2 store under any MAC: exactly the certificates of type X.509 that are accepted, in order, with alias, entry type and place in the chain; an alias that is no text is repaired and costs no certificate; the errors in order, nil exactly when all are accepted, all aliases are texts and there is a certificate; truststore exactly when there are only trusted entries |
| JavaKeystoreProofs.NilErrorMeansWritten | internal/scanner/jks.go:58-188 | the error is nil exactly for the byte sequences that are such a store with every alias a text, every certificate accepted and at least one: any other tag, length, type or trailing byte is an error |
| JavaKeystoreProofs.FaultsKeepWhatCameBefore | internal/scanner/jks.go:90-181 | whatever stands behind some well-framed entries, their certificates and errors come first; nothing else does where the tag is unknown or the fields are cut; left-over bytes are an error and leave the truststore flag unset |
| JavaKeystoreProofs.ChainFaultsKeepWhatCameBefore | internal/scanner/jks.go:118-141 | whatever stands behind some records of a chain, the certificates of those records are kept after those of the entries before |
| JavaKeystoreProofs.KeysAndMacAreNotRead | internal/scanner/jks.go:109-117 | stores that differ only inside private-key blobs and in the MAC give identical certificates and errors |
| JavaKeystoreProofs.TruncationKeepsPrefix | internal/scanner/jks.go:90-187 | the certificates of any cut store are a prefix of those of the full one, truststore flag aside |
| Der.HeaderIsCanonical | internal/scanner/pkcs12.go:95-128 | a header is read exactly where the one DER encoding of its tag and length stands, its content ends by the limit, nothing overflows |
| Der.ReadDerElementHeader | internal/scanner/pkcs12.go:95-128 | the length loop computes that header |
| Der.TlvIsCanonical | internal/scanner/pkcs12.go:564-573 | an element is read at the head of some bytes exactly when they start with its single encoding |
| Der.SequenceIsCanonical | internal/scanner/pkcs12.go:520-546 | succeeds with some items exactly on the SEQUENCE of their bytes, with at most the maximum of them |
| Der.RawSequenceElements | internal/scanner/pkcs12.go:520-546 | the loop computes that split, with its error cases |
| Pkcs12.SafeContents | internal/scanner/pkcs12.go:201-260 | no bag is looked into beyond the cap; a counter at the cap grows by at most one per open level |
| Pkcs12.ContentsFrom | internal/scanner/pkcs12.go:161-192 | the same over all contents: one more for each later content |
| Pkcs12Parsing.Pkcs12Parser.ParseSafeContents | internal/scanner/pkcs12.go:201-260 | the mutating recursion adds to the parser exactly what SafeContents says |
| Pkcs12Parsing.ParsePkcs12 | internal/scanner/pkcs12.go:130-199 | the parser object computes Parse, on every input |
| Pkcs12Parsing.ParseFriendlyName | internal/scanner/pkcs12.go:319-363 | the attribute loop computes FriendlyName |
| Pkcs12Proofs.FriendlyNameIsFirst | internal/scanner/pkcs12.go:319-363 | the name is the value of the first friendlyName attribute after fewer than 64 well-formed others; none if at most 64 others are all there is; an error in every other case |
| Pkcs12Parsing.DetectPkcs12 | internal/scanner/pkcs12.go:66-93 | the sniffer computes Detect |
| Pkcs12Proofs.WithinTraversal | internal/scanner/pkcs12.go:201-260 | under the cap, a bag tree gives its certificates depth first, each numbered by the certBags before it, parseable or not |
| Pkcs12Proofs.NumberedIsSound | internal/scanner/pkcs12.go:227-252 | every reported certificate stands for the accepted certBag at its chain index; indices increase |
| Pkcs12Proofs.NumberedIsComplete | internal/scanner/pkcs12.go:227-252 | no accepted certBag is missing |
| Pkcs12Proofs.ContentsAreIndependent | internal/scanner/pkcs12.go:161-198 | under the cap, certificates, encrypted findings and problems are those of each content read on its own, one after the other; the truststore flag is set exactly when there are certificates, no key bag in any content and nothing encrypted |
| Pkcs12Proofs.WorkIsBounded | internal/scanner/pkcs12.go:214-218 | at most 10,000 bags are looked into; the counter stays within 10,000 + 17 + 255 |
| Pkcs12Proofs.DetectionIsMonotone | internal/scanner/pkcs12.go:66-93 | recognised in a prefix, recognised in every extension |
| Pkcs12Proofs.DetectionSettledBy44 | internal/scanner/pkcs12.go:66-128 | any 44 bytes give the answer for the whole file |
| Pkcs12KeyValues.KeyValuesAreNotRead | internal/scanner/pkcs12.go:224-226 | painting over the values of all key, shrouded-key and secret bags, at any nesting depth, changes no certificate, finding or problem |
| Pkcs12KeyValues.OverlayRepaintsKeyValues | internal/scanner/pkcs12.go:262-291 | the painted file has the new bytes exactly at the positions inside key values and the old ones everywhere else |
| Pkcs12KeyValues.SameButForKeys | internal/scanner/pkcs12.go:224-226 | two files of one length that differ only at positions inside key values give identical results |
| Pkcs12RoundTrip.RoundTrip | internal/scanner/pkcs12.go:130-291 | every written mix of plaintext and encrypted contents within the limits, its bags named by type (certificate, key, shrouded key, secret, unknown, nested) and identified by the arcs of RFC 7292 appendix D, is recognised; reading it gives the accepted certificates with names and places, the encrypted findings, a nil error exactly when all certificates are accepted, and a truststore flag exactly without keys of any of the three types and without encrypted contents |
| Pkcs12RoundTrip.SafeContentsReadBack | internal/scanner/pkcs12.go:201-260 | the same for one bag tree anywhere in a file, with the counters it leaves |
| Pkcs12RoundTrip.EncryptedReads | internal/scanner/pkcs12.go:411-470 | a written encrypted content yields its algorithm under its place |
| Pkcs12Identifiers.IdentifiersAreTheirArcs | internal/scanner/pkcs12.go:27-39 | the identifiers compared with are the DER encodings of their arcs |
| Pkcs12Identifiers.KindsAreTheirArcs | internal/scanner/pkcs12.go:224-258 | bag types 1, 2 and 5 count as keys, 3 as a certificate, 6 is opened, and everything else is passed over |
| Pkcs12Grammar.NilErrorMeansSound | internal/scanner/pkcs12.go:130-291 | the error is nil exactly for the files of a grammar written as DER: version 3, contents of plaintext bags or encrypted data, no more bags and no deeper than the limits, every certBag with an accepted certificate and well-formed attributes |
| Pkcs12Grammar.BagGives | internal/scanner/pkcs12.go:219-258 | by the bytes of a bag: a certBag gives its certificate exactly when it is accepted, unnamed when its name cannot be read, and takes a chain index in any case; keys are counted; unknown bags give nothing; bytes that are no bag give one problem and nothing else |
| Pkcs12Grammar.ContentGives | internal/scanner/pkcs12.go:161-192 | a content gives the certificates and keys of its plaintext bags, or its encryption algorithm under its number, or else one problem and nothing |
| Pkcs12Grammar.PfxGives | internal/scanner/pkcs12.go:130-160 | what is no PFX of version 3 gives one problem; of one that is, the contents are read in order |
| Pkcs12Grammar.AttributeIs | internal/scanner/pkcs12.go:333-346 | an attribute is read exactly from a SEQUENCE of an identifier and one more element |
| Pkcs12Grammar.NameValueIs | internal/scanner/pkcs12.go:347-361 | a friendlyName value is read exactly from a SET of one string |
| Pkcs12Grammar.StringIs | internal/scanner/pkcs12.go:365-382 | UTF-8, printable and IA5 strings keep their bytes, UTF-16 is decoded, and nothing else is a name |
| Pkcs12Grammar.DetectIs | internal/scanner/pkcs12.go:66-93 | a file is recognised exactly when it begins with the headers of a version 3 PFX over data or signed data |
| Content.ScanContentData | internal/scanner/scanner.go:827-885 | indices number the certificates; a reread is asked for on incomplete content only, and where none is, the capped flag says whether the content was incomplete |
| Content.CompleteContentGives | internal/scanner/scanner.go:827-885 | the certificates of complete content are those of the Java keystore parser on its magic bytes, of the PKCS#12 parser on a recognised file, else of the PEM blocks, and without any of those of the DER values; findings and nil error are those of the parser |
| Content.IncompleteContentGives | internal/scanner/scanner.go:827-885 | incomplete content gives the certificates of its PEM blocks, and none of a keystore; the rest is asked for exactly where it shows a keystore or a PEM certificate |
| Content.ScanPlainFile | internal/scanner/scanner.go:786-825 | all or nothing: a file longer than the sniff limit whose prefix shows neither a keystore nor a PEM certificate is capped and gives nothing; any other gives exactly what its complete bytes give |
| Content.KeystoresNeed44Bytes | internal/scanner/scanner.go:795-825 | a keystore of any kind gives the same result under every limit of at least 44 bytes as under none |
| Archive.FindEndRecord | internal/scanner/archive.go:256-269 | the search from the end finds the last record whose comment ends the file, or there is none |
| ArchiveScanning.ArchiveScanner.ReadBudgeted | internal/scanner/archive.go:344-364 | a read never passes the budget; with nothing left it fails exactly when another byte is there |
| ArchiveScanning.ArchiveScanner.ReadAll | internal/scanner/archive.go:315-342 | whatever the sizes of the single reads: the data, error, counter and position of ReadUpTo |
| ArchiveScanning.ArchiveScanner.CheckZipEntryCount | internal/scanner/archive.go:243-313 | the footer search and comparison compute CountProblem |
| ArchiveScanning.ArchiveScanner.BeginEntry | internal/scanner/archive.go:366-375 | one more entry and notice; the limit error exactly beyond the limit |
| ArchiveScanning.ArchiveScanner.ScanEntry | internal/scanner/archive.go:176-215 | outcome, counters and events of one entry of any nesting are those of Archive.ScanEntry |
| ArchiveScanning.ArchiveScanner.ScanZip | internal/scanner/archive.go:90-124 | the ZIP loop, with its stop after a byte-limit error |
| ArchiveScanning.ArchiveScanner.ScanTar | internal/scanner/archive.go:126-152 | the TAR loop |
| ArchiveScanning.ArchiveScanner.ScanGzip | internal/scanner/archive.go:154-174 | the gzip layer |
| ArchiveScanning.ArchiveScanner.ScanArchiveBytes | internal/scanner/archive.go:217-241 | the mutual recursion as a whole refines Archive.ScanArchive |
| ArchiveSafety.ScansAreSafe | internal/scanner/archive.go:59-124 | over any nested scan: bytes read never pass the budget; byte-limit error exactly when a read was refused, with the budget spent to the last byte and nothing begun afterwards; the bytes counted are exactly those the reads handed on; every entry counted is noticed once and every one beyond the limit gives one entry-limit error; at most the allowed entries reach scanEntry; the counter stays within entries + depth limit; the unsigned conversion in the count check is exact |
| ArchiveFooter.DeclaredCountIs | internal/scanner/archive.go:243-313 | the footer search finds the count of the last closing record that reaches to the end of the file, or that of the ZIP64 record its locator names, read from the layout of section 4.3 of PKWARE's APPNOTE; it finds none exactly when no such record exists |
| ArchiveFooter.CountCheckIsExact | internal/scanner/archive.go:262-283 | an archive passes the count check exactly when that layout declares no more entries than the limit still allows, and misses its footer exactly without a closing record |
| ArchiveFooter.ArchiveIsRefused | internal/scanner/archive.go:225-229 | an archive that fails the count gives its error, no certificate and no finding, and begins no entry |
| ArchiveBudget.ByteThreshold | internal/scanner/archive.go:176-215 | a budget of at least what a free scan reads gives the identical run; any smaller one gives the byte-limit error with exactly the budget read |
| ArchiveFlatten.ScanIsFlattening | internal/scanner/archive.go:90-241 | without entry or count limits, certificates, findings and causes are the pre-order concatenation of what the leaves give on their own and of the troubles, with exactly the planned bytes and entries; below the planned bytes, the byte-limit error |
| ArchiveFlatten.ArchiveMeets | internal/scanner/archive.go:90-241 | what is planned is exactly what the archive holds, by the fields of its entries: regular, unencrypted, readable entries are visited under their joined path or opened if they hold an archive; encrypted, unopenable, too deep and badly closed ones are failures; nothing else is visited |
| ArchiveFlatten.ZipInOrder | internal/scanner/archive.go:90-124 | a ZIP plan is that of its entries one after the other, each counted once, regular or not, and with those opened inside it |
| ArchiveFlatten.TarInOrder | internal/scanner/archive.go:126-152 | the same for TAR, with the fault that ends it |
| ArchiveFlatten.ArchivePaths | internal/scanner/archive.go:217-241 | the path of an entry extends that of the archives around it and has at most as many elements as the depth limit |
| ArchiveFlatten.SoundEntriesOpenWhole | internal/scanner/archive.go:182-214 | an entry whose bytes can all be read is opened as all of its bytes, in the format its sniffed prefix shows |
| ArchiveFlatten.FaultyEntry | internal/scanner/archive.go:176-214 | of an entry whose stream fails, the error is reported with the PEM certificates of what was read when the failure is met, and is not noticed otherwise |
| ArchiveFlatten.EntryNames | internal/scanner/archive.go:417-423 | an entry's cleaned name joins the names around it; an empty one is replaced |
| ArchiveFlatten.GzipNames | internal/scanner/archive.go:425-437 | a gzip member without a name is called after the archive around it, without .gz in any case of letters |
| ArchiveFlatten.VisitsCarryTheirPath | internal/scanner/archive.go:408-423 | every certificate and finding carries the full path of its entry |
| ArchiveFlatten.EntryScannedLikeAFile | internal/scanner/archive.go:203-214 | an entry gives exactly the result and capped flag of a plain file with its bytes, every certificate and finding under its path and else unchanged, at a stated cost in bytes |
| ArchiveFile.FormatSettledBy263 | internal/scanner/archive.go:43-57 | a format seen in a prefix is the format of the file; 263 bytes settle it |
| ArchiveFile.FormatsByMagic | internal/scanner/archive.go:43-57 | the formats by their magic bytes, those at the start before that of TAR |
| ArchiveFile.OthersAreNotUnpacked | internal/scanner/scanner.go:786-803 | with archives off, or without magic bytes in the sniffed part, a file is scanned as a plain one |
| ArchiveFile.CappedFilesGiveNothing | internal/scanner/scanner.go:804-824 | a file counted as capped has no certificate and no finding, archives on or off, however nested; a capped archive is a gzip file |
| ArchiveFile.GzipScannedLikeItsContent | internal/scanner/archive.go:154-174 | a sound gzip file gives what its content would give as a file of its own, with the entry path and the same capped flag, under every budget that covers a stated cost |
| SymlinkWalk.DiscoveryWalker.MarkVisited | internal/scanner/scanner.go:575-581 | true exactly the first time |
| SymlinkWalk.DiscoveryWalker.CheckExcluded | internal/scanner/scanner.go:624-637 | some pattern matches the path, or its last name if the pattern has no slash |
| SymlinkWalk.DiscoveryWalker.FollowLink | internal/scanner/scanner.go:510-537 | what following a link reports, queues and enters |
| SymlinkWalk.DiscoveryWalker.WalkWithSymlinks | internal/scanner/scanner.go:447-508 | the mutating walk terminates on every finite graph, cycles included, and does what WalkFromRoot says |
| SymlinkWalkProofs.WalkIsSound | internal/scanner/scanner.go:463-508 | no canonical directory is listed twice; only directories reached by paths that are not excluded and stay on the file system are listed |
| SymlinkWalkProofs.WaysResolve | internal/scanner/scanner.go:473-537 | a way of the tree, step by step over what entries are: a directory, or a link to one, that is not excluded and on the root's file system where that is asked for |
| SymlinkWalkOrder.ExclusionIs | internal/scanner/scanner.go:624-637 | on real names: a pattern with a slash is matched with the names joined, one without with the last name |
| SymlinkWalkOrder.EnteredIsListed | internal/scanner/scanner.go:463-508 | in a tree with sorted listings, every directory an entry of a listed directory leads to is listed under a path that is not after that entry |
| SymlinkWalkPatterns.WalkIsExact | internal/scanner/scanner.go:447-537 | on every finite tree a file system can show, under consistent patterns or name patterns, exactly the directories at the end of such a way are listed |
| SymlinkWalkPatterns.PatternsDecide | internal/scanner/scanner.go:624-637 | patterns leave the walk complete on every tree with real names and sorted listings if and only if they never clash: no way on is closed by them behind the way to a directory that is met first and open behind another |
| SymlinkWalkPatterns.ClashLoses | internal/scanner/scanner.go:476-495 | for every clash, such a tree with a reachable directory that is never listed |
| SymlinkWalkPatterns.LiteralPatternDecides | internal/scanner/scanner.go:606-637 | a pattern with a slash and without wildcards keeps the walk complete on all such trees exactly when it spells out no path of real names |
| SymlinkWalkPatterns.DoubleSlashIsHarmless | internal/scanner/scanner.go:606-637 | a pattern m//n, which matches no path, never clashes |
| SymlinkWalkPatterns.SlashPatternsLoseDirectories | internal/scanner/scanner.go:624-637 | a pattern m/n without wildcards always clashes: with a later name of m, and with a circle of links in m |
| SymlinkWalkPatterns.NamePatternsAreConsistent | internal/scanner/scanner.go:628-630 | patterns without a slash never clash |
| SymlinkWalkQueue.QueueIsExact | internal/scanner/scanner.go:497-537 | exactly the wanted files of the listed directories are queued, links to files among them, and exactly the unreadable directories, broken links and entries of unknown device reported; no two things under one path, as a sequence of names and, for real names, as joined text |
| SymlinkWalkOrder.JoinedIsInjective | internal/scanner/scanner.go:475 | different paths of real names have different joined texts |
| Pipeline.ExactlyOnce | internal/scanner/scanner.go:301-387 | in every interleaving nobody cancels: no send on a closed channel, no deadlock, a bound on the run, and at its end every queued path and walker error processed once with both counters at the number of paths |
| Pipeline.ScannedNeverExceedsDiscovered | internal/scanner/scanner.go:587-603 | in every reachable state, cancelled ones included |
| Pipeline.CancellationCanCloseEarly | internal/scanner/scanner.go:340-343 | a concrete cancelled run that closes `outcomes` before a waiting sender |
| PipelineClose.CloseHazard | internal/scanner/scanner.go:754-761 | such runs exist exactly for the walks that report an error, for every number of workers, and each of them is cancelled |
| Ordering.LessIsStrictTotalOrder | internal/scanner/scanner.go:684-695 | the report's comparator is a strict total order on path, archive entries and index |
| Ordering.LessIsAlphabetical | internal/scanner/scanner.go:684-695 | it puts first the key whose path is smaller at the first differing character or a proper prefix, then whose entries are so, then the lower index |
| Ordering.SortedIsAlphabetical | internal/scanner/scanner.go:683-711 | in what the sort returns nothing stands behind what it comes before in that order |
| Ordering.SortIsUnique | internal/scanner/scanner.go:683-711 | results under distinct positions can be sorted in one way only |
| Ordering.SortInPlace | internal/scanner/scanner.go:683-711 | sorts in place, keeping the elements |
| Schedule.ReportCollector.Receive | internal/scanner/scanner.go:347-382 | report, errors included, callbacks and all counters are those of the outcomes received so far |
| Schedule.ReportIsSorted | internal/scanner/scanner.go:683-711 | certificates and findings of a report are sorted by path, archive entries and index, errors by path |
| Schedule.ReportHoldsAll | internal/scanner/scanner.go:345-371 | a finished run's report holds exactly the certificates and findings of the queued files, and the errors of the files that failed and of the walk |
| Schedule.ReportIsIndependentOfSchedule | internal/scanner/scanner.go:345-371 | any two finished runs, with any numbers of workers, give the same sorted certificates and findings, and the same errors if no path was given out twice; it asks that the results of each queued file stand under its path at distinct positions |
| Schedule.PlainFilesQualify | internal/scanner/scanner.go:827-885 | with archives off every file does what the previous row asks |
| ScanReport.ArchivesQualify | internal/scanner/archive.go:217-241 | so does an archive scanned to the end in which no two leaves have the same entry path |
| ScanReport.TasksAreApart | internal/scanner/scanner.go:473-505 | no two things the walk queues or reports have the same display path |
| ScanReport.WantedFilesAreScannedOnce | internal/scanner/scanner.go:308-387 | walk and pipeline together: a finished run nobody cancelled has scanned every wanted file of every listed directory exactly once, and nothing else |
| ScanReport.ReportIsOfTheTree | internal/scanner/scanner.go:232-399 | the report of a finished scan has exactly the certificates and findings of the wanted files of the listed directories, and the errors of exactly what failed |
| ScanReport.NoReachableFileIsMissed | internal/scanner/scanner.go:447-537 | with name patterns, every wanted file at the end of any way through the tree is scanned under some path to it |
| ScanReport.ReportIsDetermined | internal/scanner/scanner.go:683-711 | the whole report is a function of the tree and the files: any two schedules of a scan give the same |
| Duplicates.GroupCertificates | duplicates.go:55-86 | sorts in place; groups have distinct fingerprints in order of first location, each with the sorted locations of its fingerprint, and partition the input |
| Duplicates.GroupsShowTheirPlaces | duplicates.go:55-86 | each group shows the first of all certificates with one SHA-256 fingerprint of their DER bytes and tells path, entries, index and keystore of each in order; no two groups share a fingerprint, none is missing, and groups stand in the order of their first certificates |
| Duplicates.DuplicateGroups | duplicates.go:88-96 | exactly the groups with more than one location |
| Duplicates.RepeatedByPlace | duplicates.go:88-96 | those groups stand in their order, each at its own position |
| Duplicates.CountIdentities | main.go:297-304 | the streamed counts are those of the certificates that arrived |
| Duplicates.CountsByPlace | main.go:297-304 | each count is the number of arrived certificates whose DER bytes have the fingerprint; there is one for each that occurs and for no other |
| Duplicates.Summarize | duplicates.go:44-53 | the totals do not depend on the order the map is ranged over in |
| Duplicates.SummaryAgreesWithGroups | main.go:385-406 | counts in any arrival order and groups of the sorted list agree: matched = locations, unique = groups, duplicate occurrences = their difference |

## Left out

- X.509 parsing, signature checks, host names and chain building (`verify.go`): uses of `crypto/x509`, here one predicate on bytes.
- PEM decoding and the ZIP, TAR and gzip libraries: functions of the model, unconstrained except that the errors they return are not the scanner's own byte-limit error.
- `encoding/asn1`: modelled as the strict DER reader of section 10.1 of ITU-T X.690 in module Der; object identifiers are compared by their content octets.
- A reader that returns no byte and no error, and the error of reading or seeking the outer file.
- Whether an entry's end is reported with its last byte is fixed for each stream, not for each read.
- `filepath.WalkDir` without symbolic links, `os` calls and device identifiers: the file system is a finite graph with an optional device for each entry.
- `filepath.Join` of the root with the first name below it: what it keeps of the root is any prefix string here; the names after it are joined by slashes.
- Pipeline runs after cancellation: only the two counters and the closing of `outcomes`.
- Schedule.ReportIsIndependentOfSchedule: files must not give two different results at one sorting position, because two entries of one archive may have the same name; shown for plain files and for archives with distinct entry paths that meet no limit.
- Progress callbacks of the pipeline, and that the progress totals of an archive add up with those of others.
- Error texts: causes are tagged, enough to tell a byte-limit error and a nil error.
- Strings are compared by code points where Go compares bytes; for the valid UTF-8 both orders are the same.
- Output formats, flags, terminal display, logging and build information.
