# Verification of the vault's core protocols

A Dafny model of the parts of the repository where a mistake would be hardest to notice: the erasure-coded dispersal of
an archive and its repair, the DER codec and its users, the readers of IPv6 text and the address rules, the lock file,
the small schedulers and event machines, the scanners that face hostile documents, and the deniable decoy registry.
Each module stands for one source file or one part of it.

* `GaloisField`, `GaloisTables`, `LinearAlgebra`, `Elimination`, `ReedSolomon`: the codec of `lib/ReedSolomon.js`, from
  its tables over GF(2^8) to the recovery of lost shards. The generator is shown to have order 255, the tables to
  compute the field's products, and every square part of the Cauchy matrix to be invertible, so that any k of the
  k + m shards determine the data. Nothing about the codec is assumed.
* `ShardFrame`, `Disperse`, `Repair`: `lib/Disperse.js` and `lib/DisperseProcess.js`. A dispersal is the list of its n
  framed shards; a list of buffers is *winning* for it when at least k of them are different shards of it (with
  anything appended), no good shard carries its id and geometry without being one of them, and every other group is
  smaller. Decoding a winning list gives the archive; repairing a winning folder gives the original shards back byte for
  byte, within the read budgets, for both frame versions.
* `Bytes`, `Wrappers`, `Sets`: byte buffers, optional values and results, sizes of sets.
* `Text`, `Der`, `Oid`, `Certificate`, `GeneralizedTime`: `lib/Der.js` and the parts of `lib/Cert.js` and
  `lib/Attest.js` on top of it (ITU-T X.690, sections 8.1.3, 8.3, 8.19 and 10.1; section 4.1.2.5.2 of RFC 5280).
* `Arithmetic`, `Ipv6`, `IpMatch`: `lib/IpMatch.js` and `ipv6ToBytes` of `lib/Cert.js` (section 2.2 and 2.5.5.2 of
  RFC 4291, section 3.1 of RFC 4632).
* `FileLock`: `lib/FileLock.js` as steps of any number of processes that share one clock.
* `Semaphore`, `MapLimit`, `SerialQueue`, `HolePunch`, `Fleet`: closures of `lib/Common.js`, `lib/HolePunch.js` and
  `lib/Fleet.js`. Each is a class whose methods are the source's callbacks, tied to a step function, and lemmas about
  every sequence of such steps.
* `ZipBudget`, `ZipArchive`, `Html`: the two scanners of `lib/Extract.js`, and the archives that the first is for.
* `Decoy`: `lib/Decoy.js` over the slots of `lib/SlotRegistry.js`, with ideal encryption.

SHA-256, key derivation, encryption, inflating and the reading of a text as a number (`Number`) are arbitrary functions,
random draws and clocks are parameters, and a file is its bytes. Where a promise of the source's comments does not hold,
the model keeps the code's behaviour, shows an input on which it fails, and proves when it holds:

* The lock file excludes others as long as no reclaim that was interrupted between its read and its rename throws away
  a file that a live process has just created (`FileLock.CommitExactly`, `FileLock.DiscardLetsTwoIn`,
  `FileLock.DiscardHappens`). The recheck at `lib/FileLock.js:87` takes an empty file for a stale one whatever its age.
* The decoy registry's epoch does not order writers of different processes across an emptying, which restarts the count
  (`Decoy.EmptyingLosesAnUpdate`). When no two registries are made with the same salt, all changes are what they would
  have been if computed at the moment of writing exactly when none is written to a registry that was made anew since the
  change was computed; and exactly when each finds the salt that it has read, so that the epoch together with the salt
  would be enough (`Decoy.SerializableExactly`).
* `zipWithinBudget` charges the content of an entry only when the first entry that it reached with the same data offset
  has the same content (`ZipBudget.ChargedExactly`), since `vetted` at `lib/Extract.js:125` holds offsets alone. All
  entries of a known size are charged exactly when those that share an offset have the same content, as they do when
  they agree in method and stored size (`ZipBudget.AllChargedExactly`). An archive of 128 bytes whose two enumerations
  reach different headers with one data offset is accepted with nothing charged (`ZipBudget.NestedHeaderUncharged`).
* `integer` writes a valid INTEGER exactly for a non-empty buffer; for an empty one it writes an INTEGER without content
  (`Der.IntegerMeaning`).
* `readShards` is starved by junk that costs four archives before k different shards have been met, and in a folder with
  the good shards of one dispersal by nothing else (`Repair.BudgetsSuffice`); 8193 unreadable files in front of the
  shards are such junk (`Repair.JunkStarves`).
* `decodeShards` tells shards of a newer version from unreadable ones, but `readShards` keeps good shards only, so that
  decoding or repairing a folder of newer shards fails as if nothing were readable (`Repair.Decode`).
* `decodeOid` inverts `oid` exactly when the first two arcs fit one octet with a clear top bit
  (`Oid.OidRoundTrip`); `oid` cuts a larger first octet to a byte, and `2.999` is such an identifier.
* `generalizedTime` writes a text that `parseGeneralizedTime` reads back exactly for the years 1000 to 9999
  (`GeneralizedTime.PrintThenRead`); a year of three digits is written with three.
* `ipv6ToBytes` accepts more than `ipv6ToBig`: brackets, zones and upper-case digits, but also a `::` that stands for
  no group (`Ipv6.BytesAcceptsMore`).
* Only the `::ffff:` spellings of an IPv4-mapped address are folded to IPv4; the full spelling is not, and IPv4 rules do
  not apply to it (`IpMatch.Folding`, `IpMatch.FullFormIsNotFolded`). IPv6 text with that prefix and a dotted tail that
  denotes no mapped address, such as `::ffff:0:1.2.3.4`, is refused (`IpMatch.TranslatedIsRefused`).
* `certExtension` finds what `buildSelfSigned` wrote by the text that the written OID decodes to, which among dotted
  decimals is the OID given exactly for those of `Oid.OidTextRoundTrip` (`Certificate.BuildReadAgree`).

## Model

| member | source | states |
|---|---|---|
| GaloisField.GeneratorOrder | lib/ReedSolomon.js:28-37 | no power of 2 below 255 is 1: the log table has one entry per nonzero element |
| GaloisField.ExpSurjective | lib/ReedSolomon.js:28-37 | every nonzero element is a power of 2, so LOG is total on them |
| GaloisField.MulByGenerator | lib/ReedSolomon.js:33-34 | the product defined through logarithms agrees with the shift-and-reduce step |
| GaloisField.MulAssoc | lib/ReedSolomon.js:50 | the product is associative, zeros included |
| GaloisField.MulAdd | lib/ReedSolomon.js:50 | the product distributes over XOR |
| GaloisField.MulInv | lib/ReedSolomon.js:52 | the inverse of a nonzero element is one |
| GaloisTables.BuildLogs | lib/ReedSolomon.js:26-37 | the loop fills EXP with the powers of 2, twice over, and LOG with their inverses |
| GaloisTables.BuildTables | lib/ReedSolomon.js:39-48 | all tables hold powers, logarithms and products of the field |
| GaloisTables.BuildRow | lib/ReedSolomon.js:45-47 | a row of MUL holds the products with its coefficient, zeros included |
| GaloisTables.Tables.GfMul | lib/ReedSolomon.js:50 | the table lookup is the field product |
| GaloisTables.Tables.GfInv | lib/ReedSolomon.js:52 | the table lookup is the field inverse |
| LinearAlgebra.CauchyKernel | lib/ReedSolomon.js:76-86 | as many Cauchy rows as unknowns send only the zero vector to zero: every square part is invertible |
| Elimination.FindPivot | lib/ReedSolomon.js:61-63 | finds a nonzero entry of the column at or below the diagonal, or none exists |
| Elimination.ClearColumn | lib/ReedSolomon.js:67-71 | clears the column outside the pivot row without changing what the rows send to zero |
| Elimination.MatInvert | lib/ReedSolomon.js:57-74 | gives a left inverse, and fails only for a matrix that sends a nonzero vector to zero |
| ReedSolomon.AddMultiple | lib/ReedSolomon.js:113 | the inner loop adds the multiple of a buffer to the output in place, byte by byte |
| ReedSolomon.MakeRow | lib/ReedSolomon.js:78-96 | computes the row of the encoding matrix: identity for data, Cauchy for parity |
| ReedSolomon.DataShardIsItself | lib/ReedSolomon.js:9 | the code is systematic: shard s of the data is data shard s, and nothing else is |
| ReedSolomon.SurvivorsDetermine | lib/ReedSolomon.js:10-16 | any k different rows of the encoding matrix determine the data |
| ReedSolomon.Encode | lib/ReedSolomon.js:102-118 | computes exactly the parity shards that the encoding matrix defines |
| ReedSolomon.FirstPresent | lib/ReedSolomon.js:129-130 | the first k present shards, in order, or all of them if there are fewer |
| ReedSolomon.Reconstruct | lib/ReedSolomon.js:128-180 | refuses exactly when fewer than k slots are filled or two of the first k filled ones differ in length; otherwise, from shards of some data, gives that data and every parity shard back and leaves survivors alone; a data-only call leaves lost parity lost |
| ShardFrame.UnframeInvertsFrame | lib/Disperse.js:53-107 | a framed shard, with anything appended, reads back as good with exactly its fields, id and payload |
| ShardFrame.GoodBufferIsFrame | lib/Disperse.js:83-107 | a buffer read as good is the frame of the fields read from it, plus ignored bytes |
| ShardFrame.FrameLayout | lib/Disperse.js:53-82 | which octets of a frame hold the magic, the four identity octets, the lengths, the id, the hash and the payload, in both versions |
| ShardFrame.HashBinds | lib/Disperse.js:61-66 | two good version 2 shards with the same hash agree in every field, the id and the payload, or are a collision of the digest |
| ShardFrame.Frame | lib/Disperse.js:53-67 | the header filled in place makes a version 2 frame, whose hash covers identity, id and payload |
| ShardFrame.FrameV1 | lib/Disperse.js:71-82 | the header filled in place makes a version 1 frame, whose hash covers the payload |
| Disperse.ShardLen | lib/Disperse.js:116 | k shards of this length, at least 1, hold the archive |
| Disperse.SlicesConcat | lib/Disperse.js:117-124 | the zero-padded slices laid end to end and cut to the archive's length are the archive |
| Disperse.CutSlices | lib/Disperse.js:117-124 | the copying loop makes these slices, including slices past the archive's end |
| Disperse.EncodeShards | lib/Disperse.js:111-133 | succeeds exactly for 1 <= k <= n <= 255 and shard lengths of 32 bits, with the n framed shards of the dispersal; shard s reads back as good with index s, as version 1 without an id when that is asked for, and otherwise as version 2 under the given id of 16 bytes or the random one |
| Disperse.ParseGoodShards | lib/Disperse.js:138-142 | keeps exactly the buffers that read as good, in order |
| Disperse.GroupShards | lib/Disperse.js:147-154 | one group per id and geometry, in order of first appearance, the first shard of an index winning |
| Disperse.LargestGroup | lib/Disperse.js:147-157 | the first to appear of the groups that no other group exceeds; none exactly when no shard is good |
| Disperse.DominantGroup | lib/Disperse.js:160-164 | the id and geometry of that same group |
| Disperse.GoodShardsAppend | lib/Disperse.js:138-142 | the good shards of two lists in a row are those of the first and then those of the second |
| Disperse.FirstOfIndex | lib/Disperse.js:151 | of the shards of a key with one index the first is in its group, and no other |
| Disperse.TieGoesToTheEarlier | lib/Disperse.js:153-154 | a group whose first shard comes before that of the winner has fewer shards |
| Disperse.RebuildGroup | lib/Disperse.js:182-194 | refuses exactly a group of fewer than k indices; otherwise, from shards of some data, gives the data cut to the declared length |
| Disperse.DecodeShards | lib/Disperse.js:174-195 | a winning list of buffers, in any order and among any junk, decodes to the archive that was encoded; the three refusals are told apart as the source does |
| Disperse.HeldShardReads | lib/Disperse.js:83-107 | every shard of a dispersal reads as good under the dispersal's group key |
| Disperse.MembersAreHeld | lib/Disperse.js:147-157 | without forgeries the group of a dispersal is exactly the set of its shards that are there |
| Disperse.ShardsAloneWin | lib/Disperse.js:10-12 | any k different shards of a dispersal alone, in any order and repeated at will, are a winning list |
| Disperse.DispersalsNeverMix | lib/Disperse.js:143-157 | of two dispersals under different ids, of archives of one length in one geometry, the one with more shards, k at least, decodes to its own archive in any order |
| Repair.ReadingKeepsShards | lib/Disperse.js:206-231 | cutting a file to its declared payload changes nothing about how it parses, and only shards declared larger than an archive are lost |
| Repair.ReadExactly | lib/Disperse.js:206-231 | a file is read exactly when it has the magic, version 1 or 2, at most 2^31 declared payload bytes, and all of them; what is read is the header and that payload |
| Repair.ShardFileReads | lib/Disperse.js:206-231 | a file that holds a shard, padded or not, reads as exactly that shard |
| Repair.KeptIsGroup | lib/DisperseProcess.js:46-49 | keeping one buffer per index preserves a group and drops all others |
| Repair.ReadShards | lib/DisperseProcess.js:28-60 | returns the kept shards of the first largest group of what is read before a budget runs out, and never retains more than two archives and one shard |
| Repair.KeptWins | lib/DisperseProcess.js:52-60 | what is kept of a winning folder is still winning, with the same indices |
| Repair.KeptAreShards | lib/DisperseProcess.js:45-51 | what is kept of a winning folder are shards of the dispersal only |
| Repair.BudgetsSuffice | lib/DisperseProcess.js:28-38 | of a folder whose good shards are of one dispersal, what is read wins exactly when k different ones stand before the other files have cost four archives; so it wins in any order when k are there and the junk costs less |
| Repair.JunkStarves | lib/DisperseProcess.js:41-44 | behind 8193 files that cannot be read nothing is read, whatever is there |
| Repair.ShardsAreNoJunk | lib/DisperseProcess.js:42-50 | a folder of nothing but shards of an archive within the size limit costs no junk |
| Repair.WithinBudgets | lib/DisperseProcess.js:40-51 | a folder that keeps within both budgets is read in full, whatever dispersals it holds |
| Repair.Decode | lib/DisperseProcess.js:117-123 | a folder whose files win within the read budgets decodes to the archive; it fails exactly as there is no good shard among what is read, or as the first largest group lacks some, whatever the files' versions |
| Repair.Repair | lib/DisperseProcess.js:125-157 | every target with an index below n gets the original shard byte for byte, for both frame versions; other targets are skipped; and it fails as decoding does |
| Repair.WriteTargets | lib/DisperseProcess.js:143-155 | writes exactly the targets inside the geometry, in order |
| Repair.RepairRejoins | lib/DisperseProcess.js:129-136 | survivors and rebuilt shards have all n indices, and any selection of them with k different ones wins |
| Der.Len | lib/Der.js:16-21 | the loop writes the minimal base-256 digits, in short form below 0x80 |
| Der.LengthOctets | lib/Der.js:16-21 | one octet below 128; otherwise 128 plus the number of octets that follow, and the length in these, the first of them not zero |
| Der.ReadTLV | lib/Der.js:84-107 | the reading loop computes the element, or the first refusal in the source's order |
| Der.ReadInvertsWrite | lib/Der.js:16-22 | an element of less than 4 GiB reads back with its tag, content and exact end, whatever precedes and follows |
| Der.WriteInvertsRead | lib/Der.js:84-107 | every accepted element re-encodes to the same bytes: one encoding per value |
| Der.Children | lib/Der.js:111-117 | the loop returns the elements of the span, or its first error |
| Der.ChildrenOfFlatten | lib/Der.js:111-117 | a concatenation of elements is split into exactly these, in order |
| Der.ChildrenAreFlatten | lib/Der.js:111-117 | an accepted span is the concatenation of the elements returned |
| Der.SpanSplitsUniquely | lib/Der.js:108-117 | a span is accepted exactly when it is a concatenation of elements, and it is one in only one way |
| Der.Integer | lib/Der.js:31-37 | strips redundant zeros and adds a sign octet when needed |
| Der.IntegerMeaning | lib/Der.js:28-37 | the content has the value of the bytes, and is its minimal non-negative form exactly when there are any |
| Der.MinimalUnique | lib/Der.js:28-37 | there is only one minimal form per value |
| Der.SmallInt | lib/Der.js:39-44 | writes the minimal non-negative form of the number |
| Der.FlexibleMeaning | lib/Der.js:45-52 | keeps the value of a buffer and the low byte of a number, is never negative, and is minimal exactly when there is no redundant leading zero |
| Oid.Encode | lib/Der.js:54-64 | for every text, writes the further arcs in base 128 after a first octet that is cut to a byte; what is not a number is written as 0 |
| Oid.Base128Meaning | lib/Der.js:58-61 | an arc is its base-128 digits, all but the last with the top bit, and without leading zero digits |
| Oid.BodyOfDotted | lib/Der.js:54-64 | for dotted decimals below 2^53 that is the content of their arcs |
| Oid.DecodeOid | lib/Der.js:123-146 | the loop gives the text of the sub-identifiers, and no text for empty, truncated or non-minimal ones |
| Oid.DecodedText | lib/Der.js:118-146 | a byte string decodes to a given dotted text exactly when it is the one encoding of its arcs |
| Oid.DecodeInjective | lib/Der.js:118-146 | two different byte strings never give the same non-empty text |
| Oid.OidRoundTrip | lib/Der.js:54-64 | `decodeOid` inverts `oid` exactly when the first two arcs are valid and fit an octet with a clear top bit |
| Oid.OidTextRoundTrip | lib/Der.js:54-64 | on texts, exactly when also no number has leading zeros |
| Certificate.DerExtension | lib/Cert.js:87-92 | writes the OID, the octets 01 01 ff if critical, and the value as an octet string, as one sequence, for every OID text |
| Certificate.ReadExtension | lib/Attest.js:261-281 | walks to the extensions and returns the first with the wanted OID; anything malformed on the way gives null |
| Certificate.FoundExactly | lib/Attest.js:272-279 | of the extensions the first that is not another OID's decides: null when it is malformed or has no value, its flag set by the one octet ff only |
| Certificate.CertificateReads | lib/Cert.js:109-132 | a reader of the built certificate finds version 3, the serial number, sha256WithRSAEncryption inside and outside, one common name as issuer and subject, times, key, extensions, and the signature behind an octet 00 |
| Certificate.ReadInside | lib/Attest.js:263-271 | reading inside an element that holds a list of elements gives elements that hold that list |
| Certificate.BuildReadAgree | lib/Cert.js:109-132 | for every list of extensions built into a certificate, `certExtension` finds the first whose written OID decodes to the wanted text, its exact value and its flag, and null when there is none; when the OIDs survive the codec that is the first with the wanted OID |
| GeneralizedTime.CivilOfInstant | lib/Attest.js:93 | the fields of a valid calendar time come back from its instant |
| GeneralizedTime.InstantOfCivil | lib/Attest.js:92-94 | the fields of a whole second give that second again |
| GeneralizedTime.AcceptedTimes | lib/Attest.js:87-96 | a text is accepted exactly when it has the shape and names a time that exists, in a year from 100 on |
| GeneralizedTime.ValidIs | lib/Attest.js:93-95 | a calendar time exists exactly when its date does, by month lengths and the Gregorian leap rule, and its clock reads 00:00:00 to 23:59:59 |
| GeneralizedTime.Origin | lib/Attest.js:93 | 1 January 1970 is the instant 0 |
| GeneralizedTime.NextDayIsLater | lib/Attest.js:93 | the next day of the calendar, by month lengths and the leap rule, is 86 400 000 ms later |
| GeneralizedTime.DayNumber | lib/Attest.js:93 | every date has a number of days to or from 1 January 1970, counted one by one, and its instant is that many days |
| GeneralizedTime.AcceptedExactly | lib/Attest.js:87-96 | a text of the shape is accepted exactly when the date written in it exists, in a year from 100 on, and the clock time written in it does |
| GeneralizedTime.ParseCountsDays | lib/Attest.js:87-96 | an accepted text gives the days from 1970 to its date, its hours, minutes and seconds, and a fraction of at most 999 ms |
| GeneralizedTime.FractionStaysInSecond | lib/Attest.js:91 | a fraction, however its number rounds, never moves the time out of its second |
| GeneralizedTime.FieldsPrinted | lib/Der.js:75-78 | for a year of four digits, a text has the fields exactly when it is their printing |
| GeneralizedTime.PrintThenRead | lib/Der.js:78 | print, then read: the instant comes back exactly for the years 1000 to 9999 |
| GeneralizedTime.ReadThenPrint | lib/Attest.js:87-96 | an accepted fraction-free text of such a year is the printing of its result |
| Ipv6.Ipv4ToBig | lib/IpMatch.js:40-51 | the loop accepts exactly four octets and gives their number in base 256 |
| Ipv6.Ipv6ToBig | lib/IpMatch.js:54-82 | the loop gives the number of the eight expanded groups, or null as the source does |
| Ipv6.Ipv6ToBytes | lib/Cert.js:56-76 | the loop gives the octets of the eight expanded groups, or null as the source does |
| Ipv6.FullTextReads | lib/IpMatch.js:67-81 | eight groups written in full read as the number that they are the digits of |
| Ipv6.GapReads | lib/IpMatch.js:61-81 | a "::" stands for the zero groups that are missing, at least one; with eight groups written there is no number |
| Ipv6.ParsersAgree | lib/IpMatch.js:54-82 | whatever `ipv6ToBig` accepts, `ipv6ToBytes` accepts, and its 16 octets are the same integer |
| Ipv6.BytesAcceptsMore | lib/Cert.js:56-76 | what `ipv6ToBytes` accepts, `ipv6ToBig` accepts exactly without brackets, zone, upper-case digits, and a "::" for no group |
| IpMatch.V4PartialToCidr | lib/IpMatch.js:105-121 | the loop takes the leading concrete octets and refuses a concrete octet after a wild one |
| IpMatch.IpBound | lib/IpMatch.js:85-90 | an address is a number of its family's width |
| IpMatch.CidrMatches | lib/IpMatch.js:133-146 | an address matches a CIDR rule exactly when it is of the same family and lies in the aligned block of size 2^(bits - prefix) |
| IpMatch.CompletedReads | lib/IpMatch.js:120 | the rule that a partial address is rewritten to reads as the block of the addresses that begin with its octets |
| IpMatch.WildcardMatches | lib/IpMatch.js:103-121 | a wildcard or partial rule matches exactly the IPv4 addresses whose leading octets are its concrete ones |
| IpMatch.PartialMatches | lib/IpMatch.js:103-121 | a partial rule as written, with or without a last dot, matches exactly the IPv4 addresses with its octets, and nothing when a "*" comes first or before an octet |
| IpMatch.ExactMatches | lib/IpMatch.js:124-146 | an exact address rule of either family matches exactly the addresses that read as the same |
| IpMatch.WrittenCidrMatches | lib/IpMatch.js:92-101 | an address, "/" and one to three digits up to 32 or 128 match exactly the aligned block of that address in its family; any other such text matches nothing |
| IpMatch.Folding | lib/IpMatch.js:20-37 | of the addresses that `ipv6ToBig` accepts once trimmed, lower-cased and without zone, those with the prefix "::ffff:" are taken for IPv4 exactly when they denote an IPv4-mapped address and refused exactly when they do not and have a dotted tail; every other one stays IPv6 with its number |
| IpMatch.MappedValue | lib/IpMatch.js:54-82 | the dotted "::ffff:" form denotes the mapped address of its tail |
| IpMatch.TranslatedIsRefused | lib/IpMatch.js:23-25 | "::ffff:0:" before an IPv4 address is IPv6 text with its number, and is refused |
| IpMatch.DottedFolds | lib/IpMatch.js:24-25 | the dotted "::ffff:" form is taken for its IPv4 tail |
| IpMatch.FoldedMatches | lib/IpMatch.js:20-37 | a folded address, in whatever case and with whatever tail and zone, matches exactly the rules that the dotted IPv4 form of its number matches |
| IpMatch.DottedFoldedMatches | lib/IpMatch.js:24-25 | and the dotted form exactly those that its tail as written matches |
| IpMatch.FullFormIsNotFolded | lib/IpMatch.js:24-37 | the full form of a mapped address reads as the same number but stays IPv6 |
| IpMatch.ParseableIsParsed | lib/IpMatch.js:154 | `isParseable` and `parseIp` accept the same addresses |
| IpMatch.LoopbackAddresses | lib/IpMatch.js:152 | the exempt addresses are 127.0.0.0/8 and ::1 |
| IpMatch.Admitted | lib/IpMatch.js:158-169 | who is let in: exempt loopback, everyone without lists, and otherwise exactly the addresses that parse, match no deny rule, and match some allow rule if there are any |
| IpMatch.ListedAlone | lib/IpMatch.js:158-169 | an allow list of one exact address lets in exactly that address; a deny list of one shuts out exactly that one and what does not parse |
| FileLock.LockFile.Turn | lib/FileLock.js:67-80 | a turn of the acquire loop creates the file exactly when there is none, turns to reclaiming exactly what looks stale, and otherwise waits for a birth or a holder |
| FileLock.LockFile.TakeAway | lib/FileLock.js:80-90 | renaming aside and rechecking discards the file exactly when it is still stale, and puts a fresh record back |
| FileLock.ReclaimIsBothHalves | lib/FileLock.js:80-90 | an uninterrupted reclaim is these two halves |
| FileLock.LockFile.WriteRecord | lib/FileLock.js:70 | the record reaches the lock only if the created file is still there |
| FileLock.LockFile.Beat | lib/FileLock.js:98-106 | refreshes the timestamp of a record under its own nonce, and leaves any other file alone |
| FileLock.LockFile.Drop | lib/FileLock.js:109-111 | removes a record under its own nonce, and leaves any other file alone; the process is idle after |
| FileLock.ReclaimedExactly | lib/FileLock.js:71-80 | what can be reclaimed: an empty file of 3 seconds, a record not refreshed for more than 30, or one whose process is gone from the same host |
| FileLock.AcquireHolds | lib/FileLock.js:66-70 | who creates the file and writes its record holds the lock under its own nonce |
| FileLock.BeatKeepsFresh | lib/FileLock.js:98-106 | after a beat nobody can reclaim the holder's record for 30 seconds |
| FileLock.ReleaseFrees | lib/FileLock.js:109-111 | a release removes its own record, and every idle process can create the file then; any other file stays as it is |
| FileLock.ReleaseLetsNextIn | lib/FileLock.js:60-111 | in every run without a discarded birth, after a holder's release the next turn of any idle process creates the file |
| FileLock.StepKeepsInv | lib/FileLock.js:60-111 | every step keeps the file with whoever has opened or holds the lock, unless it discards a live birth |
| FileLock.StaleIsFree | lib/FileLock.js:28-33 | a stale record has no live holder |
| FileLock.CommitExactly | lib/FileLock.js:80-90 | an interrupted reclaim keeps the invariant exactly when it does not discard a live birth |
| FileLock.MutualExclusion | lib/FileLock.js:60-122 | over whole runs with any processes, crashes, beats and reclaims at most one live process holds the lock, as long as no live birth is discarded |
| FileLock.AtomicMutualExclusion | lib/FileLock.js:60-122 | which is so in every run whose reclaims are not interrupted |
| FileLock.DiscardLetsTwoIn | lib/FileLock.js:80-90 | discarding a live birth always lets two processes in within three more steps |
| FileLock.DiscardHappens | lib/FileLock.js:66-90 | a run in which an interrupted reclaim meets a live birth, all deadlines kept |
| FileLock.StepKeepsNumbered | lib/FileLock.js:60-111 | every step, timely or not, keeps nonces and identities apart, also after exclusion has been lost |
| FileLock.OrphanStays | lib/FileLock.js:98-111 | nobody refreshes a crashed process's file: every step leaves it as it is or frees it, whoever else holds the lock |
| FileLock.OrphanIsReclaimable | lib/FileLock.js:28-33 | once TTL_MS have passed any acquirer frees it and can create its own |
| FileLock.DeadIsSeen | lib/FileLock.js:28-33 | on the crashed process's host anyone frees it at once, unless the pid is in use again |
| FileLock.OrphanOverRuns | lib/FileLock.js:60-95 | in every run, whatever its timing and whether or not exclusion has been lost, the file of a process that has crashed has been freed or can be freed by anyone after TTL_MS |
| Semaphore.Semaphore.Run | lib/Common.js:185-190 | starts a task while a slot is free, and queues it otherwise |
| Semaphore.Semaphore.Release | lib/Common.js:184 | frees the slot and hands it to the task that waits longest |
| Semaphore.StartedExactly | lib/Common.js:181-191 | after any history exactly the first limit + (number settled) arrivals have been started, in order of arrival |
| Semaphore.LimitRespected | lib/Common.js:181-191 | never more than the limit run, none waits while a slot is free, and each slot is freed once, also on rejection |
| MapLimit.Mapper.OnFulfilled | lib/Common.js:171 | puts the result in its place and takes the next index |
| MapLimit.ApplyKeepsInv | lib/Common.js:166-174 | no index is called twice or skipped, and no two workers wait for the same one, in every interleaving |
| MapLimit.CalledExactlyOnce | lib/Common.js:166-174 | calls are made in order, at most once per index, by no more workers than the limit; and when all are done, exactly once with every result in |
| MapLimit.AllBusy | lib/Common.js:169-172 | as many workers as limit and list allow, at least one, and all of them wait for a call while an index is left and nothing was rejected |
| MapLimit.ResultsKeepOrder | lib/Common.js:171-173 | what is fulfilled for an index is its result to the end |
| SerialQueue.ChainIsSerial | lib/Common.js:746-753 | the chain of promises calls one function at a time, in order, and goes on after a rejection as after a fulfilment |
| SerialQueue.SerialQueueByKey.Enqueue | lib/Common.js:762-767 | puts the task on the key's live queue, or on a new one when there is none |
| SerialQueue.SerialQueueByKey.Account | lib/Common.js:766 | removes a queue from the map exactly when it is the key's and nothing is pending |
| SerialQueue.ApplyKeepsInv | lib/Common.js:746-769 | every event, its guard being that of the promise chain, keeps the queues in step with what has arrived, begun, finished and been accounted for |
| SerialQueue.OneAtATimeInOrder | lib/Common.js:754-769 | in every interleaving tasks of a key begin in order of arrival, one at a time; the map holds exactly the keys with work; no key has two queues with work |
| SerialQueue.QueueProgresses | lib/Common.js:746-753 | a key with work can always make a step, whatever failed before and whether the running task is fulfilled or rejected |
| HolePunch.Punch.OnConnect | lib/HolePunch.js:93 | the first connect of an unresolved attempt wins, or is destroyed after settling |
| HolePunch.Punch.OnFailure | lib/HolePunch.js:87-94 | an error or timeout resolves the attempt once and schedules one retry |
| HolePunch.Punch.Dial | lib/HolePunch.js:79-95 | an attempt dials, gives up at the deadline or the attempt limit, or schedules a retry when the dial throws |
| HolePunch.ApplyInv | lib/HolePunch.js:70-98 | while unsettled there is exactly one unresolved socket or one pending retry, and all other sockets are destroyed |
| HolePunch.PunchIsSafe | lib/HolePunch.js:70-98 | in every ordering: resolved at most once, at most one undestroyed socket, at most PUNCH_MAX_ATTEMPTS opened, and a returned socket is never destroyed |
| HolePunch.SettledForGood | lib/HolePunch.js:75-80 | after settling the result stays and nothing more is opened |
| HolePunch.DeadlineSettles | lib/HolePunch.js:76-77 | until it settles the deadline timer is set, and its firing settles |
| HolePunch.ConnectWins | lib/HolePunch.js:75-93 | while unsettled a socket that connects is the current one and is returned |
| HolePunch.FailureRetries | lib/HolePunch.js:87-94 | while unsettled a failed attempt leaves the promise unresolved with one retry pending, which dials again below 64 attempts |
| HolePunch.NullExactly | lib/HolePunch.js:76-80 | the promise is resolved with null exactly by the overall timer, by a retry past the deadline, or by a retry after 64 attempts |
| HolePunch.FirstAttempt | lib/HolePunch.js:79-96 | the first attempt opens one socket, or waits to retry when the dial throws, or is too late |
| Fleet.Alerts.DetectTransitions | lib/Fleet.js:236-248 | one poll over the fleet, pruning nodes that are gone |
| Fleet.SweepIsPerNode | lib/Fleet.js:238-246 | each node's machine sees exactly its own observation, and a transition is reported exactly for those that make a change |
| Fleet.MonitorMeaning | lib/Fleet.js:233-246 | the pending status and its count are the run of equal observations that ends the sequence |
| Fleet.MachineMeaning | lib/Fleet.js:228-246 | the machine's status is that of the latest SUSTAIN_POLLS observations in a row that agreed, or the first one |
| Fleet.PollsArePerNode | lib/Fleet.js:236-248 | over successive polls, pruning included, an enrolled node's machine and transitions are those of its own observations since it was enrolled |
| Fleet.ReportedExactly | lib/Fleet.js:228-248 | over successive polls a change to s is reported exactly when the node's last SUSTAIN_POLLS observations since it was enrolled are all s and s is not the durable status; the first observation reports nothing |
| Fleet.ChangesChain | lib/Fleet.js:228-246 | reported changes chain end to end from the first observation to the durable status |
| ZipBudget.Guard.CountNodes | lib/Extract.js:94-101 | refuses exactly when the content's '<' and '=' exceed what is left of the node budget |
| ZipBudget.Guard.Vet | lib/Extract.js:110-146 | charges the real content of an entry once per data offset, or refuses |
| ZipBudget.WithinBudget | lib/Extract.js:84-174 | both walks end on every buffer, and accept exactly when every entry they reach can be vetted within the budgets |
| ZipBudget.VetAllKeeps | lib/Extract.js:110-146 | vetting a list of entries keeps the budgets exact, and the data offset of every entry has been charged, but for stored entries whose size only a descriptor gives |
| ZipBudget.AcceptedIsWithinBudget | lib/Extract.js:64-83 | over both walks of an accepted archive the charges fit the byte and node budgets, one for each distinct data offset and each the real content of an entry with that offset; visits are at most ZIP_MAX_ENTRIES, and the data offset of every entry is charged but for stored ones whose size only a descriptor gives |
| ZipBudget.ChargedExactly | lib/Extract.js:125 | the own content of a reached entry is charged exactly when the first sized entry with its data offset has the same content |
| ZipBudget.AllChargedExactly | lib/Extract.js:64-83 | every reached entry's own content is charged exactly when entries with one data offset have the same content, as they do when they agree in method and stored size |
| ZipBudget.NestedHeaderUncharged | lib/Extract.js:110-146 | an archive whose first entry, stored and empty, holds in its name the header of a deflated entry with the same data offset is accepted with an empty charge, whatever that entry inflates to |
| ZipBudget.NestedHasTheShape | lib/Extract.js:147-172 | there is such an archive |
| ZipArchive.OrdinaryExactly | lib/Extract.js:84-174 | an archive of stored or deflated members, laid out octet by octet, with or without data descriptors and a comment, is accepted exactly when its contents come to at most 134 217 728 bytes and 12 000 000 '<' and '=', and both walks to at most 8192 headers; it is charged for exactly its contents, in order, whatever sizes its local headers declare for them |
| ZipArchive.SmallIsArchive | lib/Extract.js:147-172 | there is such an archive |
| Html.NoTagsLeft | lib/Extract.js:29-44 | no '<' is left before entities are decoded |
| Html.BodyRun | lib/Extract.js:40-41 | nothing of a script or style body is kept, up to its closing tag or the end |
| Html.BodySkipped | lib/Extract.js:40-41 | a "<script" or "<style" in letters of any case is left out with all that follows, up to the next closing tag of that name or the end |
| Html.TagSkipped | lib/Extract.js:42-43 | any other tag is left out up to the first '>' or the end |
| Html.TextStep | lib/Extract.js:36-37 | every character outside a tag is kept |
| Html.Turn | lib/Extract.js:34-43 | one turn moves on by what it puts out for, and looks at no more characters than thirty times that distance |
| Html.Scan | lib/Extract.js:29-44 | the scan gives the tokenizer's text, cut short only once the cap is reached and never going on past it, and looks at a number of characters linear in the input |
| Html.DecodeTwice | lib/Extract.js:45-48 | two replacements in a row are one replacement of both, as long as the first puts in nothing that the second could take for a part of an entity |
| Html.EntitiesDecodedOnce | lib/Extract.js:45-48 | the chain of replacements decodes every entity once and none that only decoding has put together |
| Html.EntityMeaning | lib/Extract.js:45-48 | which text each entity stands for, from left to right; everything else stays |
| Decoy.FindSlot | lib/SlotRegistry.js:88-92 | the first slot that opens and matches, after trying every slot whatever is found |
| Decoy.FirstMatchIsFirst | lib/SlotRegistry.js:88-92 | the slot found opens with the key and matches, and no slot before it does |
| Decoy.Shuffle | lib/SlotRegistry.js:94 | a permutation of the slots, for all random picks |
| Decoy.ManagerOpens | lib/Decoy.js:51-63 | the manager's key opens the list of pairings, and no other key does |
| Decoy.ResolveIsLookup | lib/Decoy.js:158-178 | a vault resolves to a decoy exactly when the list pairs them under the password's key, wherever the slots were shuffled |
| Decoy.Store.Rebuild | lib/Decoy.js:70-80 | the new record means exactly the given list; a payload that does not fit, or more than 15 pairings, is refused and changes nothing |
| Decoy.Store.SetDecoy | lib/Decoy.js:88-116 | only success changes anything, and then only the pairing of this vault; the manager password is set on first use and is the only one that opens the registry after; the refusals are exactly the source's |
| Decoy.Store.RemoveDecoy | lib/Decoy.js:121-139 | removes only this vault's pairing, and the registry with the last one, under the same manager key; a wrong password and a missing registry look the same, and the refusals are exactly the source's |
| Decoy.Store.ResolveDecoy | lib/Decoy.js:158-178 | in every state gives the decoy exactly when the logical map has it under this password's key |
| Decoy.EpochCounts | lib/Decoy.js:65-86 | while the registry is not emptied the epoch counts the writes |
| Decoy.KeptIsSerial | lib/Decoy.js:65-86 | then a pairing or a removal that commits is what it would have been computed to be at the moment of writing |
| Decoy.CreationIsSerial | lib/Decoy.js:103-115 | and so is a pairing that makes the registry, whatever was made and emptied in between |
| Decoy.SerializableExactly | lib/Decoy.js:65-86 | with fresh salts, all successful changes of interleaved processes are as if computed at the moment of writing exactly when none is written to a registry made since it was computed, and exactly when every writer finds the salt that it has read |
| Decoy.EmptyingLosesAnUpdate | lib/Decoy.js:121-139 | when the registry is emptied and made anew by another manager, with a fresh salt, a stale change still commits, the history is not serializable, and the new manager's pairing and password are gone |

## Left out

- Numbers beyond 2^53: an original length, a length or the sum of an OID's first two arcs is an exact integer here, where the source's double loses digits.
- SHA-256, Argon2id, HKDF, AES-GCM, RSA and zlib: arbitrary functions, with only a digest's length and a slot's key known.
- Forged shards: `Disperse.Genuine` supposes that no good shard carries a dispersal's id and geometry without being one of its shards; version 1 shards, which carry no id, are told apart by geometry alone.
- ReedSolomon.Reconstruct: the shards are a sequence and not an array that is filled in place.
- Disperse.LargestGroup: the groups are values in a map and not maps that are filled in place.
- Shard directories: atomic writes, progress reports, the encode and inspect operations and file names.
- Oid.Encode: parts that JavaScript reads as a negative, fractional or infinite number.
- `utcTime`, `time`, strings and the other one-line encoders of `lib/Der.js`, which would add easy members.
- Certificate validation, signed attributes, chain building and timestamp requests of `lib/Attest.js`.
- Subject alternative names and key generation of `lib/Cert.js`; times and keys enter the certificate as given elements.
- GeneralizedTime.Parse: the rounding of a fraction is any function, capped as the source caps it.
- Unicode: case folding is that of ASCII letters in `IpMatch` and `Html`, so texts whose folding changes their length are not covered.
- `parseList` of `lib/IpMatch.js` and address strings that are not strings.
- FileLock: renaming aside and rechecking are one step, as are a beat's and a release's read and write; finer interleavings, clock differences between hosts, and the sweep of temporary files are not modelled.
- FileLock.MutualExclusion: supposes that a live acquirer writes its record within 3000 ms and that a live holder's record is never older than TTL_MS.
- Html: white space collapsing and trimming after the entities are decoded.
- The readers of documents in `lib/Extract.js`, the tunnels and probes of `lib/HolePunch.js`, the polling of `lib/Fleet.js`.
- Decoy: path resolution, fingerprints, timing, backups and damaged registry files; the check of the epoch and the write are one step.
- Commands, the web interface, drivers, workers and start-up code.
