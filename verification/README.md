# Verified models of the openssl command-line tools

A Dafny model of the parts of the `openssl` command-line tools (OpenSSL 1.1.1k)
that carry state, invariants or encodings of their own, with proofs about every
input, every run or every reachable state. `dafny verify dfyconfig.toml` checks
everything; no file depends on anything outside this directory.

What is modelled, module by module:

- **The certificate authority** (`openssl ca`). `SerialNumbers`,
  `RevocationInfo` and `TextDatabase` are the encodings: serial numbers in
  hexadecimal and their comparison, revocation entries, and the text form of the
  database. `CaDatabase` is the loaded database with its two indexes, updated in
  place by issuing, revoking and expiring; `DatabaseInvariant` proves what every
  sequence of operations keeps. `CommitProtocol` is the disk, one system call at a
  time, each of which may fail, with the save and rotate routines and their roll
  back. `IssuingRuns` puts whole runs together and `CaHistory` proves the main
  theorem: over any sequence of issuing, revoking and expiring runs, each stopped
  after any call, serial numbers in the index stay below the number in the serial
  file, which never goes back. `CommitLimits` shows exactly where this ends.
  `IndexHistory` proves what the index holds in all those states, and `CaReloads`
  and `ReloadLimits` when it still loads, for single runs and for histories.
  `SubjectPolicy` is the policy loop that builds the subject of a certificate.
- **Hash links** (`openssl rehash`). `RehashBuckets` is the table of linked
  buckets and entries, `RehashIds` the pass that numbers the links with a bitmap.
- **The OCSP responder's process pool**: `ResponderPool`.
- **Streams and texts**: `PrefixFilter` (a prefix in front of each line, over a
  sink with short writes), `NextProtos` (the protocol list of section 3.1 of
  RFC 7301), `NameParser` (escaped distinguished names), `PasswordEncoding`
  (crypt-style digests as text).
- **Options**: `OptionParser` (the command-line parser), `SignerPairing`
  (`-signer`, `-inkey` and `-keyopt` of `openssl cms`), `ExtraCerts` (the doubly
  linked list of extra certificates).

Conventions. What the tools ask of libcrypto (time syntax, object lookup, value
encodings, numeric and format checks) is a function parameter, and all statements
hold for every such function. What the operating system decides (failing renames
and writes, short writes, process ids, signals) is an oracle indexed by the number
of calls made so far, and all statements hold for every oracle unless a hypothesis
on it is written out. Loops that work by changing variables, arrays or objects are
methods whose contracts tie the new state to a function of the old one; what the
source promises is then proved about that function, and what the outcome means
is stated without it, either in the contract or in a lemma beside it. Integers
are unbounded; the one wrap-around that matters, the 32-bit sum in `rehash`, is
written out. Where the code and its documentation differ, the code is followed.

Properties that turned out not to hold in general are stated with the exact
condition under which they do:

- A revocation entry is read back if and only if its time is a UTCTime
  (`RevocationInfo.RoundTrip`).
- A database written as text is read back if and only if no field has a line
  break, the first does not start with `#` and none but the last ends in a
  backslash (`TextDatabase.TextRoundTrip`, `TextDatabase.FinalBackslashLosesRow`,
  `DatabaseInvariant.HoldBackslashLosesRow`).
- Serials are compared as numbers if and only if the digits behind their zeros
  are spelled in the same case, and a lookup finds a row if and only if the row's
  serial denotes the number asked for and is in upper case behind its zeros
  (`SerialNumbers.CompareInAnyCase`, `SerialNumbers.LowerCaseBreaksComparison`,
  `DatabaseInvariant.LookupIsNumeric`).
- The roll back after a failed rotation restores the attributes if and only if
  they existed or no old copy of them did (`CommitProtocol.RollBackRestores`).
- After a run that was cut off anywhere, the number left in the serial file
  decides: if it is the one that run started from, the next completed run writes
  the same certificate file again; if it is larger, no run ever touches that file;
  without a number nothing is issued (`CommitLimits.ReissuedByNumberLeft`,
  `CommitLimits.StoppedRunReissues`).
- A serial file cut short by an unnoticed write error is harmless if and only if
  its number is not below the next serial (`CommitLimits.ShortSerialWrite`).
- An index that is there loads in every state of every history if and only if
  there is none to begin with, or it loads and the attributes agree with the
  configured default, where the old copy of the attributes counts only while they
  are missing. A single run that saves something always leaves an index that
  loads if and only if the attributes agree in this sense or the valid names are
  unique, by force or by chance, in the rows it finds and in those it saves
  (`ReloadLimits.EveryHistoryReloadsIff`, `ReloadLimits.RunReloadsIff`). It fails
  in two ways: the attributes are missing for a moment, or for good after two
  failed renames, and the default is stricter (`ReloadLimits.LeavesMoved`,
  `ReloadLimits.LeavesOld`); or there were none, and a failed rename makes a stale
  old copy the attributes (`ReloadLimits.LeavesStale`).
- Rows of the index are never lost and revocations never undone as long as no save
  loses, in closing the file, rows that were there; a run that keeps only so many
  rows leaves an index that evolves from the one found if and only if these are no
  fewer than it found (`IndexHistory.EveryHistoryEvolves`,
  `IndexHistory.LostFlushDrops`).
- Revoking a certificate that is not in the index keeps serials below the number
  if and only if its own serial, of either sign, is (`CaHistory.RevokeKeepsBelow`).
- Link ids are exactly 0 to n-1 if and only if needed files do not share a low id
  and a low id of an unneeded file also belongs to a needed one
  (`RehashIds.ExactIffNumberable`, `RehashIds.StaleLinkKeepsIdZero`).
- The search for free link ids stays inside its bitmap if and only if there are at
  most 256 needed files and, together with the ids already marked, those that
  need a new id are at most 256 (`RehashIds.FitsByCount`,
  `RehashIds.CrowdLeavesBitmap`).
- The limit of 256 needed files per bucket is passed exactly when a known file
  becomes needed in a full bucket, which does happen
  (`RehashBuckets.LimitPassedIff`, `RehashBuckets.LimitIsPassed`).
- Names keep the components they are written with if and only if no item follows
  `+` behind skipped items only (`NameParser.ComponentsKeptIff`,
  `NameParser.SkippedTypeJoins`).
- `-x=v` and `-x v` mean the same if and only if the word is reached as an option
  (`OptionParser.SplitIff`).

## Model

| member | source | states |
|---|---|---|
| SerialNumbers.IndexSerialCompare | src/apps/apps.c:1342-1350 | two serials compare equal exactly when they agree after their leading zeros, whatever their lengths |
| SerialNumbers.IndexSerialHash | src/apps/apps.c:1332-1340 | the hash is that of the serial without its leading zeros |
| SerialNumbers.EqualNumbersHashEqually | src/apps/apps.c:1332-1350 | upper-case serials of the same number hash equally, whatever the hash function |
| SerialNumbers.CompareIsNumeric | src/apps/apps.c:1342-1350 | on upper-case hexadecimal the comparison is equality of the numbers denoted |
| SerialNumbers.CompareInAnyCase | src/apps/apps.c:1342-1350 | in any case, two serials compare equal if and only if they denote the same number and the digits behind their zeros are spelled in the same case |
| SerialNumbers.KeyMatches | src/apps/apps.c:1342-1350 | an upper-case key matches a serial of any sign and case if and only if that denotes the same number and is in upper case behind its zeros |
| SerialNumbers.LowerCaseBreaksComparison | src/apps/apps.c:1342-1350 | `0a` and `0A` denote the same number and compare different |
| SerialNumbers.BuildStatusKey | src/apps/ca.c:2157-2191 | the row buffer of a status query holds the typed text padded to even length and upper-cased |
| SerialNumbers.StatusKeyDenotes | src/apps/ca.c:2157-2191 | whatever the case typed, the key is upper-case and denotes the number typed |
| SerialNumbers.SerialTextDenotes | src/apps/ca.c:2062-2084 | the stored serial is upper-case hexadecimal of even, non-zero length and denotes the certificate's serial number |
| SerialNumbers.BytesToHexValue | src/apps/ocsp.c:1266-1285 | the responder's and `ca`'s hexadecimal printing of a number denotes that number |
| RevocationInfo.MakeRevocationStr | src/apps/ca.c:2299-2381 | the printer, which sizes a buffer and fills it piece by piece, truncates nothing: it gives time, reason and argument joined by commas, or refuses an unknown reason, a bad object or a bad time |
| RevocationInfo.UnpackRevinfo | src/apps/ca.c:2486-2595 | the parser, which cuts a copy in place at its commas, reads what stands before, between and after the first two commas |
| RevocationInfo.CutAtCommas | src/apps/ca.c:2486-2595 | overwriting the first two commas with terminators leaves just the three pieces as C strings |
| RevocationInfo.RoundTrip | src/apps/ca.c:2299-2381 | for every accepted type and argument, parsing the printed text succeeds if and only if the time is a UTCTime, and then gives the same time, the reason code of section 5.3.1 of RFC 5280 and the same object or time of compromise, commas in it included |
| RevocationInfo.AcceptedIff | src/apps/ca.c:2299-2345 | the printer accepts exactly the eight reasons by name in any case, known hold objects, and times of compromise that are GeneralizedTimes |
| RevocationInfo.InterpretMeans | src/apps/ca.c:2519-2581 | the parser accepts, for any pieces, exactly a UTCTime alone or with a reason that has a name, with a known object behind a hold and a GeneralizedTime behind a compromise, and gives the reason code of section 5.3.1 of RFC 5280 |
| TextDatabase.TextRoundTrip | src/crypto/txt_db/txt_db.c:20-235 | written rows are read back as they were if and only if every row is storable |
| TextDatabase.StorableRoundTrip | src/crypto/txt_db/txt_db.c:190-235 | storable rows survive escaping, writing, splitting into lines and fields, and unescaping |
| TextDatabase.ReadImage | src/crypto/txt_db/txt_db.c:20-128 | whatever text is read, the rows that come out are storable |
| TextDatabase.CutReadsFewer | src/crypto/txt_db/txt_db.c:54-75 | a readable text that is cut off at any place reads as the first of its rows |
| TextDatabase.LineReadIff | src/crypto/txt_db/txt_db.c:76-128 | a line of any number of fields is read exactly when there are six, or a seventh that is empty |
| TextDatabase.CommentsSkipped | src/crypto/txt_db/txt_db.c:54-75 | lines that start with `#` are passed over |
| TextDatabase.FinalBackslashLosesRow | src/crypto/txt_db/txt_db.c:20-128 | a revocation entry that ends in a backslash swallows the separator behind it |
| CaDatabase.CheckRows | src/apps/ca.c:631-676 | the load check accepts exactly when each row that is not revoked has no revocation date, each revoked one a readable one, expiry dates parse, and serials are an even, non-zero number of hexadecimal digits behind an optional sign |
| CaDatabase.Database.IndexSerials | src/crypto/txt_db/txt_db.c:150-188 | building the serial index succeeds exactly when serials are unique, and then finds every row |
| CaDatabase.Database.IndexNames | src/apps/apps.c:1352-1365 | the name index is built over valid rows only and succeeds exactly when their names are unique |
| CaDatabase.Database.CreateIndexes | src/apps/apps.c:1604-1624 | both indexes are built, the name index only when subjects must be unique |
| CaDatabase.Database.Issue | src/apps/ca.c:1758-1882 | a certificate is added as a valid row exactly when its name, if that matters, and its serial are free; the insertion after the two searches cannot fail |
| CaDatabase.Database.InsertRow | src/crypto/txt_db/txt_db.c:237-295 | insertion fails on a clash in either index and otherwise updates both |
| CaDatabase.Database.DoRevoke | src/apps/ca.c:2051-2155 | a known certificate is marked in place unless it is revoked already; an unknown one is added first; after a refusal the rows are as before or have just the added row |
| CaDatabase.Database.DoUpdateDb | src/apps/ca.c:2224-2272 | row by row: without a valid row whose expiry date does not parse, just the valid rows whose date has passed become type E and are counted, so that none is left, and with a count of 0 nothing changes; otherwise it fails with just the rows before the first such row updated |
| CaDatabase.Database.CertificateStatus | src/apps/ca.c:2157-2222 | a status query gives the type of the row with the number typed |
| CaDatabase.RevokeAfterInsert | src/apps/ca.c:2062-2121 | adding an unknown certificate and revoking again is the same as revoking it at once |
| CaDatabase.InsertMeans | src/apps/ca.c:1758-1882 | issuing is refused exactly when the serial is in use or the name, which is the serial if the subject is empty, is taken; otherwise one row is appended, valid, with the expiry date, the name and a serial that denotes the certificate's number |
| CaDatabase.RevokeKnown | src/apps/ca.c:2128-2155 | revoking a serial in the database succeeds exactly when the name is the same, the row is not revoked and there is something acceptable to revoke with; then just this row changes, to type R with the printed entry |
| CaDatabase.RevokeUnknown | src/apps/ca.c:2084-2126 | revoking a serial not in the database succeeds exactly when its name is free and the entry can be printed; then one row is appended, revoked with that entry, or valid if only that was asked |
| CaDatabase.RevokedReadsBack | src/apps/ca.c:2051-2155 | after a revocation the serial leads to a revoked row whose entry is parsed as the time, the reason code of section 5.3.1 of RFC 5280, and the object or time of compromise that were asked for |
| DatabaseInvariant.InsertKeeps | src/apps/ca.c:1758-1882 | issuing keeps the invariant and changes no existing row |
| DatabaseInvariant.RevokeKeeps | src/apps/ca.c:2051-2155 | revoking keeps the invariant; rows only evolve |
| DatabaseInvariant.ExpireKeeps | src/apps/ca.c:2224-2272 | expiring keeps the invariant; rows only evolve |
| DatabaseInvariant.EveryRunKeeps | src/apps/ca.c:1758-1882 | after any sequence of actions: rows pass the load check, serials are unique, names are unique among valid rows if asked for, existing rows keep serial, name and expiry, revoked rows stay revoked with their text, and no row becomes valid again |
| DatabaseInvariant.EveryRunReloads | src/apps/ca.c:631-676 | after any sequence of actions on plain texts the written database is read back as the same rows, passes the load check and can be indexed again |
| DatabaseInvariant.SavedReadsBack | src/apps/apps.c:1626-1670 | a saved database is read back as the same rows if and only if its rows are plain |
| DatabaseInvariant.HoldBackslashLosesRow | src/apps/ca.c:2299-2381 | revoking with a hold instruction that ends in a backslash writes a database that is not read back as it was |
| DatabaseInvariant.LookupIsNumeric | src/apps/apps.c:1332-1350 | an upper-case key finds a row if and only if the row's serial denotes the number of the key and is in upper case behind its zeros; nothing is asked of the other rows |
| DatabaseInvariant.LookupsFindTheNumber | src/apps/ocsp.c:1266-1285 | the same for revocation and responder lookups by number, and for status queries typed in any case and with any leading zeros |
| CommitProtocol.Disk.SaveSerialFile | src/apps/apps.c:1418-1466 | the new serial file is opened and written, nothing else is touched, and a failed write goes unnoticed |
| CommitProtocol.Disk.RotateSerialFile | src/apps/apps.c:1468-1509 | the two renames and the roll back of the first when the second fails: the number is on disk after every call, under its name or as the old copy; success, exactly when the name fits, the new file exists and neither call fails, puts the new file in place and keeps the previous one as old |
| CommitProtocol.SerialSwapped | src/apps/apps.c:1468-1509 | the exact condition for swapping the serial file, and the disk it then leaves |
| CommitProtocol.SerialRolledBack | src/apps/apps.c:1489-1500 | when the first rename fails nothing changes; when the second does and the third does not, the serial file is back and only an earlier old copy is gone |
| CommitProtocol.Disk.SaveIndexFiles | src/apps/apps.c:1626-1670 | database and attribute file are written under their new names and nothing else is touched; a write that is reported as failed stops, one that loses data when the file is closed does not, and then any number of the rows is left |
| CommitProtocol.Disk.RotateIndexFiles | src/apps/apps.c:1672-1736 | the four renames with all their roll backs, call by call: the database is on disk after every call, and success puts the new pair in place |
| CommitProtocol.IndexNeverLost | src/apps/apps.c:1672-1736 | if the database exists, its bytes are under its name or its old name after every call, whichever forward or roll-back renames fail |
| CommitProtocol.RotationSucceeds | src/apps/apps.c:1672-1736 | rotation succeeds exactly when the names fit, both new files exist and no rename fails, and then the new pair is in place and the previous one kept as old |
| CommitProtocol.RollBackRestores | src/apps/apps.c:1672-1736 | if just one forward rename fails, database and both new files are as before, and so are the attributes exactly when they existed or no old copy of them did |
| IssuingRuns.CertifyRequests | src/apps/ca.c:879-952 | certifying requests in order against the live database computes the batch, giving out consecutive numbers and stopping at the first failure |
| IssuingRuns.WriteCertificateFiles | src/apps/ca.c:985-1039 | the files are written one after the other; this succeeds exactly when no call that opens one fails, and then, for distinct paths, every write that is done leaves the i-th certificate in the i-th file |
| IssuingRuns.CertificatesHold | src/apps/ca.c:985-1044 | the same for the first k certificates: which calls decide, how many are made, and which certificate each file holds |
| IssuingRuns.CommitBatch | src/apps/ca.c:953-1055 | the calls of a commit in order: serial, index, certificates, then the two rotations, stopping at the first failure; the index it started from is on disk after every call; and when no call fails, the next number, the rows, the attributes and each certificate, in the file of its own number, are in place, and what was there is kept as old copies |
| IssuingRuns.CommitCompletes | src/apps/ca.c:953-1055 | what a commit leaves when no call fails: new serial file, index and attributes, every certificate of the batch in the file of its number, and the previous files as old copies |
| IssuingRuns.BatchIssues | src/apps/ca.c:879-952 | with serials below the number, a batch is certified exactly when no request aborts and, if names must be unique, the new names are free and different; then the i-th accepted request has the i-th new row, with the i-th next number as its serial |
| IssuingRuns.CommitKeepsIndex | src/apps/ca.c:953-1055 | throughout a commit, whatever fails, the index it started from is on disk, under its name or as the old copy |
| IssuingRuns.NextSerialIsNew | src/apps/ca.c:1758-1800 | with serials below the number, of either sign and in any case, the number is not in the index |
| IssuingRuns.CertifyKeepsBelow | src/apps/ca.c:879-952 | a batch keeps all serials below the next number |
| IssuingRuns.CommitIsShaped | src/apps/ca.c:953-1055 | every commit has one moment before which serial file and index are as found, and from which the serial file, whenever readable, holds the new number and the index, whenever readable, is the old one or as much of the new one as was not lost in closing |
| IssuingRuns.RotateIndexStates | src/apps/apps.c:1672-1736 | during a rotation the database name holds the old or the new database or nothing, and the serial file is not touched |
| CaHistory.EveryHistoryIsSafe | src/apps/ca.c:879-1055 | for every sequence of issuing, revoking and expiring runs with any failing calls and any rows lost in closing a file, each cut off after any call: in every state in which both files exist all serials are below the number; the number never goes back; a certificate file whose serial has been passed is never written again; without a readable number nothing is issued (section 4.1.2.2 of RFC 5280) |
| CaHistory.RevokeKeepsBelow | src/apps/ca.c:2062-2155 | revoking keeps serials below the number if and only if the certificate is in the index or its own serial, of either sign, is below |
| CaHistory.CommitKeepsCerts | src/apps/ca.c:985-1055 | a commit never touches certificate files with passed serials, and none once the rotations have begun |
| CommitLimits.ReissuedByNumberLeft | src/apps/ca.c:953-1055 | for every run cut off after any call with any failures but no short write: if the number left is the one it started from, every completed run that issues something writes certificate files from that number on, each with the certificate of its own row; if it is larger, no state of any issuing run touches the file of that number; without a number nothing is issued |
| CommitLimits.StoppedRunReissues | src/apps/ca.c:985-1055 | the first case happens: cut off before the rotations, a run has written all its certificates, and the next run writes its own under the same numbers over them |
| CommitLimits.ShortSerialWrite | src/apps/apps.c:1418-1466 | with a serial file cut short unnoticed, a run that issues something ends safe if and only if the number left is not below the next serial |
| CommitLimits.CompletedRun | src/apps/ca.c:879-1055 | an issuing run that is not disturbed leaves the next number, the new index and attributes, for every number given out the certificate of its row in the file of that number, and what it found as old copies |
| CommitLimits.SafeBatch | src/apps/ca.c:879-952 | in a safe state a run certifies exactly when no request aborts and the names are free, and issues exactly when something was accepted too |
| CommitLimits.RunIssues | src/apps/ca.c:879-1055 | in a safe state, a run that issues and is not disturbed gives the i-th accepted request the i-th next number, in its row of the index and in the name of the file that holds its certificate |
| CommitLimits.RunIssuesNothing | src/apps/ca.c:879-960 | a run with nothing to issue, a database that does not load, no serial number, or no wish to commit makes no call |
| CommitLimits.CompletedAction | src/apps/ca.c:1216-1228 | a revocation or expiry that is not disturbed replaces index and attributes, keeps those found as old copies, and touches no other file |
| CommitLimits.RevokeRun | src/apps/ca.c:1205-1230 | an accepted revocation that is not disturbed leaves an index in which the serial leads to a revoked row whose entry reads back as what was asked for |
| CommitLimits.ExpireRun | src/apps/ca.c:680-701 | expiring that is not disturbed leaves an index in which just the valid rows whose date has passed are marked |
| IndexHistory.EveryHistoryEvolves | src/apps/ca.c:879-1055 | in every state of every history, each run cut off after any call with any calls failing, an index that is there evolves from the one at the start: no row is lost, no revocation undone, no serial, name or expiry changed, provided that no save loses rows that were there in closing the file |
| IndexHistory.LostFlushDrops | src/apps/apps.c:1626-1670 | that condition is exact, for every run that saves something: when only so many rows reach the disk, the index left behind evolves from the one found if and only if they are no fewer than those found |
| IndexHistory.Approaches | src/apps/ca.c:953-1055 | every run that saves something leaves index and attributes alone until it rotates the index, and does so only with both new files written |
| IndexHistory.SavedStates | src/apps/ca.c:953-1055 | in every state of a run the index, when present, is the one found or what a save of the new rows can leave |
| CaReloads.EveryHistoryReloads | src/apps/apps.c:1535-1600 | if the attributes agree with the configuration, the old copy counting only while they are missing, and the index loads, then in every state of every history, each run cut off after any call, they still agree and an index that is there loads |
| IndexHistory.BatchKeepsSound | src/apps/ca.c:879-952 | a batch of new certificates keeps the database invariant |
| CaReloads.RotateIndexAgrees | src/apps/apps.c:1672-1736 | attributes that agree with the configuration do so after every call of a rotation, whatever fails; the old copy comes back only where there are none |
| ReloadLimits.RunReloadsIff | src/apps/apps.c:1672-1736 | for every issuing, revoking or expiring run: it always leaves an index that loads, however its calls end and wherever it is cut off, if and only if the index it finds loads and, where it saves something, the attributes agree with the configuration or the valid names are unique in the rows found and in the rows saved |
| ReloadLimits.EveryHistoryReloadsIff | src/apps/apps.c:1535-1600 | every state of every history loads if and only if there is no index to begin with, or it loads and the attributes agree with the configuration |
| ReloadLimits.LeavesMoved | src/apps/apps.c:1714-1732 | a run cut off between the two renames of the attribute file leaves the new index without attributes |
| ReloadLimits.LeavesOld | src/apps/apps.c:1714-1732 | when the last rename and the roll back of the attribute file both fail, the old index is left without attributes |
| ReloadLimits.LeavesStale | src/apps/apps.c:1714-1732 | where there were no attributes, a failed last rename makes a stale old copy the attributes of the new index |
| SubjectPolicy.FindInCa | src/apps/ca.c:1535-1557 | the search through the CA name ends, and finds a value exactly when it occurs there |
| SubjectPolicy.ApplyItem | src/apps/ca.c:1487-1578 | one policy item appends all request entries of its type, or fails exactly when the rule is broken |
| SubjectPolicy.ApplyPolicy | src/apps/ca.c:1487-1578 | the nested loops refine a filter: success exactly when every item's rule holds, and then the subject is all request entries of each listed type, in policy order, each a component of its own |
| SubjectPolicy.ItemMeans | src/apps/ca.c:1487-1578 | a policy item holds exactly when its type and rule are known, an entry of the type is there unless it is optional, and for a match every such entry has one with its value in the CA name |
| SubjectPolicy.RemoveEntries | src/apps/ca.c:1702-1727 | the e-mail pass removes exactly the e-mail entries and keeps order and grouping of the rest |
| SubjectPolicy.DeleteKeepsShape | src/crypto/x509/x509name.c:96-147 | deleting an entry keeps which of the others share a component |
| RehashBuckets.Bucket.Search | src/apps/rehash.c:146-160 | one walk finds a duplicate digest, or else the entry of the file |
| RehashBuckets.Bucket.Append | src/apps/rehash.c:167-177 | a new entry becomes the end of the chain, which stays linked from first to last without repeats |
| RehashBuckets.Bucket.Add | src/apps/rehash.c:146-187 | a sighting changes the bucket as specified, the needed counter stays the number of needed entries, and an error is counted exactly when a new file finds the bucket full |
| RehashBuckets.FindBucket | src/apps/rehash.c:134-136 | the walk along the slot's chain finds the one bucket of a key, or shows that there is none |
| RehashBuckets.AddEntry | src/apps/rehash.c:124-187 | a sighting changes the bucket of its type and hash only, which is made if there was none; every key keeps one bucket, in the chain of its slot; an error is counted exactly for a file without an entry, with a digest not in the bucket, when 256 files are needed already |
| RehashBuckets.AddEntries | src/apps/rehash.c:124-187 | any sequence of calls leaves linked buckets on the heap, one for each key seen, that hold what the calls make of an empty table |
| RehashBuckets.ChainIsAcyclic | src/apps/rehash.c:134-144 | bucket chains have no repeats |
| RehashBuckets.CollectedBucket | src/apps/rehash.c:124-187 | after any sightings a file has one entry, needed entries have different digests, and an entry's id is the least recorded for it |
| RehashBuckets.CollectedNeeds | src/apps/rehash.c:146-187 | after any sightings an entry is needed exactly when a recorded sighting needed its file, and then has the digest of the first one that did |
| RehashBuckets.TableIsCollected | src/apps/rehash.c:124-187 | after any calls a key has a bucket exactly when it was seen, with what its own sightings make of it |
| RehashBuckets.LimitPassedIff | src/apps/rehash.c:161-187 | the limit is passed exactly when a known file becomes needed in a bucket that is full |
| RehashBuckets.LimitIsPassed | src/apps/rehash.c:161-187 | a link to a file, 256 other files and then the file itself make 257 needed entries |
| RehashIds.SetBit | src/apps/rehash.c:106-115 | setting a bit changes that bit and no other |
| RehashIds.MarkLowIds | src/apps/rehash.c:384-392 | after clearing and marking, the bitmap below the number of needed files is the low ids in use; bits beyond may be left over |
| RehashIds.FindFree | src/apps/rehash.c:403-406 | the search stops at the first clear bit, or runs to the end of the bitmap |
| RehashIds.AssignIds | src/apps/rehash.c:384-448 | for every bucket: the pass stays inside its bitmap if and only if it has at most 256 needed files and, with the bits already set, those that need a new id are at most 256, which is so for every bucket that can be numbered; then it keeps low ids, removes leftovers, and gives the needed files exactly the ids 0 to n-1, once each, if and only if the bucket can be numbered |
| RehashIds.FitsByCount | src/apps/rehash.c:384-410 | every search ends inside the bitmap if and only if the ids marked and the files that need a new one are at most 256 together |
| RehashIds.CrowdLeavesBitmap | src/apps/rehash.c:384-410 | a link to a removed file under id 0 and 256 needed files without links, which `add_entry` does collect, lead the search out of the bitmap |
| RehashIds.ExactIffNumberable | src/apps/rehash.c:384-448 | the needed files end up with exactly the ids 0 to n-1 if and only if no two share a low id and low ids of unneeded files belong to needed ones too |
| RehashIds.SearchStopsBelow | src/apps/rehash.c:403-406 | every search of the pass stops below the number of needed files |
| RehashIds.StaleLinkKeepsIdZero | src/apps/rehash.c:384-448 | a link to a removed file under id 0 pushes the only needed file to id 1 |
| ResponderPool.Pool.Release | src/apps/ocsp.c:938-954 | the slot of a reaped child is found and freed; the branch without a matching slot is unreachable |
| ResponderPool.Pool.Occupy | src/apps/ocsp.c:991-1004 | a forked child gets a free slot; the branch without one is unreachable |
| ResponderPool.Pool.KillAll | src/apps/ocsp.c:886-896 | the last calls are one termination signal for each existing child, and nothing else |
| ResponderPool.Pool.AwaitRoom | src/apps/ocsp.c:938-971 | waiting is done only while the pool is full and no signal is noted, and ends with room, with a signal, or, after an error other than an interruption, with all children signalled |
| ResponderPool.Pool.SpawnLoop | src/apps/ocsp.c:910-1010 | observed for any number of kernel calls: slots hold exactly the forked, unreaped children, each once, and `procs` is their number; a fork is asked for only with room, a wait only when the pool is full, neither once a signal is noted, and looks for a signal come at most three in a row; the parent ends only on a signal or a broken wait, with every child signalled; the child returns exactly when the last call is a fork that answered 0; and if forks succeed the pool is full after at most four calls for each slot |
| ResponderPool.CallWasDue | src/apps/ocsp.c:910-1010 | in every run each fork was made with room and each wait with a full pool, and neither behind a noted signal |
| ResponderPool.NotOnlyLooks | src/apps/ocsp.c:929-975 | of any four calls in a row one forks, waits or signals |
| ResponderPool.CallsBounded | src/apps/ocsp.c:929-975 | the calls of a parent at work are at most four for each fork and wait, and three more |
| ResponderPool.PoolFills | src/apps/ocsp.c:929-1004 | from any point of any run on, as long as forks succeed, the pool is full again after at most four calls for each missing child |
| ResponderPool.SignalledOnce | src/apps/ocsp.c:886-896 | behind the call that ended the run there are only termination signals, one to each existing child |
| ResponderPool.SlotsHold | src/apps/ocsp.c:910-1010 | holding children slot by slot means that each child has one slot and no other number is in a slot |
| ResponderPool.OccupiedIsChildren | src/apps/ocsp.c:910-1010 | slots that hold the children exactly are as many as the children |
| ResponderPool.OccupiedCount | src/apps/ocsp.c:991-1004 | at most all slots are taken, and all are exactly when the count says so |
| PrefixFilter.Filter.WriteNext | src/apps/bf_prefix.c:99-134 | one line: the prefix if due, and then as much of the line as the sink takes |
| PrefixFilter.Filter.Write | src/apps/bf_prefix.c:81-137 | the sink gains the rendering of just the bytes counted, and one prefix more exactly when the filter stopped between a prefix and its line; success means all is written; with an empty prefix bytes pass through and the line start is noted from the last byte offered |
| PrefixFilter.WriteResuming | src/apps/bf_prefix.c:81-137 | writes resumed after each failure add up to one |
| PrefixFilter.WriteChunks | src/apps/bf_prefix.c:81-137 | however a text is split and whatever the sink refuses, once all is written the sink holds the text with the prefix at each line start and nothing else, and the text can be recovered from it |
| PrefixFilter.StripRender | src/apps/bf_prefix.c:81-137 | taking the prefixes away gives the text back |
| PrefixFilter.EmittedMore | src/apps/bf_prefix.c:81-137 | two stretches of output make one, also when the second begins behind a prefix already written |
| NextProtos.Parse | src/apps/apps.c:1960-2006 | refuses exactly when the text is empty or at least 65535 long, has no name, or one over 255 bytes; otherwise the used part of the buffer is the length-prefixed names in order, its length is the sum of length+1, and reading it back gives the names |
| NextProtos.Fill | src/apps/apps.c:1974-1996 | the loop keeps complete names, a free byte and the begun name in the buffer, always inside it |
| NextProtos.UnwireWire | src/apps/apps.c:1960-2006 | decoding a protocol list gives its names back |
| NextProtos.FieldsAreTheText | src/apps/apps.c:1974-1996 | the fields are the text cut at all its commas |
| NameParser.ParseName | src/apps/apps.c:1772-1860 | for every text the parser, which works in a buffer of the text's own size and never leaves it, gives what the text denotes |
| NameParser.CopyValue | src/apps/apps.c:1815-1827 | values are copied without their escapes up to the separator; a final backslash is an error |
| NameParser.RoundTrip | src/apps/apps.c:1772-1860 | printing any items with `=`-free types and parsing builds just these items; if types are known and values acceptable and not empty, one entry each in the component it was printed in |
| NameParser.ComponentsKeptIff | src/apps/apps.c:1834-1850 | the name has the components that were written, less the skipped items, if and only if no item is misplaced, and each misplaced item costs one component |
| NameParser.KeptAre | src/apps/apps.c:1834-1850 | the items kept are exactly those of a known type with a value |
| NameParser.SkippedLeftOut | src/apps/apps.c:1834-1850 | skipped items change nothing: the name is that of the items kept, with one entry for each |
| NameParser.BuildIsNumbered | src/crypto/x509/x509name.c:183-240 | the group numbers of the entries are the components that were built, counted from 0 |
| NameParser.SkippedTypeJoins | src/apps/apps.c:1834-1850 | an unknown type in front of `+` puts the next item in the component before it |
| OptionParser.Parser.OptNext | src/apps/opt.c:613-753 | each call gives the table's answer to the words that are left: the first entry with the name between the dashes and the first `=` decides; without a value type its code, or -1 if something follows `=`; with one, the text behind `=` or else the next word, and its code if that passes the check, -1 if it is refused or missing; for other names the code of the entry with the empty name, or -1; and 0 at the end, before a word that is no option, and after `--`. No word is changed but its own |
| OptionParser.Parser.Snip | src/apps/opt.c:637-645 | the word is cut in two in place at its first `=` |
| OptionParser.Parser.NumRest | src/apps/opt.c:780-788 | the count of remaining words is right |
| OptionParser.ParseAll | src/apps/opt.c:613-788 | a whole parse: each result is the answer to the words that the one before has left, the last answer is the end or an error, each code is that of the entry for its flag, and there is at most one option for each word |
| OptionParser.WordSpells | src/apps/opt.c:629-645 | the name and value taken from a word are the only ones with which it is one or two dashes, a name without `=`, and perhaps `=` and a value |
| OptionParser.ParseAccounts | src/apps/opt.c:613-753 | every parse is accounted for, call by call, by the answers of the table |
| OptionParser.ParseFromTable | src/apps/opt.c:647-753 | every option found has the code of the first entry with the name of its flag and a value that passes its check, or that of the entry for unknown names |
| OptionParser.ParseEnds | src/apps/opt.c:613-753 | there are no more options than words, and what remains is the end of the words |
| OptionParser.SplitIff | src/apps/opt.c:613-753 | for an option that takes a value, replacing `-x=v` by `-x` `v` leaves all results and the remaining words the same if and only if the parser reaches that word as an option |
| SignerPairing.Signing.OnSigner | src/apps/cms.c:472-488 | `-signer` completes an earlier signer, paired with its key or itself |
| SignerPairing.Signing.OnInkey | src/apps/cms.c:489-507 | `-inkey` completes an earlier pair, and is refused when the earlier key has no signer |
| SignerPairing.Signing.OnKeyopt | src/apps/cms.c:530-561 | `-keyopt` goes to the group of the pair under construction, and is refused without one |
| SignerPairing.ParamList.Add | src/apps/cms.c:545-560 | the parameter list stays linked from first to last and gains the parameter in its last group or in a new one |
| SignerPairing.ParamList.Find | src/apps/cms.c:937-942 | the walk finds the group of a position |
| SignerPairing.Signing.Finish | src/apps/cms.c:604-626 | the last pair is appended; a key without a signer and no signer at all are refused |
| SignerPairing.AcceptedIff | src/apps/cms.c:472-626 | options are accepted if and only if they can be taken apart into blocks of one signer, at most one key and parameters behind one of them |
| SignerPairing.BlocksIff | src/apps/cms.c:472-626 | the blocks are the only way to take the options apart in which a block ends only where the next option cannot be part of it |
| SignerPairing.GroupsOrdered | src/apps/cms.c:530-561 | the positions of the parameter groups increase strictly |
| SignerPairing.FilesInOrder | src/apps/cms.c:472-626 | the signatures use all signers, all given keys and all parameters in order, each once |
| SignerPairing.Sign | src/apps/cms.c:472-626 | refused exactly when the options cannot be taken apart into blocks; otherwise each block, taken as long as it can be, gives one signature: by its signer, with its key or the signer itself, and with just the parameters between the options that open and close it; all signers, given keys and parameters are used in order |
| ExtraCerts.ExcertList.Prepend | src/apps/s_cb.c:948-968 | a new entry in front keeps `next` and `prev` inverse to each other and has the formats of the previous head |
| ExtraCerts.ExcertList.Take | src/apps/s_cb.c:1028-1090 | each option has its meaning on the certificates in command-line order; a second key or chain throws the whole list away |
| ExtraCerts.TakeAll | src/apps/s_cb.c:1028-1090 | any sequence of options leaves a well-formed list that holds what the options mean, each certificate with the key, chain and building of chains that the options about it give, or is refused exactly when a second key or chain for one certificate or an unknown format is among them |
| ExtraCerts.ExcertList.Walk | src/apps/s_cb.c:887-940 | the walk to the end and back visits certificates in command-line order, each once, until one cannot be used |
| ExtraCerts.ExcertList.Free | src/apps/s_cb.c:970-986 | freeing reaches every entry exactly once |
| ExtraCerts.ExcertList.DropUnnamed | src/apps/s_cb.c:988-1003 | after accepted options no file name is missing when files are loaded; a single entry without one is dropped |
| ExtraCerts.EveryRunNames | src/apps/s_cb.c:1028-1090 | after any accepted options there is one certificate for each `-xcert`, in order, or at most one without a name |
| ExtraCerts.EveryRunOwns | src/apps/s_cb.c:1028-1090 | after any accepted options each certificate has exactly the key, the chain and the building of chains given behind its `-xcert` and before the next one |
| ExtraCerts.AcceptedIff | src/apps/s_cb.c:1028-1090 | options are accepted exactly when no certificate is given two keys or two chains and every format is known |
| ExtraCerts.EveryRunFormats | src/apps/s_cb.c:948-968 | the newest certificate has the last formats given, and so has the next one |
| PasswordEncoding.PrintMd5 | src/apps/passwd.c:439-472 | permutation and packing write the 22 characters of the digest's text, inside the buffer |
| PasswordEncoding.PrintSha | src/apps/passwd.c:703-757 | the rows of a hash are written as 43 or 86 characters; other marks are refused |
| PasswordEncoding.B64From24Bit | src/apps/passwd.c:706-715 | the digits of a word, lowest first, at a moving position |
| PasswordEncoding.DecodeText | src/apps/passwd.c:439-472 | every byte of a digest can be read back from the row that prints it |
| PasswordEncoding.Md5TextDecodes | src/apps/passwd.c:439-472 | a decoder gets the 16 bytes back from the 22 characters |
| PasswordEncoding.Sha256TextDecodes | src/apps/passwd.c:717-730 | a decoder gets the 32 bytes back from the 43 characters |
| PasswordEncoding.Sha512TextDecodes | src/apps/passwd.c:731-754 | a decoder gets the 64 bytes back from the 86 characters |
| PasswordEncoding.Stretch | src/apps/passwd.c:649-670 | byte k of the P and S strings is digest byte k mod the digest's size; an empty string is an error |
| PasswordEncoding.DigitsOfAlphabet | src/apps/passwd.c:25-36 | the digits are the 64 characters of the alphabet in order |
| PasswordEncoding.Md5RowsAre | src/apps/passwd.c:439-472 | the byte order of the MD5 form in closed form, for every row |
| PasswordEncoding.Sha256RowsAre | src/apps/passwd.c:717-730 | the byte order of the SHA-256 form in closed form, for every row |
| PasswordEncoding.Sha512RowsAre | src/apps/passwd.c:731-754 | the byte order of the SHA-512 form in closed form, for every row |

## Left out

- Key, parameter and message tools, sockets, TLS callbacks, prompts, help texts and engine loading: wrappers over foreign calls or user interface.
- The insides of libcrypto (ASN.1, big numbers, hashing, streams, hash tables): parameters of the model, except for the text database and name entries, which are modelled as far as the tools use them.
- The digest computation itself, the `rounds` loop and the salt handling of the password hashes; EBCDIC variants.
- Random serials and `-create_serial`: `CaHistory` is about runs that use a serial file.
- Several actions in one run of `ca` (for example issuing and expiring together), the generation of revocation lists, and certificates written to `-out`.
- CaHistory.EveryHistoryIsSafe: assumes that the configured file names do not collide, that no write leaves other readable content than what it was given or the first rows of it, and that revoked certificates are in the index or have a serial below the number; `CommitLimits` and `RevokeKeepsBelow` show what happens otherwise.
- ReloadLimits.EveryHistoryReloadsIff: assumes the same of names and writes, that certificate and revocation dates have the syntax that the load check asks for, and that the database name fits the buffers, without which nothing is ever saved.
- CommitProtocol.Disk.SaveIndexFiles: of the one line of an attribute file either all or nothing readable is left.
- CommitProtocol.Disk.RotateIndexFiles: POSIX rename only, and a rename of an existing file that fails does not report a missing file; Windows and VMS variants are not modelled.
- SerialNumbers.BytesToHexValue: numbers of any length, although reading very long serial files back has limits of its own.
- TextDatabase.TextRoundTrip: comment lines longer than the reader's buffer are not modelled.
- SubjectPolicy.ApplyPolicy: without `preserve`; field length and string type checks of single values are not modelled.
- RehashBuckets.AddEntry: the static array of bucket heads is passed and returned as a sequence instead of being updated in place; buckets and entries are heap objects. The counter does not wrap.
- RehashIds.AssignIds: what happens once the search leaves the bitmap is not defined in the source and not modelled. Failing system calls and the option to keep links are not modelled.
- ResponderPool.Pool.SpawnLoop: pauses, log messages and the children's own work are not modelled, including that a child exits at once when a signal was noted before it; the observation ends at the heads of the two loops.
- PrefixFilter.Filter.Write: a failed write emits nothing and a successful prefix write is whole, as the sinks in use behave; reading and control calls pass through and are not modelled.
- NameParser.ParseName: messages and the encoding of values, which is a parameter.
- OptionParser.Parser.OptNext: the syntax checks of values are one parameter; tables follow the rules that the parser asserts.
- SignerPairing.Sign: the operation is fixed beforehand as a signing one; loading files and making signatures are not modelled.
- ExtraCerts.ExcertList.Walk: what is done with a certificate is one parameter that says whether it can be used.
- PasswordEncoding.B64From24Bit: shifts and masks of unsigned values are written as division and remainder.
