# Verified models of the emulator's hard parts

Dafny models of six components of an emulator for a game console, each proved against what the
component is for:

* the JSON reader and styled writer (`Json*.dfy`, `Utf8.dfy`),
* the firmware install transaction (`Firmware*.dfy`),
* the multiplayer room: server, client, packets and their byte format (`Room*.dfy`,
  `Packet*.dfy`, `ByteOrder.dfy`),
* 128-bit arithmetic (`Wide128.dfy`),
* the streaming SHA-256 (`Sha256.dfy`, `Sha256Words.dfy`, `Sha256Constants.dfy`),
* the caches: the game list (`GameList*.dfy`, `CacheFormat.dfy`, `PathOrder.dfy`) and the
  instruction-fetch page (`CodePageCache.dfy`).

`Bits.dfy`, `Bytes.dfy`, `NameOrder.dfy`, `Numerals.dfy`, `Options.dfy` and `Sequences.dfy` hold
what several of them share.

Each component has two layers. Specification functions say what the code computes, and the main
theorems are about them. Classes and methods take the form of the source, with its fields, loops
and order of calls, and are proved to compute those functions or to be runs of a transition
system.

`dafny verify dfyconfig.toml` checks everything.

## What the proofs say

* **JSON.** A document is parsed successfully if and only if it is a text of the grammar written out
  in `JsonGrammar.dfy`, and then as what it means (`JsonAccepts.ParseIsGrammar`, all documents). The
  grammar is that of RFC 8259 with what the code does differently: strings may hold raw control
  characters and bytes that are no UTF-8; a high surrogate takes whatever unit follows as its second
  half, and a low one may stand alone; numbers may have leading zeros, lack digits, or be a lone
  minus; a comma may end an object behind an entry with an empty name; and integers are exact only
  from -9223372036854775799 to 2^63 - 1. Every text of the standard without reals and within that
  range, its surrogates paired, is in it (`JsonGrammar.StandardIsLegal`). A written document is laid
  out line by line as `JsonLayout.WrittenAsLines` says. Parsing a written document gives the tree
  back if and only if the tree is printable (`JsonRoundTrip.RoundTrip`), for every tree without
  reals and whatever layout its arrays took. What comes back otherwise is given exactly, too
  (`JsonRoundTrip.ReadBack`). Two conditions are consequences of the code rather than of the format:
  names are printed through `c_str`, and the integer limits are signed, so -9223372036854775800 and
  below leave the integer path and the minimum is printed as -1. On malformed input the reader moves
  forward only, keeps its errors and recovers at the wanted token or at the end (`JsonRecovery`).
* **Firmware.** Over every sequence of install attempts, crashes inside any call and recoveries,
  `registered` is the firmware of the start or what the last commit found staged
  (`FirmwareModel.NeverMixedNeverLost`), if and only if the renames that put a firmware back and the
  questions of a recovery cannot fail (`FirmwareRuns.SafeExactlyIfReliable`): when one of them can,
  there are runs that lose any installed firmware. If nothing fails and the user does not cancel, an
  install ends with the package registered, and nothing else on the disk, if and only if the package
  is a firmware (`FirmwareInstall.Installer.InstallStaged`). Two properties are false of the code.
  What is staged need not be one package: an error while clearing the staging directory is
  overwritten by the next call, so files of an abandoned attempt can be registered beside a package
  (`FirmwareRuns.PackagesCanMix`), and the result is exactly the package if and only if the package
  has a file of every name left over (`FirmwareInstall.OverlayIsPackage`). And a read error is taken
  for the end of a file (`FirmwareInstall.ReadErrorIsNotNoticed`): what is staged is the content of
  the package if and only if no read fails before the end (`FirmwareInstall.StagedIsWhole`).
* **Room.** Every request is decided as `RoomRequests.dfy` describes it, in terms of members, lists
  and messages: who is let in and why not (`RoomRequests.JoinIsDecided`), who a kick or a ban
  removes, and who hears what. In every run of a server and any number of clients, a client handles
  a join success only when it already lists itself exactly once (`RoomProtocol.SuccessFindsItself`),
  and a joined client with nothing under way to it has the server's list
  (`RoomProtocol.DrainedIsCurrent`). A ban keeps its target out over every run until it is lifted
  (`RoomServer.BanLasts`). Nothing keeps one connection from joining twice; then, and only then, its
  disconnection or ban leaves a member behind (`RoomServer.DisconnectLeavesSecondJoin`,
  `RoomServer.BanLeavesSecondJoin`).
* **Arithmetic and hashing.** Division and multiplication are exact although intermediate results
  wrap, and any chunking of a message below 2^29 bytes gives the SHA-256 of FIPS 180-4; the bound is
  exact for the padding (`Sha256Stream.PadAgrees`).
* **Caches.** In every session, whatever scans and restarts came before, a completed scan leaves
  what a scan from nothing leaves (`GameListTrust.EveryScanIsFresh`), and every application carries
  the highest enabled update of all files seen, add-on directories before game directories and
  smaller paths first (`GameListTrust.EveryScanFindsTheWinner`). The last report of each application
  shows that update's title, icon and version (`GameListFaces.EveryReportShowsTheWinner`), and
  scanning the same files again parses nothing and changes nothing (`GameListQuiet.RescanIsQuiet`).
  The callback hears of each application exactly once in the first pass
  (`GameListReports.EveryGameOnce`), and the dirty flag is never wrong
  (`GameListSessions.NotDirtyMeansSaved`). A cached instruction fetch equals an uncached one over
  every run that invalidates what it changes (`CodePageCache.RunsAgree`), at aligned addresses and
  at no others (`CodePageCache.AgreesExactlyIfAligned`).

## Model

| member | source | states |
|---|---|---|
| `Wide128.Clz32` | src/common/maths.cpp:4-43 | The binary search counts the leading zero bits: the shifted value has its top bit set, and zero gives 32 |
| `Wide128.Clz64` | src/common/maths.cpp:45-63 | The same for 64 bits through the 32-bit count |
| `Wide128.Mull128` | src/common/maths.cpp:65-91 | `high * 2^64 + low` is the exact product although sums and shifts wrap |
| `Wide128.QuotientDigit` | src/common/maths.cpp:138-150 | Trial quotient and correction loop give the exact quotient digit of three digits by two, with at most two corrections |
| `Wide128.Div128To64` | src/common/maths.cpp:93-171 | For every `u1 < v`: `u1 * 2^64 + u0 == q * v + r` and `r < v`, at most two corrections per digit; otherwise both results are the overflow marks |
| `Wide128.MultiplyThenDivide` | src/common/maths.cpp:65-171 | Dividing the product of `x` and a nonzero `y` by `y` gives `x` and remainder 0, for all values |
| `Fips180.ChainConcat` | src/common/sha256.cpp:88-120 | Hashing a concatenation of whole blocks is hashing them one after the other |
| `Sha256Words.Rotate` | src/common/sha256.cpp:42-42 | The two shifted parts or-ed together are the rotation of the standard |
| `Sha256Words.ShiftIsShR` | src/common/sha256.cpp:41-41 | The shift is the bit by bit shift of the standard |
| `Sha256Words.Pack32` | src/common/sha256.cpp:57-60 | Bytes shifted into place and or-ed are the big-endian word |
| `Sha256Words.Unpack32` | src/common/sha256.cpp:50-56 | Shifted and truncated, the word gives its big-endian bytes |
| `Sha256Words.NextWordIsMix` | src/common/sha256.cpp:95-98 | The schedule expression with the shift macros is that of the standard |
| `Sha256Words.SumsAreTs` | src/common/sha256.cpp:105-106 | The two sums of a round with the macros are those of the standard |
| `Sha256Constants.ConstantsAreRoots` | src/common/sha256.cpp:62-78 | Each round constant is the first 32 fraction bits of the cube root of its prime: between two cubes |
| `Sha256Constants.InitialIsRoots` | src/common/sha256.cpp:123-135 | Each word of the initial value is the first 32 fraction bits of the square root of its prime: between two squares |
| `Sha256Stream.SHA256.Init` | src/common/sha256.cpp:123-135 | Starts with the initial value of FIPS 180-4 and nothing buffered |
| `Sha256Stream.SHA256.Expand` | src/common/sha256.cpp:91-98 | The array holds the message schedule of section 6.2.2 of FIPS 180-4 |
| `Sha256Stream.SHA256.RunRounds` | src/common/sha256.cpp:99-115 | The in-place rotation of the working variables is the 64 rounds of the standard |
| `Sha256Stream.SHA256.Transform` | src/common/sha256.cpp:80-121 | The chaining value becomes the hash of the blocks, from the old chaining value |
| `Sha256Stream.SHA256.Update` | src/common/sha256.cpp:137-159 | However a message is cut, the object accounts for all of it: the buffer stays below 64 bytes, the total a multiple of 64, the chaining value that of the blocks so far |
| `Sha256Stream.ChunkHashed` | src/common/sha256.cpp:150-158 | Filling the block, hashing whole blocks and keeping the rest accounts for the message extended by the chunk |
| `Sha256Stream.Finished` | src/common/sha256.cpp:161-173 | The blocks `final` builds in the buffer hash like the padded message |
| `Sha256Stream.SHA256.Final` | src/common/sha256.cpp:161-178 | Below 2^29 bytes the digest is the SHA-256 of FIPS 180-4 of everything passed to `update` |
| `Sha256Stream.PadAgrees` | src/common/sha256.cpp:164-172 | The 32-bit length makes the padding that of the standard exactly for messages below 2^29 bytes |
| `Sha256Stream.Sha256OneShot` | src/common/sha256.cpp:180-188 | One `update` and `final` give the SHA-256 of the input below 2^29 bytes |
| `Sha256Stream.Sha256Chunked` | src/common/sha256.cpp:137-178 | Any sequence of chunks gives the SHA-256 of their concatenation below 2^29 bytes |
| `Utf8.EncodeIsFront` | src/common/json.cpp:53-85 | What `CodePointToUTF8` makes of a scalar value is one well-formed sequence of RFC 3629 |
| `Utf8.EncodeThenWellFormed` | src/common/json.cpp:53-85 | Such a sequence in front of well-formed text leaves the text well-formed |
| `Utf8.EncodeMarks` | src/common/json.cpp:53-85 | The bytes carry exactly the bits of the code point behind the marks of their number |
| `JsonStrings.StringRoundTrip` | src/common/json.cpp:1299-1315 | For every byte string, scanning the quoted form stops exactly at the closing quote, decoding succeeds and gives well-formed UTF-8, and well-formed input comes back unchanged |
| `JsonStrings.EscapedScans` | src/common/json.cpp:1299-1315 | The scan passes over escaped text and stops where it would have stopped behind it |
| `JsonStrings.EscapedDecodes` | src/common/json.cpp:1423-1552 | Decoding escaped text gives the repaired text, whatever bytes were escaped |
| `JsonStrings.RepairedIsWellFormed` | src/common/json.cpp:1810-1863 | Replacement characters and folded code points make every byte string well-formed |
| `JsonStrings.WellFormedIsKept` | src/common/json.cpp:1810-1863 | Well-formed text needs no repair |
| `JsonStrings.QuotedIsEscaped` | src/common/json.cpp:1974-2070 | The short cut for text without special characters writes what the escaping loop would write |
| `JsonStrings.PairRoundTrip` | src/common/json.cpp:2056-2062 | A code point above the basic plane is written as a surrogate pair that decodes to it, modulo 2^20 |
| `JsonTexts.TextScans` | src/common/json.cpp:1299-1315 | A string spelled by the grammar, in whatever escapes, is scanned to its closing quote and no further |
| `JsonTexts.TextDecodes` | src/common/json.cpp:1423-1552 | It decodes to what the grammar says its characters mean |
| `JsonTexts.TextFrom` | src/common/json.cpp:1423-1552 | Every string that scans and decodes is spelled by the grammar, with that meaning |
| `JsonNumbers.UintToString` | src/common/json.cpp:2072-2080 | The digits are written backwards into the buffer with the terminating NUL, and exactly those bytes change |
| `JsonNumbers.ValueToString` | src/common/json.cpp:1894-1922 | The text fits the 25-byte buffer and is the decimal text, except for the minimum |
| `JsonNumbers.DecodeNumberLoop` | src/common/json.cpp:1354-1407 | The digit loop computes the decoding function, limits and wrap-around included |
| `JsonNumbers.IntRoundTrip` | src/common/json.cpp:1354-1407 | Printing then decoding is the identity exactly from -9223372036854775799 up |
| `JsonNumbers.MisprintedMinimum` | src/common/json.cpp:1898-1902 | The smallest integer is printed as -1 |
| `JsonNumbers.AtThreshold` | src/common/json.cpp:1365-1387 | At the threshold every further digit sends the token to the floating-point reader, because the limit it uses is negative |
| `JsonNumbers.UnsignedDigits` | src/common/json.cpp:1365-1405 | Unsigned digits are read back exactly up to 2^63 - 1 |
| `JsonNumbers.PrintedNeverOverflows` | src/common/json.cpp:1368-1389 | No printed integer makes the loop's accumulator overflow |
| `JsonNumerals.NumberDecodes` | src/common/json.cpp:1354-1407 | Every number of the grammar decodes to its value wrapped to 64 bits, or goes to the floating-point reader: exactly if it has a fraction or exponent, or a digit follows a part at the threshold |
| `JsonNumerals.IntegersAreKept` | src/common/json.cpp:1365-1405 | Unsigned integers below 2^63 keep their value, and a negative one stays an integer exactly down to -9223372036854775799 |
| `JsonNumerals.NumberToken` | src/common/json.cpp:1265-1297 | The token ends exactly where the number of the grammar ends |
| `JsonValues.InsertSorted` | src/common/json.cpp:1128-1128 | Setting a member keeps names distinct and in order |
| `JsonValues.InsertLookup` | src/common/json.cpp:1128-1128 | Setting a member changes the value of that name only |
| `JsonValues.InsertHolds` | src/common/json.cpp:1128-1128 | After it the members are the given one and the others of other names |
| `JsonGrammar.ObjectHolds` | src/common/json.cpp:1097-1152 | An object has exactly the names of its entries, in order, each with the value of its last entry |
| `JsonGrammar.StandardIsLegal` | src/common/json.cpp:978-992 | Every real-free text of RFC 8259 whose integers fit and whose surrogates pair up is a text of the grammar |
| `JsonAccepts.TextIsRead` | src/common/json.cpp:978-992 | Every text of the grammar, in any layout and any escapes, is parsed successfully, as what it means |
| `JsonAccepts.ReadIsText` | src/common/json.cpp:978-992 | Whatever is parsed successfully is a text of the grammar |
| `JsonAccepts.ParseIsGrammar` | src/common/json.cpp:978-992 | For every document and root: parsing succeeds if and only if the document is a text of the grammar, and then it gives what the text means |
| `JsonAccepts.TreeReads` | src/common/json.cpp:1046-1095 | A value spelled by the grammar is read from in front of anything that can follow a value, without errors |
| `JsonAccepts.ItemsRead` | src/common/json.cpp:1154-1191 | So are the elements of an array, blanks anywhere around them |
| `JsonAccepts.EntriesRead` | src/common/json.cpp:1097-1152 | So are the members of an object, later ones replacing earlier ones |
| `JsonAccepts.ValueFrom` | src/common/json.cpp:1046-1095 | A value that is read successfully is spelled by the grammar behind blanks |
| `JsonLayout.WrittenAsLines` | src/common/json.cpp:1591-1719 | A written document is the lines of the tree: each value indented by its depth, an array on one line exactly if it fits |
| `JsonLayout.FitsIs` | src/common/json.cpp:1721-1745 | An array goes on one line exactly if no element is a non-empty array or object and both the length of the line, separators and brackets included, and three times the number of elements are below 74, in 32-bit arithmetic |
| `JsonRoundTrip.ValueReadsBack` | src/common/json.cpp:1046-1191 | Reading what was written of a value, with anything that may follow, gives `ReadBack` of it and stops right behind, whatever layout each array took |
| `JsonRoundTrip.WrittenThenParsed` | src/common/json.cpp:978-992 | Parsing a written document gives `ReadBack` of the tree, for every real-free tree |
| `JsonRoundTrip.TreeKept` | src/common/json.cpp:1591-1791 | A tree comes back as itself exactly if its text is well-formed, its names hold no NUL byte and its integers are in range |
| `JsonRoundTrip.RoundTrip` | src/common/json.cpp:978-992 | Parse undoes print exactly on the printable trees, for every tree without reals |
| `JsonRoundTrip.NameKept` | src/common/json.cpp:1648-1650 | A name printed through `c_str` comes back exactly if it is well-formed and holds no NUL byte |
| `JsonReader.JsonReader.SkipSpaces` | src/common/json.cpp:1554-1566 | Moves over the spaces, tabs, carriage returns and line feeds in front of the unread text |
| `JsonReader.JsonReader.Match` | src/common/json.cpp:1029-1044 | Compares backwards, moves over the keyword or not at all |
| `JsonReader.JsonReader.ReadNumber` | src/common/json.cpp:1265-1297 | Moves to the end of the longest number text of the grammar the code follows |
| `JsonReader.JsonReader.ReadString` | src/common/json.cpp:1299-1315 | Moves behind the closing quote, or to the end and fails |
| `JsonReader.JsonReader.ReadToken` | src/common/json.cpp:1193-1264 | Reads the token at the front of the unread text, whatever it is |
| `JsonReader.JsonReader.DecodeUnicodeEscapeSequence` | src/common/json.cpp:1522-1552 | Four hexadecimal digits, or the error for too few or others |
| `JsonReader.JsonReader.DecodeUnicodeCodePoint` | src/common/json.cpp:1490-1520 | One code point or surrogate pair, with the errors of a broken pair |
| `JsonReader.JsonReader.DecodeString` | src/common/json.cpp:1423-1488 | The decoded text of a string token, or its error |
| `JsonReader.JsonReader.DecodeNumber` | src/common/json.cpp:1341-1407 | The integer of a number token, or the floating-point token if the C library reads it |
| `JsonReader.JsonReader.RecoverFromError` | src/common/json.cpp:1010-1027 | Reads on to the wanted token or the end and reports no further error |
| `JsonReader.JsonReader.ReadValue` | src/common/json.cpp:1046-1095 | One value: position, errors and the current node are those of the specification, and the node stack is as before |
| `JsonReader.JsonReader.ReadArray` | src/common/json.cpp:1154-1191 | All elements into the current node, or the failure and recovery of the first that fails |
| `JsonReader.JsonReader.ReadObject` | src/common/json.cpp:1097-1152 | All members into the current node, later ones of a name replacing earlier ones, or the failure and recovery |
| `JsonReader.JsonReader.Parse` | src/common/json.cpp:978-992 | Success exactly if one value and nothing but blanks fill the document, and then the tree |
| `JsonRecovery.TokenSuffix` | src/common/json.cpp:1193-1264 | A token is taken off the front: the reader never moves back or past the end |
| `JsonRecovery.RecoveryStops` | src/common/json.cpp:1010-1027 | Recovery ends right behind a token of the wanted kind or at the end of the input |
| `JsonRecovery.ReadValueSound` | src/common/json.cpp:1046-1095 | On every input the position only moves forward within the text, earlier errors stay and what has been built is a proper tree |
| `JsonRecovery.ReadElementsSound` | src/common/json.cpp:1166-1190 | The same through the array loop |
| `JsonRecovery.ReadMembersSound` | src/common/json.cpp:1104-1152 | The same through the object loop |
| `JsonStyledWriter.JsonStyledWriter.ValueToQuotedStringN` | src/common/json.cpp:1974-2070 | The quoted form of the string |
| `JsonStyledWriter.JsonStyledWriter.IsMultilineArray` | src/common/json.cpp:1721-1745 | Which layout an array takes, with the texts of its elements cached when it may be a single line |
| `JsonStyledWriter.JsonStyledWriter.WriteArrayValue` | src/common/json.cpp:1667-1719 | The text of an array in either layout is appended, from cached texts or element by element |
| `JsonStyledWriter.JsonStyledWriter.WriteValue` | src/common/json.cpp:1601-1665 | The text of the value is appended to the document, or to the cached texts, and indentation is restored |
| `JsonStyledWriter.JsonStyledWriter.Write` | src/common/json.cpp:1591-1599 | The document of the tree |
| `FirmwareModel.StepKeeps` | src/nxemu-loader/firmware_install.cpp:178-208 | Every call and every crash keeps the invariant, and only the second rename of a commit changes the firmware a recovery would leave: to what the inspection saw |
| `FirmwareModel.CommitsWhatWasStaged` | src/nxemu-loader/firmware_install.cpp:151-176 | What a commit installs is all of the staging directory, which passed the inspection |
| `FirmwareModel.RunKeeps` | src/nxemu-loader/firmware_install.cpp:345-402 | Over every run the firmware effectively installed is that of the start or of the last commit |
| `FirmwareModel.ExpectedIsComplete` | src/nxemu-loader/firmware_install.cpp:345-378 | Every firmware a run installs was complete in the staging directory when it was committed |
| `FirmwareModel.NeverMixedNeverLost` | src/nxemu-loader/firmware_install.cpp:381-402 | Over every sequence of attempts, crashes at any point and recoveries, if putting back works and the questions of a recovery are answered: past recovery and between installs `registered` is exactly the firmware of the start or what the last commit found staged, never lost and never a part of one with a part of the other |
| `FirmwareModel.ClearingIsSafe` | src/nxemu-loader/firmware_install.cpp:184-184 | Clearing `registered.previous` changes what is effectively installed exactly if it held the only copy |
| `FirmwareRuns.LostWithoutPutBack` | src/nxemu-loader/firmware_install.cpp:199-203 | If putting back can fail, for every installed firmware there is a run without a commit that loses it in the second attempt |
| `FirmwareRuns.LostToDirectoryQuery` | src/nxemu-loader/firmware_install.cpp:387-392 | If the question whether `registered.previous` is a directory can fail, every installed firmware can be lost although every rename works |
| `FirmwareRuns.LostToEmptyQuery` | src/nxemu-loader/firmware_install.cpp:395-401 | If the question whether `registered` is empty can fail, a recovery deletes any firmware set aside beside an empty directory |
| `FirmwareRuns.SafeExactlyIfReliable` | src/nxemu-loader/firmware_install.cpp:381-402 | No run loses a firmware if and only if neither putting back nor the questions of a recovery can fail |
| `FirmwareRuns.AnInstallCompletes` | src/nxemu-loader/firmware_install.cpp:178-208 | From every installed firmware there is a run that replaces it and ends with nothing but the update on the disk |
| `FirmwareRuns.LeftoversAreCommitted` | src/nxemu-loader/firmware_install.cpp:114-120 | Whatever an earlier attempt left in the staging directory can be committed with the package, because the error of clearing it is overwritten |
| `FirmwareRuns.PackagesCanMix` | src/nxemu-loader/firmware_install.cpp:114-120 | From every installed firmware there is a run that registers a file of an abandoned attempt beside a package without a file of that name |
| `FirmwareInstall.YieldIsContent` | src/nxemu-loader/firmware_install.cpp:319-325 | Everything of a file arrives if and only if no read fails before its end |
| `FirmwareInstall.StagedIsWhole` | src/nxemu-loader/firmware_install.cpp:316-336 | What is staged is the content of the package if and only if no file that counts has a read that fails before its end |
| `FirmwareInstall.ReadErrorIsNotNoticed` | src/nxemu-loader/firmware_install.cpp:321-325 | A file whose second read fails is cut off, and the copy succeeds |
| `FirmwareInstall.OverlayIsPackage` | src/nxemu-loader/firmware_install.cpp:114-120 | The staged files are exactly the package if and only if everything left over has the name of one of its files |
| `FirmwareInstall.OverlayHolds` | src/nxemu-loader/firmware_install.cpp:254-271 | Every file of the package that no later one replaces is staged in full, and nothing else is new |
| `FirmwareInstall.Installer.RemoveStaging` | src/nxemu-loader/firmware_install.cpp:108-112 | Entry by entry until something fails: what is left is a part of what was there, and every intermediate state is a possible crash point |
| `FirmwareInstall.Installer.RemovePrevious` | src/nxemu-loader/firmware_install.cpp:206-206 | The same for the firmware set aside |
| `FirmwareInstall.Installer.Prepare` | src/nxemu-loader/firmware_install.cpp:114-120 | The staging directory exists afterwards, holding what could not be removed, or the attempt ends |
| `FirmwareInstall.Installer.Write` | src/nxemu-loader/firmware_install.cpp:316-336 | Chunk by chunk; success means the staged file holds what the reads yielded before the first one that failed, and without faults it succeeds |
| `FirmwareInstall.Installer.Fill` | src/nxemu-loader/firmware_install.cpp:219-314 | Success means what the reads of every file yielded was written, in order, over what was left in the directory |
| `FirmwareInstall.Installer.InspectFiles` | src/nxemu-loader/firmware_install.cpp:160-175 | Exactly the listed files whose opening does not fail are inspected, in one pass, until the user cancels |
| `FirmwareInstall.Installer.Inspect` | src/nxemu-loader/firmware_install.cpp:151-176 | Passes exactly if the files whose opening did not fail hold a system update description and a version; if nothing fails, exactly if the staged files are a firmware |
| `FirmwareInstall.Installer.Commit` | src/nxemu-loader/firmware_install.cpp:178-208 | Success leaves exactly the staged files registered; failure leaves the registered firmware as it was, if putting back works |
| `FirmwareInstall.Installer.InstallStaged` | src/nxemu-loader/firmware_install.cpp:345-378 | The registered firmware is the old one or all that was staged, and exactly the package if and only if what was left over is replaced by it. If nothing fails and the user does not cancel, `Installed` is answered if and only if the package is a firmware, and then it alone is on the disk; otherwise nothing but the staging directory changes |
| `FirmwareInstall.Installer.RecoverInterrupted` | src/nxemu-loader/firmware_install.cpp:381-402 | Afterwards the effectively installed firmware is the registered one and no copy set aside is needed, if putting back works and the questions are answered; any call or question may fail. If nothing fails it is registered and nothing set aside is left |
| `FirmwareInstall.CrashAnywhere` | src/nxemu-loader/firmware_install.cpp:381-402 | Any prefix of what an installer did, followed by a restart, is a run of the transition system |
| `ByteOrder.Swap64IsSwap` | src/network/packet.cpp:15-24 | The 64-bit conversion built from two 32-bit ones reverses all eight bytes |
| `ByteOrder.SwapIsBig` | src/network/packet.cpp:187-221 | What is stored after a conversion is the number in network order |
| `ByteOrder.SwapReads` | src/network/packet.cpp:86-126 | Converting what was stored gives the number in network order |
| `PacketFormat.ValueReadsBack` | src/network/packet.cpp:68-170 | One value of any type, vectors and arrays nested, is read back from where it was written, and the position moves by its length |
| `PacketFormat.RoundTrip` | src/network/packet.cpp:172-254 | Reading a packet with the types it was written with gives the values, leaves it valid and ends at its end |
| `PacketFormat.PrefixIsInvalid` | src/network/packet.cpp:256-260 | Reading any strict prefix of a written packet ends invalid |
| `PacketFormat.AllStayInvalid` | src/network/packet.cpp:256-260 | Once a read has failed no later read succeeds or moves the position |
| `PacketFormat.AllLonger` | src/network/packet.cpp:35-40 | A read that succeeds does not depend on what follows |
| `PacketFormat.TextKept` | src/network/packet.cpp:244-254 | A string is read back exactly if its length is below 2^32 |
| `Packet.Packet.ReadBytes` | src/network/packet.cpp:35-40 | Moves and copies if enough is left; otherwise the variable is untouched and the packet invalid |
| `Packet.Packet.CheckSize` | src/network/packet.cpp:256-260 | Validity is lost for good |
| `Packet.Packet.WriteNumber` | src/network/packet.cpp:187-221 | Appends the number in network order, for every width and sign |
| `Packet.Packet.ReadNumber` | src/network/packet.cpp:86-126 | Reads a number in network order, zero if too little is left |
| `Packet.Packet.WriteText` | src/network/packet.cpp:244-254 | Appends the 32-bit length and that many bytes |
| `Packet.Packet.ReadText` | src/network/packet.cpp:155-170 | Reads a length and that many bytes, or leaves the string empty |
| `Packet.Packet.WriteValue` | src/network/packet.h:145-163 | The overload for a type appends its encoding, element by element for vectors and arrays |
| `Packet.Packet.ReadValue` | src/network/packet.h:119-143 | The overload for a type reads what the format says, failed reads included |
| `Packet.SendAndReceive` | src/network/packet.cpp:27-260 | Written field by field and read with the same types, the object yields the values, is valid and at its end |
| `RoomServer.StaysOrderly` | src/network/room.cpp:295-399 | Whatever event comes: at most `member_slots` members, distinct nicknames and fake addresses, nobody on the address that means no preference |
| `RoomServer.NobodyJoinsBanned` | src/network/room.cpp:360-390 | The member list grows only by one unbanned member of a join that passed every check |
| `RoomServer.BansNeedPermission` | src/network/room.cpp:443-539 | The ban lists change only for a sender with the permission to moderate |
| `RoomServer.BanHolds` | src/network/room.cpp:443-502 | A banned member is out, and the next request to join from its connection is refused |
| `RoomServer.BanLasts` | src/network/room.cpp:360-390 | From a ban on, through whatever events follow: until a moderator lifts the ban of the username or of the address, nobody with that username, or from that address, joins |
| `RoomServer.BanLeavesSecondJoin` | src/network/room.cpp:443-502 | After a ban the connection of the target is still in the room exactly if it had joined twice |
| `RoomServer.UnbanLifts` | src/network/room.cpp:504-539 | Lifting a ban works exactly if it was listed no more than once, and touches no other ban |
| `RoomServer.RelayReaches` | src/network/room.cpp:815-925 | A game packet reaches everyone but the sender, or exactly the member with the remote address, unchanged |
| `RoomServer.ChatReaches` | src/network/room.cpp:927-975 | Only members chat, in their own name, to the others, with at most 500 bytes |
| `RoomServer.DisconnectLeavesSecondJoin` | src/network/room.cpp:1012-1038 | A connection is gone after its disconnection exactly if it had not joined twice |
| `RoomServer.FreeAddressExists` | src/network/room.cpp:803-813 | With at most 254 * 254 slots a room that is not full has an address the generator can draw |
| `RoomRequests.JoinIsDecided` | src/network/room.cpp:295-399 | A join adds exactly one member, as requested, if and only if none of the eight reasons to turn it down holds; otherwise nothing changes and the first reason that holds, in the order of the checks, is the only answer |
| `RoomRequests.ModeratesIs` | src/network/room.cpp:569-588 | A connection may moderate if and only if its first member is the host or, where moderators are enabled, a moderator |
| `RoomRequests.KickIsDone` | src/network/room.cpp:401-441 | A moderator's kick removes exactly the member of that nickname, order kept; it alone is told and disconnected, and everybody left learns who it was. Anyone else, or an unknown name, is only answered |
| `RoomRequests.BanIsDone` | src/network/room.cpp:443-502 | The same for a ban, which also lists username and address once |
| `RoomRequests.UnbanIsDone` | src/network/room.cpp:504-539 | The first entry of that text is gone from each list, the others in order, for moderators only |
| `RoomRequests.BanListIsSent` | src/network/room.cpp:541-548 | Both lists go to a moderator, and nothing but a refusal to anyone else |
| `RoomRequests.GameIsSet` | src/network/room.cpp:977-1010 | The first member of the connection has the new game, nobody else changes, and everyone gets the updated list |
| `RoomRequests.ChatIsSent` | src/network/room.cpp:927-975 | The message goes to the others in the name of the sender's first member, cut to 500 bytes; nothing is sent for a stranger |
| `RoomRequests.RelayIsSent` | src/network/room.cpp:815-925 | A packet goes to all others, or to the first member of the address, or nowhere if there is none |
| `RoomRequests.DisconnectionIsHandled` | src/network/room.cpp:1012-1038 | The first member of the connection is gone, order kept, the others learn who it was, and everyone gets the updated list |
| `RoomRequests.CloseIsTold` | src/network/room.cpp:716-731 | Every member is told, and then every connection ended |
| `RoomProtocol.HandlersBehave` | src/network/room.cpp:772-801 | Every change of the member list is followed in the same pass by room information that lists the new members, and a success follows such information directly |
| `RoomProtocol.StepKeeps` | src/network/room.cpp:240-289 | Every step of the server, of a client and of the network keeps the promises of every connection |
| `RoomProtocol.ReachableIsOrderly` | src/network/room.cpp:295-399 | Every reachable room is orderly |
| `RoomProtocol.SuccessFindsItself` | src/network/room_member.cpp:188-200 | In every run a client about to handle a join success holds a non-empty member list in which exactly one entry carries the granted address |
| `RoomProtocol.DrainedIsCurrent` | src/network/room_member.cpp:298-341 | In every run a joined client with nothing under way to it is connected and has exactly the member list of the server |
| `RoomProtocol.AJoinCompletes` | src/network/room.cpp:295-399 | From every empty room, a connection whose request passes the checks ends joined, with nothing under way and itself on its list |
| `RoomClient.ModeratorsAreGranted` | src/network/room_member.cpp:188-200 | In every run a client in the moderator state was granted that with its last success, and one in the joined state was not |
| `RoomClient.KickedClientKnows` | src/network/room_member.cpp:201-243 | An up-to-date member that is kicked ends idle, with an empty list, knowing that it was kicked unless the end of the connection overtakes the news |
| `RoomClient.BannedClientKnows` | src/network/room_member.cpp:201-243 | The same for a ban |
| `RoomClient.RefusedClientKnows` | src/network/room_member.cpp:201-243 | A client that is turned down ends idle with the first reason that holds |
| `RoomWire.JoinArrives` | src/network/room_member.cpp:284-296 | The request a client sends to join is the one the server handles |
| `RoomWire.InformationArrives` | src/network/room.cpp:772-801 | A client reads out of room information exactly the entries the server put in, and all of the packet |
| `Room.RoomImpl.constructor` | src/network/room.cpp:1045-1080 | An open room is empty and orderly |
| `Room.RoomImpl.IsValidNickname` | src/network/room.cpp:550-560 | The nickname is well formed and nobody has it |
| `Room.RoomImpl.IsValidFakeIPAddress` | src/network/room.cpp:562-567 | Nobody has the address |
| `Room.RoomImpl.CheckMod` | src/network/room.cpp:569-588 | The permission of the first member of the connection |
| `Room.RoomImpl.GenerateFakeIPAddress` | src/network/room.cpp:803-813 | Draws until an address is free; ends if one of the draws to come is |
| `Room.RoomImpl.BroadcastRoomInformation` | src/network/room.cpp:772-801 | Room information with one entry per member, in order, to everyone connected |
| `Room.RoomImpl.HandleJoinRequest` | src/network/room.cpp:295-399 | The first check that fails is answered and nothing changes; otherwise status, new member, room information and success, in this order |
| `Room.RoomImpl.HandleModKickPacket` | src/network/room.cpp:401-441 | Permission, then the first member of the name is told, disconnected and removed, and everyone is informed |
| `Room.RoomImpl.HandleModBanPacket` | src/network/room.cpp:443-502 | The same, and name and address are added to the ban lists once |
| `Room.RoomImpl.HandleModUnbanPacket` | src/network/room.cpp:504-539 | The first entry of each list is removed |
| `Room.RoomImpl.HandleModGetBanListPacket` | src/network/room.cpp:541-548 | The lists, for moderators |
| `Room.RoomImpl.HandleGameInfoPacket` | src/network/room.cpp:977-1010 | The sender's game is set and everyone is informed |
| `Room.RoomImpl.HandleChatPacket` | src/network/room.cpp:927-975 | To the others, cut to 500 bytes |
| `Room.RoomImpl.HandleRelayPacket` | src/network/room.cpp:815-925 | Broadcast or single destination |
| `Room.RoomImpl.HandleClientDisconnection` | src/network/room.cpp:1012-1038 | The first member of the connection is removed and everyone is informed |
| `Room.RoomImpl.SendCloseMessage` | src/network/room.cpp:716-731 | All members are told, then disconnected |
| `Room.RoomImpl.HandleReceive` | src/network/room.cpp:245-275 | Each kind of request goes to its handler |
| `RoomMember.RoomMemberImpl.Receive` | src/network/room_member.cpp:171-243 | One message changes state, members, address and errors as specified, and the assertion fails exactly on a success without members |
| `RoomMember.RoomMemberImpl.MemberLoop` | src/network/room_member.cpp:164-273 | Packets are taken in while the client is connected, and the members are forgotten when it ends |
| `RoomMember.RoomMemberImpl.HandleRoomInformationPacket` | src/network/room_member.cpp:298-341 | The member list becomes what the packet holds, entry by entry |
| `RoomMember.RoomMemberImpl.SendJoinRequest` | src/network/room_member.cpp:284-296 | Queues a packet the server reads as the request |
| `CodePageCache.DropsExactlyOnOverlap` | src/nxemu-cpu/arm_dynarmic_64.cpp:255-267 | Range invalidation drops the page exactly if the range wraps around or shares an address with it |
| `CodePageCache.StepKeeps` | src/nxemu-cpu/arm_dynarmic_64.cpp:73-96 | Fetches, changes of memory and invalidations keep every cached word whose bytes are not stale equal to memory |
| `CodePageCache.FetchAgrees` | src/nxemu-cpu/arm_dynarmic_64.cpp:73-91 | At an aligned address without stale bytes the cached fetch is the uncached one |
| `CodePageCache.RunsAgree` | src/nxemu-cpu/arm_dynarmic_64.cpp:73-91 | Over every run: a fetch at an aligned address gives what memory holds, if every change of its bytes has been covered by an invalidation since |
| `CodePageCache.ServesAlignedWord` | src/nxemu-cpu/arm_dynarmic_64.cpp:80-90 | At whatever address, a fetch through the cache gives the aligned word around it |
| `CodePageCache.UnalignedDiffers` | src/nxemu-cpu/arm_dynarmic_64.cpp:90-90 | For every unaligned address a memory on which the fetch goes wrong |
| `CodePageCache.AgreesExactlyIfAligned` | src/nxemu-cpu/arm_dynarmic_64.cpp:73-91 | The cached fetch agrees with the uncached one on all memories with a readable page if and only if the address is a multiple of four |
| `CodePageCache.DynarmicCallbacks64.ReadBlock` | src/nxemu-cpu/arm_dynarmic_64.cpp:83-86 | The buffer holds the page, or is left alone if the page cannot be read |
| `CodePageCache.DynarmicCallbacks64.MemoryReadCode` | src/nxemu-cpu/arm_dynarmic_64.cpp:73-91 | The fetch, and its agreement with memory, on the arrays |
| `CodePageCache.DynarmicCallbacks64.InvalidateCodePageCache` | src/nxemu-cpu/arm_dynarmic_64.cpp:250-253 | The page is dropped and nothing is stale |
| `CodePageCache.DynarmicCallbacks64.InvalidateCodePageCacheRange` | src/nxemu-cpu/arm_dynarmic_64.cpp:255-267 | The page is dropped or kept, and what the range covers is no longer stale |
| `CacheFormat.RoundTrip` | src/nxemu-loader/game_list_cache.cpp:165-277 | Reading a written file of any layout gives what was written and needs all of it |
| `CacheFormat.PrefixFails` | src/nxemu-loader/game_list_cache.cpp:248-272 | Reading any strict prefix of a written file fails |
| `CacheFormat.DecodeHas` | src/nxemu-loader/game_list_cache.cpp:215-241 | Whatever the bytes, what is read has the shape asked for |
| `CacheFormat.DecodeIsEncoded` | src/nxemu-loader/game_list_cache.cpp:215-277 | A read that succeeds, from any bytes, has come over exactly the encoding of what it gives |
| `CacheFormat.CacheWriter.Write` | src/nxemu-loader/game_list_cache.cpp:165-203 | Fields, strings and counted lists are appended little-endian |
| `CacheFormat.CacheReader.ReadLength` | src/nxemu-loader/game_list_cache.cpp:249-258 | A length is zero and the reader bad if that much is not left |
| `CacheFormat.CacheReader.Read` | src/nxemu-loader/game_list_cache.cpp:205-277 | Reads what the format says, failed reads included |
| `PathOrder.KeysInOrder` | src/nxemu-loader/game_list_cache.cpp:1337-1346 | Walks a map from its first key to its last |
| `PathOrder.SortedKeysOrdered` | src/nxemu-loader/game_list_cache.cpp:708-708 | The walk is in strictly increasing order |
| `NameOrder.NameLessIs` | src/nxemu-loader/game_list_cache.cpp:708-708 | The order of keys: a proper prefix, or a smaller byte at the first difference |
| `GameListRecords.LoadAfterSave` | src/nxemu-loader/game_list_cache.cpp:1232-1393 | Loading a saved file restores every persisted field of every record |
| `GameListRecords.PrefixIsRejected` | src/nxemu-loader/game_list_cache.cpp:1309-1312 | Every strict prefix of a saved file leaves memory untouched |
| `GameListRecords.OtherLanguageIsRejected` | src/nxemu-loader/game_list_cache.cpp:1246-1249 | So does a file saved under another language |
| `GameListRecords.LoadsExactlyCacheFiles` | src/nxemu-loader/game_list_cache.cpp:1232-1316 | For all bytes: the file is taken over if and only if it starts with the magic number, version 5, the language and a complete encoding of the three tables, and then as what they encode |
| `GameListRecords.ProgramBack` | src/nxemu-loader/game_list_cache.cpp:491-529 | A program's metadata and update come back from their fields |
| `GameListUpdates.HashConcat` | src/nxemu-loader/game_list_cache.cpp:66-74 | Adding to the rolling hash piece by piece is hashing the concatenation |
| `GameListUpdates.StreamIsUnique` | src/nxemu-loader/game_list_cache.cpp:1129-1136 | The bytes put into the fingerprint determine the update, and its absence |
| `GameListUpdates.Fingerprint.Add` | src/nxemu-loader/game_list_cache.cpp:66-74 | The hash is FNV-1a of everything added |
| `GameListUpdates.AddOnIndexHolds` | src/nxemu-loader/game_list_cache.cpp:707-721 | The candidates of the add-on directories are exactly the Control updates of the files seen |
| `GameListUpdates.GameIndexHolds` | src/nxemu-loader/game_list_cache.cpp:737-751 | The same for the game directories |
| `GameListUpdates.AddOnIndexInPathOrder` | src/nxemu-loader/game_list_cache.cpp:708-720 | The index is filled in path order |
| `GameListUpdates.RangeInPathOrder` | src/nxemu-loader/game_list_cache.cpp:1114-1115 | The candidates of a title keep that order |
| `GameListUpdates.BestIsHighestThenFirst` | src/nxemu-loader/game_list_cache.cpp:1109-1127 | The highest enabled version wins, among equals the first; there is a winner exactly if something is enabled |
| `GameListUpdates.RefreshIsCurrent` | src/nxemu-loader/game_list_cache.cpp:1129-1152 | Without hash collisions a refreshed program carries the update of the chosen candidate, read again or kept, and its next report overlays it |
| `GameListUpdates.CurrentUnlessCollision` | src/nxemu-loader/game_list_cache.cpp:1129-1152 | Whatever the files hold, a refreshed program carries the chosen update if and only if the remembered one has another fingerprint or was read from the same contents: with a shared fingerprint the old update is kept |
| `GameListAgreement.PassKeeps` | src/nxemu-loader/game_list_cache.cpp:928-974 | After a pass every record is what parsing gives, and exactly the listed files are seen, each with its first stamp |
| `GameListAgreement.CompletedScan` | src/nxemu-loader/game_list_cache.cpp:642-773 | A completed scan with complete listings leaves records that depend on nothing but listings, files and settings |
| `GameListAgreement.SameAsFromEmpty` | src/nxemu-loader/game_list_cache.cpp:642-773 | Such a scan leaves the same records as a scan from an empty cache |
| `GameListChoice.AddOnOffers` | src/nxemu-loader/game_list_cache.cpp:707-721 | The candidates of a title in the add-on index are exactly the Control updates of that title in the listed add-on files |
| `GameListChoice.GameOffers` | src/nxemu-loader/game_list_cache.cpp:737-751 | The same for the game files |
| `GameListChoice.OneWinner` | src/nxemu-loader/game_list_cache.cpp:1109-1127 | The highest enabled version, add-on directories before game directories and smaller paths first, is one update at most |
| `GameListChoice.ChosenWins` | src/nxemu-loader/game_list_cache.cpp:1109-1127 | What the loops choose wins in that sense among everything the listed files offer, and they choose nothing if and only if nothing is available |
| `GameListChoice.EveryProgramCarriesTheWinner` | src/nxemu-loader/game_list_cache.cpp:642-773 | After a completed scan with complete listings every application carries the winning update, or none if none is available, and the last report shows its base overlaid with it |
| `GameListTrust.EverythingIsTrusted` | src/nxemu-loader/game_list_cache.cpp:642-773 | Over any scans and restarts, starting from no file, what is in memory and what the file would load is what parsing and reading give |
| `GameListTrust.EveryScanIsFresh` | src/nxemu-loader/game_list_cache.cpp:642-773 | In every session, whatever came before, a completed scan with complete listings leaves exactly the records of a scan from an empty cache |
| `GameListTrust.EveryScanFindsTheWinner` | src/nxemu-loader/game_list_cache.cpp:642-773 | And then every application carries the winning update in its record and its last report |
| `GameListAgreement.NoGameDropped` | src/nxemu-loader/game_list_cache.cpp:723-735 | A stopped or incompletely listed scan drops no game, nor does any scan drop a listed one |
| `GameListAgreement.ScanKeepsTrust` | src/nxemu-loader/game_list_cache.cpp:642-773 | Whatever a scan comes to, records stay what parsing and reading give |
| `GameListAgreement.PersistedStaysTrusted` | src/nxemu-loader/game_list_cache.cpp:1232-1393 | Storing and loading keep it, too |
| `GameListReports.EveryGameOnce` | src/nxemu-loader/game_list_cache.cpp:939-967 | However often and under however many directories a game is listed, the reports of one pass name each of its applications exactly once, and nothing else |
| `GameListReports.LastReportIsCurrent` | src/nxemu-loader/game_list_cache.cpp:752-766 | The last report of every application shows what the cache then holds for it |
| `GameListReports.LastReportIsOverlay` | src/nxemu-loader/game_list_cache.cpp:1207-1230 | After a completed scan with complete listings the last report of each application is its base overlaid with the chosen update |
| `GameListFaces.EveryReportShowsTheWinner` | src/nxemu-loader/game_list_cache.cpp:1101-1153 | In every session, after a completed scan with complete listings, the last report of each application shows title, icon and version of the winning update where it has them, with status success, and everything else as the file was parsed |
| `GameListFaces.OverlayShows` | src/nxemu-loader/game_list_cache.cpp:1207-1230 | Field by field, what the overlay of an update shows |
| `GameListFaces.WinnerIs` | src/nxemu-loader/game_list_cache.cpp:1109-1127 | Who wins, said of listings, stamps, file contents and settings alone |
| `GameListFaces.AvailableIs` | src/nxemu-loader/game_list_cache.cpp:705-751 | What is available to an application: enabled Control updates of its update title in the files listed, at the stamp that counts |
| `GameListFaces.ChangesAreMarked` | src/nxemu-loader/game_list_cache.cpp:928-967 | In the passes a report is marked as a change exactly if its file was not known with the stamp it was scanned with |
| `GameListFaces.LaterReportsAreChanges` | src/nxemu-loader/game_list_cache.cpp:752-766 | Whatever else is reported is a change |
| `GameListQuiet.RescanIsQuiet` | src/nxemu-loader/game_list_cache.cpp:642-973 | Scanning again what was scanned to its end: whatever the files hold by now, nothing is parsed, read or saved, and no report says that anything changed |
| `GameListQuiet.ScanCovers` | src/nxemu-loader/game_list_cache.cpp:642-773 | A completed scan leaves every listed file known with its stamp, nothing else where the listings were complete, and every update remembered by its fingerprint |
| `GameListQuiet.RestartIsQuiet` | src/nxemu-loader/game_list_cache.cpp:642-773 | The same after a restart from the saved file, which stays as it is |
| `GameListQuiet.ScanIsSaved` | src/nxemu-loader/game_list_cache.cpp:768-771 | A scan that could be saved leaves a file that restores exactly what is in memory; one that could not leaves the file alone |
| `GameListSessions.ScanIsHonest` | src/nxemu-loader/game_list_cache.cpp:642-773 | A scan sets the flag whenever it changes anything that is stored |
| `GameListSessions.NotDirtyMeansSaved` | src/nxemu-loader/game_list_cache.cpp:768-771 | After any run of scans, if the flag is not set, loading the file on disk gives exactly the records in memory |
| `GameListListing.VisitIsList` | src/nxemu-loader/game_list_cache.cpp:585-624 | Visiting a directory is visiting its files and then its subdirectories in order |
| `GameListListing.VisitHolds` | src/nxemu-loader/game_list_cache.cpp:585-624 | The files visited are exactly those of the directories that can be entered from the root |
| `GameListListing.FullyReadIs` | src/nxemu-loader/game_list_cache.cpp:599-622 | A tree is fully read if and only if no directory that can be entered breaks off or has an unreadable entry that is not gone |
| `GameListListing.Walker.ReadDirectory` | src/nxemu-loader/game_list_cache.cpp:590-622 | Files are visited, entered subdirectories collected and failures noted |
| `GameListListing.Walker.ListDirectory` | src/nxemu-loader/game_list_cache.cpp:581-626 | The stack walk visits exactly the files of the recursive walk in its order, is complete exactly if every entered directory was read in full, and when stopped has visited a first part |
| `GameListListing.Walker.List` | src/nxemu-loader/game_list_cache.cpp:581-626 | What a scan is given for a directory: the wanted files of its tree in order, and how the listing ended |
| `GameListListing.TreesAreListed` | src/nxemu-loader/game_list_cache.cpp:642-657 | Scanning trees without a stop is a completed scan, its listings complete exactly if every entered directory is read in full, that sees exactly the wanted files of the trees |
| `GameListCache.GameListCache.Load` | src/nxemu-loader/game_list_cache.cpp:1232-1316 | Everything in the file is taken over, or nothing |
| `GameListCache.GameListCache.Save` | src/nxemu-loader/game_list_cache.cpp:1318-1393 | The file becomes the saved records, or stays |
| `GameListCache.GameListCache.BeginScan` | src/nxemu-loader/game_list_cache.cpp:688-701 | Loads on first use, and no game is seen |
| `GameListCache.GameListCache.AddOnFile` | src/nxemu-loader/game_list_cache.cpp:822-842 | A new or changed add-on file is read; it is seen |
| `GameListCache.GameListCache.EraseUnseenAddOns` | src/nxemu-loader/game_list_cache.cpp:856-868 | What was not seen is erased, and the flag set if that was anything |
| `GameListCache.GameListCache.ScanAddOns` | src/nxemu-loader/game_list_cache.cpp:808-870 | All listed add-on files up to a stop, and erasure only after complete listings |
| `GameListCache.GameListCache.WhichToParse` | src/nxemu-loader/game_list_cache.cpp:930-935 | What the cache says about each file before the loop |
| `GameListCache.GameListCache.ParseIsRight` | src/nxemu-loader/game_list_cache.cpp:930-935 | The answer from before the loop is still right when an unseen file is reached |
| `GameListCache.GameListCache.ScanGameFiles` | src/nxemu-loader/game_list_cache.cpp:928-974 | The loop with flags decided in advance does what deciding at each file would do |
| `GameListCache.GameListCache.ReportProgram` | src/nxemu-loader/game_list_cache.cpp:1207-1230 | The overlay is made once and reported |
| `GameListCache.GameListCache.EraseUnseenGames` | src/nxemu-loader/game_list_cache.cpp:723-735 | What was not seen is erased, and the flag set if that was anything |
| `GameListCache.GameListCache.ChooseUpdate` | src/nxemu-loader/game_list_cache.cpp:1109-1127 | The two loops choose the best candidate of both indices |
| `GameListCache.GameListCache.ComputeFingerprint` | src/nxemu-loader/game_list_cache.cpp:1129-1136 | The fingerprint of the chosen update |
| `GameListCache.GameListCache.RefreshOne` | src/nxemu-loader/game_list_cache.cpp:1101-1153 | Keeps or renews the update of one program |
| `GameListCache.GameListCache.RefreshGames` | src/nxemu-loader/game_list_cache.cpp:752-766 | All seen games, in path order, with their reports |
| `GameListCache.GameListCache.Conclude` | src/nxemu-loader/game_list_cache.cpp:705-767 | The end of a completed scan |
| `GameListCache.GameListCache.FinishScan` | src/nxemu-loader/game_list_cache.cpp:703-773 | Saves if anything changed, and then the flag is cleared |
| `GameListCache.GameListCache.ScanGameDirectories` | src/nxemu-loader/game_list_cache.cpp:652-655 | Directory after directory until one is stopped |
| `GameListCache.GameListCache.Scan` | src/nxemu-loader/game_list_cache.cpp:642-657 | The whole scan, as a session sees it |

## Left out

- JSON reals: which tokens the C library reads as floating-point numbers and how it prints them are parameters (`readable`, `realText`); a real keeps its token as its value, and trees with reals have no round-trip theorem.
- JsonLayout.WrittenAsLines: printed reals are taken to be non-empty and not to end in a blank or line feed.
- JSON comments, `emitUTF8` and the unsigned integer type of values: the reader produces no comment token and no unsigned value, and nothing asks for raw UTF-8 output.
- JSON offsets and the aliasing of the node stack: nodes are kept as values, and the offsets of values in the text are not part of the model; an error keeps its token but not the position inside it.
- JsonNumbers.DecodeNumberLoop: signed overflow, which C++ leaves undefined, is made to wrap, and `JsonGrammar` says of such integers what wrapping makes of them; `JsonNumbers.PrintedNeverOverflows` says that printed integers never reach it.
- Sha256Stream.SHA256.Update: chunks of 2^31 bytes and more are excluded, because the block index of the source overflows a signed integer there; the hexadecimal text of a digest is not modelled.
- FirmwareInstall.Installer.Fill: how a package is listed (game card, archive, directory) and how its files are named is not modelled; the entries are given, each with its content and the offset at which reads fail.
- FirmwareInstall.Installer.Inspect: which contents are a system update description and which hold a version is a parameter; version comparison is part of the user's answer.
- Packets on the wire: ENet, sockets and timeouts are connections that deliver in order and may lose what has not arrived when they end; only joins and room information are tied to their bytes.
- RoomProtocol: the threads of a client are not interleaved inside one pass of its loop, so a `Leave` between the handling of a message and its change of state is not represented.
- Room.RoomImpl.GenerateFakeIPAddress: that one of the draws to come is free is a precondition, since the loop need not end otherwise; `RoomServer.FreeAddressExists` says that a free address exists.
- Room.RoomImpl.CheckMod: verification of users is a function of the token.
- CodePageCache: the just-in-time compiler's own cache, and the callers that invalidate it.
- GameListCache.GameListCache.Save: writing and closing the temporary file is one step that works or does not, although the source does not check the close; records with lengths of 2^32 and more are taken not to be saved.
- GameListTrust.EverythingIsTrusted: parsing a file, reading its add-ons and reading an update are functions of path and stamp, and no two of the candidates that scans so far have chosen from have equal fingerprints; `GameListUpdates.CurrentUnlessCollision` says what happens otherwise.
- GameListQuiet.RescanIsQuiet: an add-on file listed twice has the same stamp both times; with two stamps it is read again in every scan.
- GameListListing.Walker.ListDirectory: what the iterator yields, and what the callbacks decide about each entry, is given with the tree; progress reports are not modelled.
- GameListCache.GameListCache.ParseIsRight: nothing is said about the progress counters computed from the same flags.
- The pause and stop handshake of the emulation thread, play time, Base64, settings, paths and the user interface: easier or without a safety property that spans operations.
