# Verified models of the browser's byte-level and stateful cores

This project models the parts of the repository where a small slip corrupts data silently, and
proves for all inputs or all runs what those parts are for. Code that works in place is modelled
in place: the archive rewriter fills arrays and patches bytes, the arena pool is a set of linked
lists on the heap, the base64 writer keeps its three-byte carry in an array, the inbox is a doubly
linked queue, the layout export pushes to shared arrays. Every method is proved against a
specification function, and the theorems are stated about those functions.

| files | what they model |
|---|---|
| `Bytes`, `Decimals`, `Results`, `ByteLists` | fixed-width integers in both byte orders, C strings, decimal text, a growable byte list |
| `Elf`, `MarkMember`, `ElfLayout`, `ElfNaming`, `ElfTheorems`, `ElfAcceptance`, `ElfBytes`, `ElfExample` | one ELF64 object: finding hot symbols, naming their sections, moving the section-name table; which objects can be read; the same byte by byte; two concrete objects |
| `Archive`, `RewriteArchive`, `ArchiveTheorems`, `ArchiveAcceptance`, `ArchiveBytes`, `ArchiveExample` | the GNU `ar` archive around the objects: parser, emitter, symbol index |
| `PoolModel`, `PoolProofs`, `PoolSteps`, `Sums` | the arena pool as interleaved steps of many threads, with its byte and account ledgers |
| `ArenaPool` | the same critical sections on the heap, over intrusive free lists |
| `Base64`, `Base64Bits`, `Base64Writer` | RFC 4648, symbol by symbol, and the streaming encoder |
| `FlatLayout`, `FlatFields`, `LayoutExport` | the export of a laid-out document to flat arrays of index ranges |
| `ColumnLayout` | the vertical flow of blocks and the draw loop, over the reals |
| `InboxModel`, `Inbox` | the message queue with cherry-picking pops |
| `RegistryModel`, `NodeRegistry` | the two-way node registry |
| `QueryEncoding` | query encoding with numeric character references |
| `XmlTokens` | the tag-nesting counter and the cut of a DOCTYPE internal subset |
| `AcceptLanguage` | locale tags, the header printed for them and its parser |

What the main results say:

* **Archive rewriter.** Each symbol-index entry that named the header of member k names the header
  of member k in the output. The output parses back to the same members, at the offsets computed
  beforehand. A section is renamed exactly when the tool is meant to rename it. Everything else in
  the object reads as before, even where the symbol names share the table that moves. Rewriting
  the output changes no byte.
* **Section-name tables that do not end in NUL.** The System V gABI (chapter 4, "String Table")
  requires the terminator and the code relies on it. Without it an appended name can run on from an
  old string. `NameSurvivesIff` and `SymbolNameSurvivesIff` say what an unrenamed section and a symbol
  then read as, and exactly when they keep their names; `UnterminatedRunsOn` is an object that loses two.
* **Preformatted blocks at the edge.** The draw loop stops at the first text origin below the raster.
  A preformatted block's background starts above its text, so a block whose padding alone reaches the
  raster is not drawn; `SkippedShows` says exactly when.
* **Arena pool.** Over every interleaving of acquire, allocation, reporting, hand-over and two-phase
  release, each live arena is in one place, lists stay within their caps, a second release is caught, and
  both ledgers balance. The in-flight gauge is incremented before the allocation that can fail, so
  it exceeds the number of arenas that are out by exactly the number of failed acquisitions. `deinit`
  after a run that leaves nothing checked out brings the memory gauge back to where it started.
* **Streaming base64.** Any slicing of the input through any number of drains gives the one-shot
  encoding, and decoding that gives the input back.
* **Flat export.** The arrays read back as exactly the tree that was exported, but for a marker without
  lines, which takes the next line for its own if there is one; index ranges tile their arrays.

Real numbers stand for `f32`. Each critical section is one atomic step.

## Model

| member | source | states |
|---|---|---|
| MarkMember.MarkMember | orderfile/mark_hot_sections.zig:168-304 | The imperative pass over one object, with its arrays of hot symbols and new names and its in-place patches, yields `Mark`, about which the object theorems speak, on every byte string and hot set, errors and traps included |
| MarkMember.NameSections | orderfile/mark_hot_sections.zig:250-283 | The naming loop appends to the growing table and fills the array as `Assign` does, or stops with its error |
| ElfTheorems.PlanIsExact | orderfile/mark_hot_sections.zig:216-283 | A section gets a new name iff it is PROGBITS, has a generic name, and its first hot object or function symbol exists and does not start with `Builtins_`; the offset it gets reads back as the hot prefix plus that symbol |
| ElfTheorems.PlanBySymbols | orderfile/mark_hot_sections.zig:216-283 | The same without the scanning functions: the symbol that decides is the entry, over all symbol tables in order, that defines the section under a hot name and has no such entry before it |
| ElfNaming.FirstIsFirst | orderfile/mark_hot_sections.zig:228-247 | The symbol the scan settles on is a candidate with no candidate before it, and it settles on none only when there is no candidate |
| ElfTheorems.PlanCounts | orderfile/mark_hot_sections.zig:254-284 | The count of renamed sections is the size of the set of sections to rename |
| ElfTheorems.UntouchedIffNothingHot | orderfile/mark_hot_sections.zig:167-284 | An object is passed through iff no section of it is to be renamed; otherwise the count is the number of sections to rename |
| ElfTheorems.RenamesExactly | orderfile/mark_hot_sections.zig:24-30 | In the rewritten object a section to rename reads back under its hot name and every other section under its old name |
| ElfBytes.NamedAfterFirstHot | orderfile/mark_hot_sections.zig:40-283 | With the five names spelled out: a PROGBITS section called `.text`, `.text.unlikely.`, `.text.startup.` or `.text.exit.` reads back as `.text.hot.` plus its first hot symbol, one called `.rodata` as `.rodata.hot.` plus it, unless the symbol begins with `Builtins_`; every other section keeps its name |
| ElfBytes.RecordsInOrder | orderfile/mark_hot_sections.zig:219-232 | The symbols looked at are the records of 24 bytes of every symbol table, in order, with their fields where the format has them |
| ElfBytes.HotIs | orderfile/mark_hot_sections.zig:233-246 | A record counts iff it is an object or a function, in that section, under a name from the hot set |
| ElfBytes.LooksInto | orderfile/mark_hot_sections.zig:169-182 | The tool looks into an object iff its header says 64 bits, little-endian, section headers of 64 bytes, at least one of them, and a name table among them; anything else is passed through |
| ElfBytes.SectionFields | orderfile/mark_hot_sections.zig:184-213 | The fields of a section header are read from their places, least significant byte first, and a section's bytes are those at its offset |
| ElfBytes.TableAtEnd | orderfile/mark_hot_sections.zig:286-297 | The name table moves behind the object to the next multiple of 8, with zeros up to there, and ends it |
| ElfTheorems.NameSurvivesIff | orderfile/mark_hot_sections.zig:160-165 | Without a terminated name table, a section that is not renamed reads back as its old name followed, when no NUL follows its offset in the old table, by the hot name of the first section renamed; so it keeps its name iff a NUL follows |
| ElfTheorems.SymbolNameSurvivesIff | orderfile/mark_hot_sections.zig:26-30 | The same for symbol names: one is lost iff its strings share the section-name table and no NUL follows its offset in the old table |
| ElfExample.UnterminatedRunsOn | orderfile/mark_hot_sections.zig:286-303 | A concrete object whose shared table lacks the last NUL: a section and a symbol called `f` come out as `f.text.hot.f` |
| ElfTheorems.PreservesSections | orderfile/mark_hot_sections.zig:26-30 | Each section keeps its header bytes (the name table's offset and size and the name fields apart) and its contents; the name table's new contents extend the old |
| ElfTheorems.LinkedStringsStable | orderfile/mark_hot_sections.zig:26-30 | The string table a symbol table links to is unchanged, or is the shared name table, terminated and extended |
| ElfTheorems.PreservesSymbols | orderfile/mark_hot_sections.zig:26-30 | Every symbol keeps its record and its name string, also when its names are in `.shstrtab` |
| ElfTheorems.MarkIsIdempotent | orderfile/mark_hot_sections.zig:168-304 | Marking a marked object with the same hot set renames nothing |
| ElfExample.ObjectIsMarked | orderfile/mark_hot_sections.zig:22-29 | A concrete object whose symbol names share `.shstrtab` meets every assumption made above and has its `.text` section renamed |
| ElfNaming.ScanSectionsFindsFirst | orderfile/mark_hot_sections.zig:216-248 | The scan of all symbol tables leaves for each section the first hot symbol defined in it, in table order |
| ElfNaming.AssignExact | orderfile/mark_hot_sections.zig:255-283 | Section i is named iff it qualifies, and its offset in the final table reads back as exactly that name whatever was appended later |
| Bytes.UntilNulExtends | orderfile/mark_hot_sections.zig:160-165 | A C string reads the same after appending to its table iff it is terminated in the old table or nothing visible follows |
| ElfLayout.ReadsNewShdr | orderfile/mark_hot_sections.zig:295-301 | After the patches each section header reads as the old one with the new name, and for the name table the new offset and size |
| RewriteArchive.RewriteArchive | orderfile/mark_hot_sections.zig:82-140 | The imperative rewrite, with its member list, offset map and output buffer, yields `Rewrite`, errors included |
| RewriteArchive.RemapIndex | orderfile/mark_hot_sections.zig:143-158 | The in-place remap of the symbol index leaves the bytes `Remap` specifies, or stops with its error |
| ArchiveBytes.SymbolIndexFollowsMembers | orderfile/mark_hot_sections.zig:87-158 | Of the member whose sixteen name bytes are `/` and spaces, each big-endian 32-bit entry stands for the header of a member, and stands for the header of the same member and no other in the output; the count and what follows the entries stay |
| ArchiveBytes.SymbolIndex64FollowsMembers | orderfile/mark_hot_sections.zig:130-158 | The same for `/SYM64/` and 64-bit entries |
| ArchiveBytes.OtherMembersKept | orderfile/mark_hot_sections.zig:104-133 | A member under any other name keeps its body unless that begins with the ELF magic and has something to rename |
| ArchiveBytes.IndexWidthIs | orderfile/mark_hot_sections.zig:97-133 | Which sixteen name bytes make a member an index with entries of four or eight bytes, and that no others do |
| ArchiveBytes.MembersStand | orderfile/mark_hot_sections.zig:88-102 | Members stand one behind the other from byte 8 on, an odd body followed by a pad byte, with their sizes in columns 48 to 57 |
| ArchiveBytes.OutputFraming | orderfile/mark_hot_sections.zig:122-138 | The output begins with the magic, and each odd body is followed by a newline |
| ArchiveBytes.CutFault | orderfile/mark_hot_sections.zig:89-102 | A size field that is no number is a bad size, a body that is cut off a truncated archive, and the first fault is the one reported |
| ArchiveBytes.IndexFault | orderfile/mark_hot_sections.zig:145-157 | A symbol index too short for its count or entries, or naming no member, is a bad symbol index |
| ArchiveTheorems.EntriesFollowMembers | orderfile/mark_hot_sections.zig:143-158 | The same for entries of either width |
| ArchiveTheorems.IndexFrame | orderfile/mark_hot_sections.zig:143-158 | Of an index member only the entries change: its count and what follows the entries stay |
| ArchiveTheorems.OffsetMapExact | orderfile/mark_hot_sections.zig:114-120 | The offset map holds exactly the old header positions, each with the new position of its member |
| ArchiveTheorems.RemapSucceeds | orderfile/mark_hot_sections.zig:143-158 | The remap succeeds iff every entry names a known header whose new position fits the entry |
| ArchiveTheorems.RemappedEntry | orderfile/mark_hot_sections.zig:152-157 | After the loop each entry holds the new position of what it held before |
| ArchiveTheorems.EmittedParses | orderfile/mark_hot_sections.zig:122-138 | Parsing what the emitter wrote gives back its members, and the emitted length is the precomputed total |
| ArchiveTheorems.OutputParses | orderfile/mark_hot_sections.zig:87-138 | The output of every accepted archive parses to the emitted members and has the precomputed length |
| ArchiveTheorems.OutputMember | orderfile/mark_hot_sections.zig:104-138 | Member k of the output is member k of the input: same header fields apart from the size, its marked body, at its computed offset |
| ArchiveTheorems.ParsedMember | orderfile/mark_hot_sections.zig:89-102 | Each parsed member is the header and body that stand at its offset, with the size its header spells; members follow each other until no header fits |
| ArchiveAcceptance.AcceptsExactly | orderfile/mark_hot_sections.zig:82-158 | The rewriter succeeds iff the magic is there and the archive can be cut into members whose objects are readable and whose marked bodies fit ten digits, whose indexes hold as many entries as they count, each naming a member whose new position fits the entry, and whose total size is addressable |
| ArchiveAcceptance.CutsParse | orderfile/mark_hot_sections.zig:87-102 | Whenever members stand one behind the other until no header fits, the parser finds exactly those |
| ArchiveAcceptance.ParsesCut | orderfile/mark_hot_sections.zig:87-102 | Whatever the parser accepts stands one behind the other like that |
| ElfAcceptance.MarkSucceeds | orderfile/mark_hot_sections.zig:168-304 | An object is read without error iff it is passed through, or its tables lie in the file, links are section numbers, every name that is looked at starts inside its table, new names start below 2^32 and the result is addressable |
| ElfAcceptance.ScanSectionsOk | orderfile/mark_hot_sections.zig:216-248 | The scan succeeds iff the tables lie in the file and each name it reads, those of defining symbols of sections nothing was found for yet, starts inside its table |
| ArchiveAcceptance.RenamedCountsAll | orderfile/mark_hot_sections.zig:104-112 | The number reported is the number of sections to rename, summed over the archive's objects |
| ArchiveAcceptance.RemapOk | orderfile/mark_hot_sections.zig:143-158 | An index can be remapped iff it holds its count and its entries, and each entry names a member whose new position fits |
| ArchiveAcceptance.TenDigits | orderfile/mark_hot_sections.zig:126 | A size fits the ten columns of its field iff it is below ten to the ten |
| ArchiveTheorems.RewriteIsIdempotent | orderfile/mark_hot_sections.zig:82-140 | Rewriting the output of a well-formed archive gives the same bytes and renames zero sections |
| ArchiveExample.SampleIsRewritten | orderfile/mark_hot_sections.zig:82-140 | A concrete archive, a symbol index and an object it names, is accepted, has one section renamed and meets every assumption made above |
| Decimals.ParseDecimal | orderfile/mark_hot_sections.zig:91-126 | A printed decimal number parses back to itself |
| Decimals.ParsesDigits | orderfile/mark_hot_sections.zig:91 | Digits are read with the weights of their places, also behind a `+`, unless the number needs more than 64 bits |
| ArenaPool.ArenaPool.BucketFor | src/ArenaPool.zig:102-107 | The first bucket, tiny to large, that retains enough, and the large one when none does |
| ArenaPool.ArenaPool.Acquire | src/ArenaPool.zig:143-188 | The locked part of acquire on the heap is the model's hit, miss or failure step; what it hands out is pinned to the account asked for, not released, has nothing reported, and is the head of the list with the memory it kept, or new and empty |
| ArenaPool.ArenaPool.BeginRelease | src/ArenaPool.zig:196-221 | The first critical section reports a set flag and otherwise sets it, touching nothing else |
| ArenaPool.ArenaPool.FinishRelease | src/ArenaPool.zig:228-240 | The second critical section pushes the arena on its bucket's list or, at the cap or under safety, frees its blocks, takes them off the gauge and drops it |
| ArenaPool.ArenaPool.Release | src/ArenaPool.zig:192-241 | A whole release: caught when the flag is set; otherwise the account gets back what was reported, trimmed blocks leave the gauge, and the arena heads its list or, at the cap or under safety, gives back everything |
| ArenaPool.ArenaPool.Deinit | src/ArenaPool.zig:92-99 | Every arena on the four lists gives back its blocks, each once, and the gauge falls by exactly their sizes |
| ArenaPool.TotalIsListBytes | src/ArenaPool.zig:92-99 | What deinit frees of a list is the list's share of the arenas' byte counters |
| ArenaPool.TearDown | src/ArenaPool.zig:91-100 | `deinit` run on the heap after any run that leaves nothing checked out brings the gauge back to its value at the start and leaves no arena with memory |
| ArenaPool.Bucket.Pop | src/ArenaPool.zig:146-148 | Takes the most recently pushed entry and leaves the rest of the chain in order |
| ArenaPool.Bucket.Push | src/ArenaPool.zig:238-240 | Puts an entry in front of the chain, which stays acyclic, counted and within its cap |
| ArenaPool.Arena.Report | src/Arena.zig:82-86 | The account is told the change since the last report; an unpinned arena reports nothing |
| ArenaPool.Arena.Unpin | src/Arena.zig:117-122 | Everything reported is taken back and the arena is unpinned |
| ArenaPool.Arena.RawAlloc | src/Arena.zig:124-127 | A granted block is counted in the arena and the gauge alike, a refused one in neither |
| ArenaPool.Arena.RawRemap | src/Arena.zig:134-166 | A granted resize or remap changes arena and gauge by the difference, a refused one changes neither |
| ArenaPool.Arena.RawFree | src/Arena.zig:129-172 | A freed block leaves arena and gauge alike |
| PoolProofs.RunKeepsInv | src/ArenaPool.zig:122-241 | Every run of interleaved steps from an invariant state keeps placement, ledgers and counters |
| PoolSteps.AcquireReuses | src/ArenaPool.zig:141-161 | From a list that is not empty acquire hands out the head, pinned as asked, owing nothing, with its memory, and leaves the rest of the list, all other arenas, accounts and the memory gauge alone |
| PoolSteps.AcquireCreates | src/ArenaPool.zig:163-188 | From an empty list acquire hands out a new arena of the bucket without memory, pinned as asked |
| PoolSteps.LockedCases | src/ArenaPool.zig:146-165 | Under the lock a call reuses iff the list is not empty, and otherwise creates or fails |
| PoolSteps.ReuseIsReported | src/ArenaPool.zig:147-161 | An arena taken from the list for an account and then reported puts all the memory it kept on that account |
| PoolSteps.ReportMoves | src/Arena.zig:82-86 | Reporting moves exactly what is new since the last report to the arena's account, and nothing for an unpinned arena |
| PoolSteps.ReleaseReturns | src/ArenaPool.zig:192-241 | A release by the holder always goes through: the account gets back what was reported, the in-flight count falls, and the arena heads its list iff there is room and no safety |
| PoolSteps.AllocCounts | src/Arena.zig:147-152 | A new block is in the arena's blocks, its counter and the gauge with its exact length |
| PoolSteps.MoveCounts | src/Arena.zig:154-166 | A resized or moved block changes counter and gauge by the difference |
| PoolSteps.FreeCounts | src/Arena.zig:168-172 | A freed block leaves all three |
| PoolSteps.DrainTakesAll | src/browser/Browser.zig:234-241 | A reader takes everything pending, once |
| PoolProofs.ExactlyOnePlace | src/ArenaPool.zig:122-241 | In every reachable state each live arena is checked out by one thread, being released by one thread, or on its own bucket's list, and in no second place |
| PoolProofs.DoubleReleaseCaught | src/ArenaPool.zig:196-209 | A release is caught iff the arena is free-listed or another release of it is under way, that is iff nobody has it checked out |
| PoolProofs.ReleaseSafeIff | src/ArenaPool.zig:192-209 | A release that the flag lets through keeps every arena in one place iff the releasing thread holds the arena |
| PoolProofs.ListsBounded | src/ArenaPool.zig:231-240 | Lists repeat nothing, stay within their caps, hold only released arenas of their bucket, and are empty under safety |
| PoolProofs.CanStart | src/ArenaPool.zig:64-73 | Runs can start from any caps, threads and accounts |
| PoolProofs.BytesConserved | src/Arena.zig:124-138 | An arena's byte counter is the sum of its live blocks and never negative; the gauge is the sum over all arenas, retained ones included |
| PoolProofs.AccountsConserved | src/Arena.zig:82-122 | What an account has pending plus what was drained is what its pinned arenas report; unpinned arenas report zero |
| PoolProofs.InflightCountsFailures | src/ArenaPool.zig:141-165 | With no thread inside a call the in-flight gauge is the number of arenas out plus the number of failed acquisitions |
| PoolProofs.FailedAcquireCounted | src/ArenaPool.zig:141-165 | The shortest such run: one acquisition without memory leaves the gauge at one with no arena out |
| PoolProofs.DeinitClearsGauge | src/ArenaPool.zig:91-100 | With nothing checked out, the byte counters of the arenas on the four lists add up to everything the gauge counts |
| Base64Writer.Base64Writer.Feed | src/Base64Writer.zig:78-108 | Takes all bytes: whole groups of everything fed are encoded in the sink, the rest is carried; on failure the sink holds a prefix of the encoding |
| Base64Writer.Base64Writer.TopUp | src/Base64Writer.zig:81-87 | The carry is completed byte by byte from the front of the input |
| Base64Writer.Base64Writer.FeedGroups | src/Base64Writer.zig:93-107 | The bulk loop through 4096 bytes, which never overflow, encodes all whole groups and carries the remainder |
| Base64Writer.Base64Writer.Drain | src/Base64Writer.zig:63-76 | Feeds each slice once and the last one `splat` times, and returns the number of bytes consumed |
| Base64Writer.Base64Writer.Finish | src/Base64Writer.zig:112-117 | Afterwards the sink holds the one-shot encoding of everything fed |
| Base64Writer.EncodeThrough | src/Base64Writer.zig:19-21 | Any run of drains, then finish, writes the one-shot encoding of all the input, and that decodes to the input |
| Base64.DecodesEncoding | src/Base64Writer.zig:34-47 | For all four codecs decoding an encoding gives the input back |
| Base64Bits.SymbolIsSlice | src/Base64Writer.zig:34-47 | Symbol k of an encoding is the letter of the codec's alphabet, spelled out, for bits 6k to 6k+5 of the input |
| Base64Bits.PaddingFollows | src/Base64Writer.zig:34-47 | `standard` and `url_safe` pad with `=` to a multiple of four, by exactly (3 - n mod 3) mod 3; the other two have no padding and (4n + 2) / 3 symbols |
| Base64Bits.DataIsNotPadding | src/Base64Writer.zig:34-47 | No data symbol is `=` |
| Base64Writer.FlatParts | src/Base64Writer.zig:63-76 | What a drain consumes: its slices in order, the last as often as asked |
| Base64.EncodeConcat | src/Base64Writer.zig:93-103 | Whole groups encode independently of what follows |
| Base64.EncodedLength | src/Base64Writer.zig:96-101 | An encoding needs four symbols for each started group, exactly that when padded |
| LayoutExport.LayoutHandle.Export | src/rust/render/lib.rs:685-721 | While counts fit an index, a block's record reads back as exactly the block that was placed, marker included, iff it has no marker, or one with lines, or no line follows its own; blocks' lines are consecutive, ranges tile, fonts are distinct |
| LayoutExport.LayoutHandle.ExportLine | src/rust/render/lib.rs:723-773 | One line's record reads back as its runs and clusters, and its ranges continue the tilings |
| LayoutExport.LayoutHandle.ExportRun | src/rust/render/lib.rs:775-825 | A glyph run's record reads back as the run: face, glyphs, metrics and decorations |
| FlatFields.PackedReadsBack | src/rust/render/lib.rs:932-935 | Red, green and blue read back from the top, middle and low byte of a packed colour |
| FlatFields.DecorationFields | src/rust/render/lib.rs:788-801 | A decoration has its own offset and thickness where given, the run's metrics elsewhere, at least one px and its colour; an absent one is all zero |
| FlatFields.RunFields | src/rust/render/lib.rs:804-824 | What a run must read as: its own face, size, slant, colour, offset, baseline below the block, advance and glyphs |
| FlatFields.ClusterFields | src/rust/render/lib.rs:737-759 | What a cluster must read as; the first stands at the line's offset and each further one where the one before it ends |
| FlatFields.RecordFields | src/rust/render/lib.rs:669-682 | A consumer reads each field from the record's field of that name |
| LayoutExport.LayoutHandle.PushClusters | src/rust/render/lib.rs:737-760 | Each cluster stands at the line offset plus the advances before it, with its run's face |
| LayoutExport.LayoutHandle.FontIndex | src/rust/render/lib.rs:827-850 | The index resolves to the face asked for, and no face is listed twice |
| FlatLayout.TilesPartition | src/rust/render/lib.rs:695-771 | Tiled ranges partition their array: every element is in exactly one |
| FlatLayout.LineStable | src/rust/render/lib.rs:723-773 | What reads from the arrays reads the same after they grow |
| ColumnLayout.Layout | src/rust/render/lib.rs:1063-1186 | Every block is placed where the column has it, and the height ends one margin below the last box |
| ColumnLayout.MetricsTable | src/rust/render/lib.rs:1003-1023 | Font size, weight, margins and line height by kind and level, as numbers |
| ColumnLayout.PlacedAt | src/rust/render/lib.rs:1083-1182 | Where text, marker and quote bars stand: 24 px in per list level, 20 per quote level, 8 around preformatted text, the marker ending 6 px before the text |
| ColumnLayout.BoxSize | src/rust/render/lib.rs:1070-1183 | Text is broken to the free width in device px, at least one, and a box is as high as its text, 16 px more when preformatted, one px for a rule |
| ColumnLayout.BoxesApart | src/rust/render/lib.rs:1063-1186 | Each box ends above every later box; between neighbours lies the larger of the two margins |
| ColumnLayout.HeightIsSum | src/rust/render/lib.rs:1185 | The column's end is its margin, all box extents and all gaps |
| ColumnLayout.OriginsDescend | src/rust/render/lib.rs:1174-1183 | Placed origins go down the page |
| ColumnLayout.DrawBlocks | src/rust/render/lib.rs:1223-1227 | The loop that stops at the first origin below the raster draws exactly the blocks whose origin is not below it |
| ColumnLayout.SkippedShows | src/rust/render/lib.rs:1223-1248 | A block is skipped although its box starts on the raster iff it is preformatted and the raster ends inside its top padding |
| ColumnLayout.LosesPadding | src/rust/render/lib.rs:1223-1248 | Such an input: one preformatted block, margin 16, scale 1, raster height 20 |
| Inbox.Inbox.Push | src/Inbox.zig:67-77 | Appends to both chains of links and to the byte count |
| Inbox.Inbox.Pop | src/Inbox.zig:79-86 | Takes the oldest message, if any |
| Inbox.Inbox.PopIf | src/Inbox.zig:108-121 | Takes out the first match from wherever it stands; the others keep their places |
| Inbox.Inbox.Contains | src/Inbox.zig:92-101 | True iff some queued message matches |
| Inbox.Inbox.Deinit | src/Inbox.zig:45-53 | Discards every message once, oldest first, and resets the byte count |
| InboxModel.RunKeepsOrder | src/Inbox.zig:103-121 | Over any run, messages no used predicate tells apart are delivered in push order |
| InboxModel.RunConserves | src/Inbox.zig:67-121 | Delivered plus queued is exactly what was pushed |
| InboxModel.PlainRunIsFifo | src/Inbox.zig:67-86 | Without cherry-picking the queue is first-in first-out |
| InboxModel.BytesWithout | src/Inbox.zig:171-177 | Taking out one message takes exactly its payload size off the sum |
| InboxModel.BytesAddUp | src/Inbox.zig:171-177 | The byte count adds the lengths of CDP, BiDi and ping payloads and nothing for the others |
| NodeRegistry.NodeRegistry.Register | src/NodeRegistry.zig:89-113 | The method, its failure paths included, changes the two maps and the counter as the specification says |
| NodeRegistry.NodeRegistry.Reset | src/NodeRegistry.zig:61-65 | Both maps are emptied, the counter stays |
| NodeRegistry.NodeRegistry.ResetFrame | src/NodeRegistry.zig:70-87 | Exactly the page's nodes go, from both maps, or none when their list cannot be built |
| RegistryModel.IssuedIdsStable | src/NodeRegistry.zig:61-113 | Over every run the maps stay inverse, ids stay below the counter, and an issued id resolves to its node or to nothing ever after |
| RegistryModel.RegisterFresh | src/NodeRegistry.zig:99-112 | A new node gets the next id, in both maps |
| RegistryModel.ResetsForget | src/NodeRegistry.zig:61-87 | A reset empties both maps; a page's reset changes nothing without memory, and otherwise exactly the page's nodes stop resolving |
| RegistryModel.RegisterIsPermanent | src/NodeRegistry.zig:89-113 | A registered node resolves both ways, and asking again gives the same node, for as long as nothing is reset |
| QueryEncoding.EncodeQueryNcr | src/rust/html5ever/url.rs:674-704 | For every encoder the fast path and the retry loop give each character's bytes or its reference, and the loop terminates |
| QueryEncoding.ChunkIsPrefix | src/rust/html5ever/url.rs:690-698 | One call of the encoder and its reference are a prefix of the result, with the rest still to encode |
| QueryEncoding.FastPathAgrees | src/rust/html5ever/url.rs:675-679 | On fully mappable input both paths give the same bytes |
| QueryEncoding.CharWiseConcat | src/rust/html5ever/url.rs:674-704 | Without encoder state every stretch of the query is encoded on its own |
| QueryEncoding.CharWiseForm | src/rust/html5ever/url.rs:674-704 | Without encoder state the result is, character by character, its bytes or its reference |
| QueryEncoding.ReferenceNames | src/rust/html5ever/url.rs:696-698 | The digits of a reference spell the character's code point |
| QueryEncoding.ReferenceSpelled | src/rust/html5ever/url.rs:697 | A reference is the bytes `%26%23`, digits without a leading zero, and `%3B` |
| QueryEncoding.ExpectedStep | src/rust/html5ever/url.rs:684-701 | With an encoder that has state: each character's bytes, then its reference if it could not be mapped, then the rest from the state it left, and at the end the closing bytes |
| XmlTokens.UnclosedTagSink.ProcessToken | src/rust/html5ever/lib.rs:856-880 | The counter follows `Depth` of the tokens passed on, and end of file adds one error iff the depth is positive |
| XmlTokens.DepthIsMaxSuffix | src/rust/html5ever/lib.rs:862-868 | The saturating depth is the largest surplus of start tags over all suffixes of the stream |
| XmlTokens.NetCounts | src/rust/html5ever/lib.rs:862-868 | Only start tags count up and only end and short tags down |
| XmlTokens.ReportedIffSuffixOpen | src/rust/html5ever/lib.rs:869-876 | The error is reported iff some suffix opens more tags than it closes |
| XmlTokens.NestedNotReported | src/rust/html5ever/lib.rs:843-847 | A well-nested stream, whichever way its elements close, is never reported |
| XmlTokens.CutReported | src/rust/html5ever/lib.rs:843-847 | For every truncation of a well-nested stream the depth is the number of elements the cut leaves open |
| XmlTokens.DocumentReported | src/rust/html5ever/lib.rs:843-847 | A document tree is not reported, and a truncation of it is iff the cut leaves an element open |
| XmlTokens.StripInternalSubset | src/rust/html5ever/lib.rs:810-841 | Exactly the internal subset is cut out, and nothing when there is none |
| XmlTokens.SubsetUnique | src/rust/html5ever/lib.rs:804-809 | At most one stretch of the input is the internal subset |
| XmlTokens.SubsetRules | src/rust/html5ever/lib.rs:810-841 | What the subset is, in bytes: behind the first `<!DOCTYPE`, from the first `[` outside quotes, unless a `>` outside quotes comes first, to the first `]` outside quotes behind it |
| XmlTokens.QuoteRules | src/rust/html5ever/lib.rs:819-826 | A quote, double or single, stays open until the same byte comes again |
| AcceptLanguage.ValidateLocale | src/Config.zig:1659-1683 | Accepts exactly a 2-3 letter language with 2-8 character alphanumeric subtags in at most 35 characters, and names the first fault |
| AcceptLanguage.ValidTags | src/Config.zig:1659-1683 | The tags accepted, letter by letter and in either case |
| AcceptLanguage.AcceptLanguageFor | src/Config.zig:1103-1116 | For every valid tag the buffer holds the header, within its 64 bytes |
| AcceptLanguage.HeaderSpelled | src/Config.zig:1100-1116 | The header as printed: the tag, then its language at 0.9 if there is more to the tag, then `en` at the next lower value unless the language is English in any case |
| AcceptLanguage.ParseAcceptLanguage | src/Config.zig:1037-1057 | The loop lists what the items list, blank ones dropped |
| AcceptLanguage.LanguagesInOrder | src/Config.zig:1044-1051 | A header lists what its comma-separated items list, in order, and blank items list nothing |
| AcceptLanguage.TagBetweenBlanks | src/Config.zig:1045-1050 | Blanks and tabs around an item and everything from its `;` on are not part of its tag |
| AcceptLanguage.RoundTrip | src/Config.zig:1030-1116 | For every valid tag the printed header fits and parses back to the tag, its language if shorter, and `en` if the language is not English |

## Left out

- ElfTheorems.RenamesExactly: assumes the shape System V gABI chapter 4 promises; `NameSurvivesIff` and `SymbolNameSurvivesIff` say what happens without the terminated table.
- LayoutExport.LayoutHandle.Export: the read-back is stated for arrays whose lengths fit a 32-bit index; the casts that wrap beyond that are modelled, but nothing is claimed of what they leave.
- PoolProofs.RunKeepsInv: in the runs considered a thread gives back only what it holds, whether it acquired it or was handed it; a stale release of an arena that was acquired again passes the flag, and `ReleaseSafeIff` says what it breaks.
- Safety traps (checked additions, narrowing casts, failing `unreachable`) are the error `Overflow` of the archive model and `Trapped` of the registry; an unchecked build that wraps instead is not modelled.
- Memory exhaustion in the archive tool is modelled only where a buffer cannot have an addressable size.
- ArchiveTheorems.RewriteIsIdempotent: assumes that objects are well formed and that index members are not objects; without the latter the tool would rewrite the index itself.
- `main` of the archive tool: file access, the trimming of the hot list and the exit code for zero renamed sections.
- The debug leak tracker of the pool, including the path on which its own allocation fails after an entry left the free list.
- ArenaPool.ArenaPool.Release: assumes that an unpinned arena has nothing reported, which `AccountsConserved` shows of every reachable state.
- ArenaPool.ArenaPool.FinishRelease: is the second critical section alone, so the arena comes flagged and unpinned; `Release` is the whole call.
- Real mutexes and relaxed atomics: each critical section and each ledger update is one atomic step.
- A release through a pointer to a destroyed entry is a use after free, not a step of the model.
- How much `reset` trims: between the two critical sections the releasing thread may resize and free blocks in any way.
- `entry_pool.deinit`: the entries' own memory is not counted by the gauge.
- The 64-bit width of the account and gauge casts, and the 32-bit width of the nesting depth.
- Text shaping, line breaking, span styles and font registration: abstract functions of the block and the width.
- Rounding of `f32`: reals are exact.
- Pixel drawing, the raster size, cropping and the PNG encoder.
- The `data_len` and `name_len` fields of a font record, which repeat lengths of what they point at.
- Inbox messages own an arena; freeing it on discard is not modelled beyond each message being discarded once.
- QueryEncoding.EncodeWithoutReplacement: stands for the encoding library, as a character-wise encoder with state; its output buffer is always large enough, as the code assumes.
- `clean_hostname_input` and `fix_drive_letter_join`: string clean-ups whose purpose lies in the URL library's unseen behaviour.
- The HTML and XML tokenizers and tree builders: streams of tokens are inputs.
- The comment on `acceptLanguageFor` allows 24 bytes beside the tag; the code needs at most 19, which is what the proof uses.
- Raw pointers, foreign-function entry points and callbacks of the Rust crates.
