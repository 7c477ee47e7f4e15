# Verified models of TSLoad

TSLoad is a load generator. This project models the parts of its agent that
keep the most state, and proves what they are for:

- the memory pool: lock-free bitmap cells, fragment descriptors and the
  best-fit heap page (`Bitmap`, `Fragments`, `FragmentScan`, `Tiling`, `HeapTree`,
  `HeapSort`, `HeapPage`);
- the reference-counted graph of host objects (`HostLinks`, `HostOrder`,
  `HostInfo`);
- the JSON library: the parser as pure functions, the destructive in-place
  parser that refines them, the exact language they accept and how it differs
  from RFC 8259, what they refuse and with which code, the writer with its three
  sinks, and the round trip (`JsonSyntax`, `JsonParser`, `JsonMemory`,
  `JsonInPlace`, `JsonGrammar`, `JsonAccepts`, `JsonSound`, `JsonFlaws`,
  `JsonRefuses`, `JsonRfc`, `JsonStrtod`, `JsonUnique`, `JsonEscape`, `JsonWriter`,
  `JsonStrings`, `JsonRoundTrip`);
- trace replay (`Trace`), time-series files (`TsFile`) and the intrusive hash
  map (`HashMap`).

`dafny verify dfyconfig.toml` checks everything.

## How the models are built

Code that changes things step by step is a class or a method with loops, proved
against specification functions; code that only computes is a function. The
lock-free bitmap is a state machine whose steps are the atomic operations of
arbitrarily many threads. A few choices:

- A bitmap cell is a set of bit positions below 32. `Bitmap.FindOne` works on
  64-bit vectors, as the popcount trick does.
- `Fragments` keeps one token per bit: each bit that is not set in a cell, or
  that belongs to somebody, is in exactly one place (the cell, a thread's
  private copy, a run being set up or torn down, a live block, or a cell that
  was lost because shift counts wrap).
- A heap page is a sequence of headers, one per unit of 4 bytes, whose links are
  relative offsets, as in `agent/lib/libtscommon/include/mempool.h:70-110`. The
  ghost tree and tiling are tied to it by `Page.Valid`.
- In `HostInfo` freed memory is tracked, and a `fault` flag records any use of
  memory that holds no link. Cycles are sets of links that support each other.
- A parsed string is a position in the buffer, and reading it back is
  `JsonMemory.ReadStr`. The buffer is followed by a NUL, as
  `json_buf_from_file` provides. `strtod` is a parameter; that the parser accepts
  nothing but documents is stated for conversions that do not look behind the
  characters of a number with a point or an exponent, and only such numbers are
  given to it. The conversion that section 7.22.1.3 of C11 describes, with its
  hexadecimal numbers, infinities and NaNs, is one (`JsonStrtod.LibraryIsLocal`).
- What depends on the C implementation is a parameter of the writer: whether `char`
  is signed, and what `snprintf` prints for a floating-point number. A signed
  character is never above 0x80, and from 0x80 on it reads behind the escape
  table; the result does not depend on what is found there.
- A JSON document keeps white space, escapes and the spelling of numbers, so that
  it has a text besides its value.
- A file takes a number of bytes and then fails. Whether the creation of a
  replayed request succeeds is a parameter.
- `TsFile` takes the clock reading and the outcome of each write as parameters.
  The 512-byte header write is atomic.
- Which reads of a trace file report an error is a parameter for every step.
- The hash function is a parameter with results below the number of chains, and
  the callback of a walk may depend on how many objects were visited before.

## What the code does not do

Some properties one would expect, or that comments promise, do not hold. Each
has a concrete witness or an exact condition:

- `mp_bitmap_find_region` only ever tests the run at the lowest zero bit
  (`Bitmap.RegionSearchMissesRun`, `Bitmap.RegionSearchExact`).
- A request for zero fragments marks a descriptor without taking a bit, and the
  next request trips an assertion (`Fragments.ZeroRequestBreaks`,
  `Fragments.ZeroRequestTripsAssertion`).
- A whole cell of 32 items cannot be freed where the machine takes shift counts
  modulo 32 (`Bitmap.AllocThenFree`): its descriptors are cleared, but the cell
  stays full for good and belongs to nobody (`Fragments.QuietCellIsUnion`,
  `Fragments.LostForever`).
- Defragmentation sorts by the low 16 bits of addresses, which is address order
  exactly when the page does not straddle a 64 KiB boundary
  (`HeapSort.KeyOrderExact`); otherwise two free chunks stay adjacent exactly if
  two were adjacent across the boundary (`HeapPage.AdjacentExact`).
- A search in a heap page without free chunks follows a null root
  (`HeapPage.Page.Alloc`).
- Reference counts of host objects have 16 bits (`HostInfo.Subsystem.Attach`).
  Detaching an object from something that is not its parent trips an assertion
  only if it has no parents at all; otherwise that something loses all of its
  list and the count becomes one less than the number of links
  (`HostInfo.Subsystem.Detach`). Objects below a cycle are never destroyed,
  so that destroying all of them does not end (`HostInfo.Subsystem.DestroyRounds`).
- A destructor does not always run after those of all children: a child with
  another parent that is destroyed later falls with that one
  (`HostOrder.ParentFirst`). It has run by then if and only if no link to the child
  is left (`HostInfo.Subsystem.Destroy`).
- The parser accepts a trailing comma (`JsonRfc.TrailingCommaAccepted`,
  `JsonRfc.StrictListExact`) and, besides, exactly the other extras of
  `JsonRfc.ExtrasExact`: vertical tabs and form feeds as white space, raw control
  characters other than line feeds, plus signs, leading zeros, and points without
  a digit before or after them. A conversion that takes more than decimal numbers
  would add its spellings; the C standard's does not (`JsonRfc.NoOddFloat`). What
  follows the first value is ignored (`JsonSound.AcceptedExactly`).
- It accepts escapes that name low surrogates (`JsonParser.AcceptedEscapeIsUtf8`)
  and refuses a literal that ends with the buffer (`JsonRoundTrip.RoundTrip`).
- A tree comes back from the text that was written with success if and only if the
  C library reads every floating-point number as it printed it and, where `char` is
  unsigned, no string or name has a byte above 0x80 (`JsonRoundTrip.RoundTrip`):
  the escape of a multi-byte character is written after its leading bytes, and the
  format of numbers has six decimals.
- A byte that is refused in a name ends just the name, without its quote, and
  writing goes on; the text may be accepted as another tree
  (`JsonRoundTrip.NamesMisread`). The plain characters that wait before a refused
  byte are lost (`JsonWriter.Sink.WriteString`).
- A value that cannot be written stops the writer, and `json_write_count` then
  returns the error as a huge size (`JsonWriter.WriteCount`).
- The writer leaves control characters without an escape of their own as they
  are, which RFC 8259 does not allow (`JsonRoundTrip.WrittenIsRfc`).
- `json_write_buf` with exactly `json_write_count` bytes leaves objects, arrays
  and strings without a terminator, and terminates numbers and literals
  (`JsonWriter.WriteBuf`).
- The merge that binds chained requests stops for good at an id without a
  partner (`Trace.LinkExact`).
- Of superblocks with equal stamps the lowest slot is taken
  (`TsFile.WrittenIsChosen`). A data write or read that returns -1 is taken for a
  success, because the result is compared with an unsigned size
  (`TsFile.FailedWriteIsAccepted`, `TsFile.File.GetEntries`).
- A fetch that reaches the end of the log leaks the request it had made for the
  next record, unless the log ends with a record of the step
  (`Trace.Workload.FetchStep`).
- Removing an object from a hash map leaves its own link behind. Inserting it again
  leaves the map well formed if and only if that link is null, that is, if it had
  no successor in its chain (`HashMap.Map.Insert`).

## Model

| member | source | states |
|---|---|---|
| `Bitmap.FindOneIsLowestClear` | agent/lib/libtscommon/mempool.c:107-124 | for every word with a zero among its low 32 bits, the mod-63 popcount yields the position of the lowest zero |
| `Bitmap.FindRegion` | agent/lib/libtscommon/mempool.c:130-145 | whatever the loop does, the result is decided by the run at the lowest zero bit |
| `Bitmap.RegionSearchMissesRun` | agent/lib/libtscommon/mempool.c:126-145 | a cell with a clear pair of bits for which the search fails |
| `Bitmap.RegionSearchExact` | agent/lib/libtscommon/mempool.c:130-145 | the search succeeds inside the cell if and only if the run at the lowest zero bit is clear and fits |
| `Bitmap.CellChoiceIsClear` | agent/lib/libtscommon/mempool.c:159-209 | a chosen run is clear, inside the cell and inside the item limit, and starts at the lowest clear bit |
| `Bitmap.CellChoiceExact` | agent/lib/libtscommon/mempool.c:159-209 | a cell that is not busy gives out the items from a bit on if and only if that bit is its lowest clear one and the items are clear and inside the limit; otherwise it refuses |
| `Bitmap.OneItemExact` | agent/lib/libtscommon/mempool.c:159-209 | one item is given out if and only if a bit inside the limit is clear |
| `Bitmap.WholeCellExact` | agent/lib/libtscommon/mempool.c:159-209 | 32 items are given out if and only if the cell is empty and whole |
| `Bitmap.CellAlloc` | agent/lib/libtscommon/mempool.c:159-209 | without interference a cell gains exactly the run from its lowest clear bit on, if it can give it; one that cannot, or is busy, is unchanged |
| `Bitmap.BitmapAlloc` | agent/lib/libtscommon/mempool.c:222-257 | the returned index names the run that the first cell which can give it gives, from its lowest clear bit on, inside the cell and inside the items; failure means that no cell can, and nothing changed; for one item, that all items are taken |
| `Bitmap.OneItemRefused` | agent/lib/libtscommon/mempool.c:222-257 | no cell can give a single item if and only if every item is taken |
| `Bitmap.BitmapFree` | agent/lib/libtscommon/mempool.c:316-334 | exactly the bits of the mask are cleared, under either reading of a shift by 32; other cells are unchanged |
| `Bitmap.AllocThenFree` | agent/lib/libtscommon/mempool.c:222-334 | freeing what was allocated restores the bitmap, if and only if shift counts do not wrap, fewer than 32 items were asked for, or nothing was allocated |
| `Fragments.StepKeeps` | agent/lib/libtscommon/mempool.c:159-522 | every atomic step of every thread keeps the token invariant and the agreement of descriptors with it |
| `Fragments.RunKeeps` | agent/lib/libtscommon/mempool.c:159-522 | so does every interleaving of non-empty requests, under either reading of a shift by 32 |
| `Fragments.LiveBlocksDisjoint` | agent/lib/libtscommon/mempool.c:159-209 | in every reachable state no two live blocks share a fragment, under either reading |
| `Fragments.QuietCellIsUnion` | agent/lib/libtscommon/mempool.c:159-334 | a cell that no thread is between exchanging and writing back holds exactly the bits of live blocks and of runs being written or cleared, if and only if no block of the whole cell was freed where shift counts wrap; after that it is full and nobody owns any of it |
| `Fragments.LostForever` | agent/lib/libtscommon/mempool.c:159-334 | such a cell stays full, whatever the threads do |
| `FragmentScan.AloneEnds` | agent/lib/libtscommon/mempool.c:159-460 | from every reachable state, wherever other threads are, a request that runs alone ends with a live block at the lowest clear bit of the first cell that can give it, which gains just those bits; it is aborted if and only if no cell can, and then nothing changed |
| `FragmentScan.GivesUpLate` | agent/lib/libtscommon/mempool.c:222-257 | under every interleaving, a request is aborted only after each cell has refused it exactly three times, being busy or unable |
| `FragmentScan.FreeEnds` | agent/lib/libtscommon/mempool.c:462-507 | a free that runs alone leaves the block no longer live, just its descriptors unallocated and just its bits clear, except where shift counts wrap for a whole cell |
| `Fragments.AssertionsNeverFail` | agent/lib/libtscommon/mempool.c:396-460 | the assertions of an allocation never fail, and every clear bit has an unallocated descriptor |
| `Fragments.GetDescrFindsBlock` | agent/lib/libtscommon/mempool.c:509-526 | a pointer to any byte of a live block leads to its first descriptor, with its true size |
| `Fragments.GetDescrOfUnowned` | agent/lib/libtscommon/mempool.c:509-522 | a pointer into a fragment that nobody owns leads to no descriptor |
| `Fragments.InteriorIsNotFreed` | agent/lib/libtscommon/mempool.c:462-507 | a free through a pointer into a live block takes effect exactly at its first fragment; through any other fragment it is refused and changes nothing |
| `Fragments.FreeFragmentIsNotFreed` | agent/lib/libtscommon/mempool.c:462-507 | a free through a pointer into a fragment whose bit is clear is refused and changes nothing |
| `Fragments.ZeroRequestBreaks` | agent/lib/libtscommon/mempool.c:396-460 | completing a request for zero fragments breaks the invariant in every state |
| `Fragments.ZeroRequestTripsAssertion` | agent/lib/libtscommon/mempool.c:396-460 | zero fragments and then one fragment make an assertion fail |
| `Tiling.SplitTiles` | agent/lib/libtscommon/mempool.c:1075-1088 | splitting a chunk keeps the page tiled without gap or overlap |
| `Tiling.MergeTiles` | agent/lib/libtscommon/mempool.c:714-734 | merging two adjacent chunks keeps the page tiled |
| `Tiling.MergeUndoesSplit` | agent/lib/libtscommon/mempool.c:714-734 | merging is the inverse of splitting |
| `HeapTree.InsertOrdered` | agent/lib/libtscommon/mempool.c:798-865 | insertion keeps the tree ordered, smaller or equal sizes left and larger or equal ones right |
| `HeapTree.InsertAdds` | agent/lib/libtscommon/mempool.c:798-865 | insertion adds one node, its size and its offset, and nothing else |
| `HeapTree.PlugShrinks` | agent/lib/libtscommon/mempool.c:878-938 | removing a node somewhere in the tree removes that one node and no other, and keeps the order |
| `HeapSort.KeyOrderExact` | agent/lib/libtscommon/mempool.c:668-675 | comparing low address bits orders all offsets of a page if and only if the page does not straddle a 64 KiB boundary |
| `HeapSort.SortIncreasing` | agent/lib/libtscommon/mempool.c:668-712 | on such a page the sorted free list is in increasing order of offsets |
| `HeapSort.SortRotated` | agent/lib/libtscommon/mempool.c:668-712 | on every page it is in that order from the boundary on, and then up to it |
| `HeapPage.LinksFit` | agent/lib/libtscommon/include/mempool.h:82-110 | the relative links of every node of the free tree fit their 11-bit fields, and no such header looks allocated |
| `HeapPage.Page.constructor` | agent/lib/libtscommon/mempool.c:557-615 | a new page is one free chunk and valid |
| `HeapPage.Page.BtreeInsert` | agent/lib/libtscommon/mempool.c:798-865 | the in-place insertion builds the tree of the pure insertion and changes only links of tree nodes |
| `HeapPage.Page.BtreeDelete` | agent/lib/libtscommon/mempool.c:878-938 | the in-place removal, with successor promotion, leaves the context around the pure removal |
| `HeapPage.Page.FindDelete` | agent/lib/libtscommon/mempool.c:945-1001 | a free chunk of minimum sufficient size is removed and no other, or NULL is returned exactly when none fits; the tree stays ordered |
| `HeapPage.Page.Alloc` | agent/lib/libtscommon/mempool.c:1010-1092 | the smallest sufficient free chunk is allocated and trimmed, the page stays tiled, the tree holds exactly the free chunks, and the counters are their number and sum; the search faults exactly on a page without free chunks |
| `HeapPage.Page.Free` | agent/lib/libtscommon/mempool.c:1113-1160 | freeing adds exactly the chunk's units to the free ones and keeps the page valid; with enough free chunks every eighth call defragments, as stated for Defrag |
| `HeapPage.Page.Linearize` | agent/lib/libtscommon/mempool.c:653-666 | the array receives the tree in pre-order, and the count is the number of nodes |
| `HeapPage.Page.MergeFreeChunks` | agent/lib/libtscommon/mempool.c:684-746 | rebuilding keeps allocated chunks and the free total, gives an ordered tree, its assertion on the count holds, and free chunks stay adjacent only across the 64 KiB boundary |
| `HeapPage.Page.Defrag` | agent/lib/libtscommon/mempool.c:684-746 | the exact set of free units and their number are kept; when due, no two free chunks are adjacent if and only if none were across the 64 KiB boundary, and never on a page that does not straddle one |
| `HeapPage.AdjacentExact` | agent/lib/libtscommon/mempool.c:684-746 | why: merging in rotated order never grows a chunk over the boundary, and closes every other gap |
| `HostInfo.Subsystem.Add` | agent/lib/libhostinfo/hiobject.c:174-187 | a new object is on the list without parents |
| `HostInfo.Subsystem.Attach` | agent/lib/libhostinfo/hiobject.c:197-220 | one more link, embedded or allocated; counts equal links afterwards if and only if the 16-bit count did not wrap |
| `HostInfo.Subsystem.Detach` | agent/lib/libhostinfo/hiobject.c:230-251 | one link less, the count stays the number of links; without such a link, an object without parents trips the assertion and nothing changes, and otherwise the list head is unlinked: the parent keeps no child, the count is lowered all the same, and is one less than the links that remain |
| `HostInfo.Subsystem.Destroy` | agent/lib/libhostinfo/hiobject.c:260-292 | refused while parents remain; otherwise only the object and what it reaches are gone, nothing that had a parent is left without one, exactly the links of what is gone are dropped, each destructor ran once with no link left, and no freed memory was used; the destructors run in the order of a walk that descends at each last link, that of the object comes last, and when one runs each of its children has been destructed if and only if no link to the child is left |
| `HostInfo.FallsExactly` | agent/lib/libhostinfo/hiobject.c:253-292 | what is left after a destruction: exactly the objects below another object without parents or below a cycle |
| `HostInfo.Subsystem.DropChild` | agent/lib/libhostinfo/hiobject.c:271-284 | dropping one link destroys the child exactly if it was the last, with the same account of what falls and in which order |
| `HostOrder.OnlyChildFirst` | agent/lib/libhostinfo/hiobject.c:260-292 | an object with a single parent is destructed before it |
| `HostOrder.ParentFirst` | agent/lib/libhostinfo/hiobject.c:260-292 | an object with two parents is destructed after the one that is walked first |
| `HostInfo.Subsystem.DestroyPass` | agent/lib/libhostinfo/hiobject.c:306-314 | a pass destroys the first object of the list that has no parents |
| `HostInfo.NextLink` | agent/lib/libhostinfo/hiobject.c:271-284 | the saved next link is never freed by the recursion: it is a stored link to a live object |
| `HostInfo.RootExists` | agent/lib/libhostinfo/hiobject.c:299-319 | an acyclic non-empty graph has an object without parents |
| `HostLinks.AcyclicExact` | agent/lib/libhostinfo/hiobject.c:299-319 | a graph has no cycle if and only if no links support each other |
| `HostInfo.Subsystem.DestroyAll` | agent/lib/libhostinfo/hiobject.c:299-319 | terminates on every acyclic graph, destructs each object exactly once and only when no link to it is left, in the same order with respect to its children, frees every link, and uses no freed memory |
| `HostInfo.Subsystem.DestroyRounds` | agent/lib/libhostinfo/hiobject.c:299-319 | the loop empties the list, within as many passes as there are objects, if and only if the graph has no cycle; links of cycles are never dropped |
| `JsonParser.Utf8RoundTrip` | agent/lib/libtsjson/parser.c:181-203 | the bytes written for a code point decode to it, as in section 3 of RFC 3629, exactly unless it is a surrogate |
| `JsonParser.AcceptedEscapeIsUtf8` | agent/lib/libtsjson/parser.c:108-212 | an accepted escape is the value of its four digits in valid UTF-8, exactly unless it names a low surrogate |
| `JsonParser.PValueFrame` | agent/lib/libtsjson/parser.c:512-573 | what a value parses to depends only on the bytes from its position on |
| `JsonSyntax.Spelling` | agent/include/tsload/json/json.h:126-150 | the characters and literals of the library are those of JSON, and the error codes those of its header |
| `JsonSyntax.Classes` | agent/lib/libtsjson/parser.c:56-73 | white space, digits and the characters of numbers are these |
| `JsonAccepts.QuoteParses` | agent/lib/libtsjson/parser.c:137-290 | a quoted text of raw characters and escapes parses to the C string of the characters they stand for |
| `JsonAccepts.DocParses` | agent/lib/libtsjson/parser.c:385-573 | the text of every document, with any white space and spelling, parses to its value |
| `JsonSound.ReadValue` | agent/lib/libtsjson/parser.c:385-573 | whatever parses to a value is the text of a document with that value |
| `JsonSound.AcceptedExactly` | agent/lib/libtsjson/parser.c:512-596 | the parser accepts a buffer, with a value and an end, if and only if a document with that value lies at its start |
| `JsonRefuses.FlawFails` | agent/lib/libtsjson/parser.c:108-573 | a text with a flaw is refused with the code of the flaw, however deep it lies: a number out of range or malformed, an unknown or cut literal, a raw line feed, a missing quote, a bad escape, a missing name, colon, comma or bracket, an unexpected character, or the end of the buffer in their place |
| `JsonRefuses.ReadFlaw` | agent/lib/libtsjson/parser.c:108-573 | whatever is refused has such a flaw, with that code |
| `JsonRefuses.RefusedExactly` | agent/lib/libtsjson/parser.c:512-596 | the parser refuses a text with a code if and only if the text has a flaw with that code |
| `JsonRefuses.LongNumberRefused` | agent/lib/libtsjson/parser.c:324-383 | an integer of any length beyond 64 bits is an overflow |
| `JsonRfc.RfcTextAccepted` | agent/lib/libtsjson/parser.c:385-596 | every text of RFC 8259, sections 2 to 7, whose numbers and escapes the library can represent is accepted with its value, exactly unless it is a bare literal that ends the buffer |
| `JsonRfc.ExtrasExact` | agent/lib/libtsjson/parser.c:83-573 | an accepted document follows that grammar if and only if it has none of the extras: a trailing comma, odd white space, a raw control character, a plus sign, a leading zero, a point without a digit before it or after it, or a number that is not decimal |
| `JsonRfc.ExtrasOccur` | agent/lib/libtsjson/parser.c:83-573 | accepted documents with each of the extras alone, but for those of floating-point numbers |
| `JsonRfc.DecimalExact` | agent/lib/libtsjson/parser.c:324-383 | a decimal number of the C standard, section 7.22.1.3 of C11, is a number of RFC 8259 if and only if it has no plus sign, no leading zero, and digits on both sides of a point |
| `JsonRfc.NoOddFloat` | agent/lib/libtsjson/parser.c:324-383 | with a conversion that takes exactly the decimal numbers, no accepted document has a number that is not decimal |
| `JsonRfc.OddFloatsOccur` | agent/lib/libtsjson/parser.c:324-383 | 1. and -.5 are accepted, each with its extra alone, if the conversion takes them |
| `JsonRfc.TrailingCommaAccepted` | agent/lib/libtsjson/parser.c:404-471 | the text [1,] is an array of one element |
| `JsonRfc.StrictListExact` | agent/lib/libtsjson/parser.c:404-471 | the list parser agrees with one that wants an item after every comma, if and only if no comma of the list is followed, after white space, by the closing bracket |
| `JsonStrtod.LibraryIsLocal` | agent/lib/libtsjson/parser.c:324-383 | a conversion of the longest beginning that is a decimal number, a hexadecimal number, an infinity or a NaN does not look behind a number with a point or an exponent |
| `JsonStrtod.LibraryIsStandard` | agent/lib/libtsjson/parser.c:324-383 | of the spellings the parser gives to it, it takes exactly the decimal numbers as a whole |
| `JsonStrtod.LibraryExists` | agent/lib/libtsjson/parser.c:324-383 | whatever hexadecimal numbers, infinities and NaNs there are, some conversion is as the standard describes |
| `JsonUnique.DocUnique` | agent/lib/libtsjson/parser.c:385-573 | a text, with whatever follows it, is the text of at most one document |
| `JsonUnique.RfcTextExact` | agent/lib/libtsjson/parser.c:83-573 | the text of an accepted document is a text of RFC 8259, however it is read, if and only if the document has no extras and its surrounding white space is that of the RFC |
| `JsonUnique.ParsedIsDoc` | agent/lib/libtsjson/parser.c:512-596 | the parser reads the text of a document as that document or refuses it, for conversions that do not look behind a number |
| `JsonInPlace.Parser.SkipWhitespace` | agent/lib/libtsjson/parser.c:83-106 | stops at the first character that is not white space, or at the end |
| `JsonInPlace.Parser.UnescapeString` | agent/lib/libtsjson/parser.c:137-238 | decodes in place without passing the closing quote or its own read position; the result is the length lost, or the error of the pure decoder |
| `JsonInPlace.Parser.ParseString` | agent/lib/libtsjson/parser.c:240-290 | a slice that reads as the pure grammar's string, with one reference; bytes after it and before it are untouched |
| `JsonInPlace.Parser.ParseNumber` | agent/lib/libtsjson/parser.c:324-383 | the number, position or error of the pure grammar, whose codes are characterised by JsonRefuses |
| `JsonInPlace.Parser.ParseLiteral` | agent/lib/libtsjson/parser.c:489-510 | the outcome of the pure grammar, with the unsigned bound of the source |
| `JsonInPlace.Parser.ParseNode` | agent/lib/libtsjson/parser.c:385-487 | the tree of the pure grammar; strings returned before stay readable, and every error path gives back its references |
| `JsonInPlace.Parser.ParseValue` | agent/lib/libtsjson/parser.c:512-573 | the same for any value |
| `JsonInPlace.Parser.StrReference` | agent/lib/libtsjson/common.c:126-135 | tags and terminates a slice inside its quotes and takes a reference |
| `JsonInPlace.Parser.StrFree` | agent/lib/libtsjson/common.c:137-153 | gives a reference back; the buffer is freed with the last one |
| `JsonInPlace.Parser.CopyNode` | agent/lib/libtsjson/common.c:203-233 | a copy reads the same and holds one reference per string |
| `JsonInPlace.Parser.DestroyNode` | agent/lib/libtsjson/common.c:235-255 | destroying a tree gives back exactly its references |
| `JsonInPlace.Parser.Parse` | agent/lib/libtsjson/parser.c:575-596 | the whole in-place parser returns the tree or the error of the pure grammar on an untouched copy; afterwards references equal strings, and the buffer is freed if there are none |
| `JsonInPlace.Session.Copy` | agent/lib/libtsjson/node.c:548-562 | copying keeps the count exact |
| `JsonInPlace.Session.Destroy` | agent/lib/libtsjson/common.c:235-255 | over every history of copying and destroying, the count is the number of live strings and the buffer is freed once, with the last |
| `JsonWriter.Sink.WriteString` | agent/lib/libtsjson/writer.c:52-127 | exactly which bytes a sink receives for every string: plain stretches, escapes and, where characters are unsigned, leading bytes and escapes of multi-byte characters; a byte that belongs to no accepted character is an error and leaves the string unfinished |
| `JsonWriter.Sink.WriteNumber` | agent/lib/libtsjson/writer.c:131-158 | a number whose text fits the scratch buffer is written, one that does not fit is refused and the sink is unchanged; the decimal text of a 64-bit integer always fits |
| `JsonWriter.Sink.WriteImpl` | agent/lib/libtsjson/writer.c:160-247 | a sink that takes everything receives the whole text, which ends with the first value that cannot be written, and another sink a part of it; success exactly when it took everything and every value could be written; a name that cannot is passed over; the error is that of the sink or of the first such value |
| `JsonWriter.WriteCount` | agent/lib/libtsjson/writer.c:253-287 | the count is one more than the length of the text; if a value cannot be written, it is the error code as an unsigned size |
| `JsonWriter.WriteBuf` | agent/lib/libtsjson/writer.c:300-364 | success exactly when the text is shorter than the buffer and every value could be written; the buffer starts with the text whenever it is shorter; no write is out of bounds; with two bytes left the text is terminated, with one exactly numbers and literals are |
| `JsonWriter.WriteFile` | agent/lib/libtsjson/writer.c:373-413 | the file receives the text as far as it takes bytes; success exactly when it takes them all and every value could be written, and which errors otherwise |
| `JsonWriter.WriteCounted` | agent/lib/libtsjson/writer.c:253-413 | a buffer of the counted size receives what a file receives |
| `JsonWriter.FirstFailureAt` | agent/lib/libtsjson/writer.c:160-247 | the error of a container is that of its first child that cannot be written |
| `JsonWriter.IndentOfDepth` | agent/lib/libtsjson/writer.c:160-230 | in formatted text a child at depth k stands behind two spaces for each level, and so does the bracket that closes it |
| `JsonWriter.LineOfKid` | agent/lib/libtsjson/writer.c:160-230 | what stands around a name and a value, compact or formatted |
| `JsonStrings.EscapeTable` | agent/lib/libtsjson/writer.c:39-110 | the escapes written and read are those of section 7 of RFC 8259 |
| `JsonStrings.NoOtherEscape` | agent/lib/libtsjson/parser.c:152-223 | there are no other escapes |
| `JsonStrings.HexDigitExact` | agent/lib/libtsjson/parser.c:108-129 | hexadecimal digits are the usual ones, lower or upper case, and nothing else is one |
| `JsonStrings.CodePointIsUtf8` | agent/lib/libtsjson/writer.c:61-84 | what is escaped for a multi-byte character in UTF-8 is the character |
| `JsonStrings.CodePointOfBits` | agent/lib/libtsjson/writer.c:61-84 | for any other bytes, it is what the UTF-8 sequence with the same low bits spells |
| `JsonStrings.EscapeIsNumber` | agent/lib/libtsjson/writer.c:83-84 | it is sent as a backslash, the letter u and four hexadecimal digits |
| `JsonStrings.SentOfUtf8` | agent/lib/libtsjson/writer.c:52-127 | every text in UTF-8 of up to three bytes a character is accepted, and each character beyond ASCII is sent as its bytes but the last and then its number |
| `JsonStrings.QuotedIsText` | agent/lib/libtsjson/writer.c:52-127 | what is sent for an accepted string is a quotation of its leading bytes, escapes and other characters |
| `JsonStrings.StringReads` | agent/lib/libtsjson/writer.c:52-127 | it is read as the string itself if and only if no byte took the branch of multi-byte characters |
| `JsonStrings.QuotedQuotes` | agent/lib/libtsjson/writer.c:52-127 | what is sent for any string has no more quotes than any quotation that is read as the string, and one less if a byte was refused |
| `JsonRoundTrip.DecimalScan` | agent/lib/libtsjson/parser.c:324-383 | a written integer converts to itself, out of range exactly beyond 64 bits |
| `JsonRoundTrip.DocOfText` | agent/lib/libtsjson/writer.c:160-247 | what is written, at any indentation, is the text of a document, if every value and name could be written |
| `JsonRoundTrip.DocOfValue` | agent/lib/libtsjson/writer.c:160-247 | that document is accepted and has the tree as its value, if and only if every floating-point number is read as printed and no string or name has a multi-byte character escaped |
| `JsonRoundTrip.RoundTrip` | agent/lib/libtsjson/writer.c:160-247 | for every tree that was written with success, compact or formatted, parsing the text gives the tree back if every floating-point number is read as printed and no string or name took the branch of multi-byte characters, exactly unless the root is a bare literal; and, for printed RFC numbers and conversions that do not look behind a number, not otherwise |
| `JsonRoundTrip.ReadBackIsWhole` | agent/lib/libtsjson/writer.c:187-199 | a tree with a name that was cut short never comes back |
| `JsonRoundTrip.NamesMisread` | agent/lib/libtsjson/writer.c:187-199 | an object with two refused names is written with success and accepted as an object with one name that holds the first value |
| `JsonRoundTrip.WrittenIsRfc` | agent/lib/libtsjson/writer.c:36-127 | text with every value and name is a text of RFC 8259, however it is read, if and only if every control character in its strings has an escape of its own |
| `JsonRoundTrip.WrittenDocRfc` | agent/lib/libtsjson/writer.c:36-247 | the same for the document that is written, at any indentation |
| `JsonRoundTrip.WriteThenParse` | agent/lib/libtsjson/parser.c:575-596 | the in-place parser, run on a written file, holds the tree that was written |
| `Trace.PassedLosesNothing` | agent/cmd/tsexperiment/steps.c:384-451 | behind the saved index lie all records of later steps |
| `Trace.Workload.FetchStep` | agent/cmd/tsexperiment/steps.c:384-451 | for steps in increasing order, a fetch succeeds exactly when the file has enough records of the step before the first read that reports an error, collects the first of them, and saves the first record of a later step; otherwise the request made for the next record is leaked exactly if the file was read to its end and does not end with a record of the step |
| `Trace.Workload.InsertRq` | agent/cmd/tsexperiment/steps.c:453-476 | a request goes after the last one with a smaller id |
| `Trace.SortByIdSorts` | agent/cmd/tsexperiment/steps.c:453-476 | for every order of arrival the list is sorted and holds exactly what arrived |
| `Trace.CountChained` | agent/cmd/tsexperiment/steps.c:488-499 | counts the requests that continue in the next workload |
| `Trace.Bind` | agent/cmd/tsexperiment/steps.c:290-314 | one pass binds every request as the two-pointer merge specifies |
| `Trace.LinkExact` | agent/cmd/tsexperiment/steps.c:290-314 | with distinct ids, a request is bound to the one with its id if and only if all smaller ids of the next workload have a partner, too |
| `Trace.Steps.GetStep` | agent/cmd/tsexperiment/steps.c:259-363 | fetches, binds and creates a step for a chain of workloads; succeeds exactly when every workload has enough records that can be read and every request is accepted, creates those of the step up to the first that is not, and leaves no request on a list |
| `Trace.LevelsSeen` | agent/cmd/tsexperiment/steps.c:384-451 | a step that is complete before the first failing reads is the step of the whole files |
| `Trace.FollowExact` | agent/cmd/tsexperiment/steps.c:316-351 | a created request is followed by exactly the requests of later workloads with its id |
| `Trace.ReplayComplete` | agent/cmd/tsexperiment/steps.c:259-363 | replay of a recorded step creates every recorded request of every workload once, and no other |
| `TsFile.WrittenIsChosen` | agent/lib/libtsfile/tsfile.c:313-335 | the superblock written last is found again if and only if its stamp is later, or equal with the ring just wrapped to slot 0 |
| `TsFile.File.FindSuperblock` | agent/lib/libtsfile/tsfile.c:313-323 | finds the newest superblock, and fails exactly when none was ever written |
| `TsFile.File.constructor` | agent/lib/libtsfile/tsfile.c:234-281 | a new file is empty whatever the old file held |
| `TsFile.File.Reopen` | agent/lib/libtsfile/tsfile.c:283-335 | a reopened file holds exactly the entries covered by the last completed header write, whatever the clock says now |
| `TsFile.File.Add` | agent/lib/libtsfile/tsfile.c:356-394 | entries are appended in order, and a failing data or header write leaves what was saved intact, while the clock advances, the count fits and no data write returns -1 |
| `TsFile.File.GetCount` | agent/lib/libtsfile/tsfile.c:396-404 | the number of entries |
| `TsFile.File.GetEntries` | agent/lib/libtsfile/tsfile.c:406-437 | reads exactly the entries of a range, refuses exactly the empty and the excessive ranges, reports short reads, and takes a failing read for a success |
| `TsFile.Play` | agent/lib/libtsfile/tsfile.c:234-394 | the same over every history of additions, short or lost writes, crashes and reopenings |
| `TsFile.FailedWriteIsAccepted` | agent/lib/libtsfile/tsfile.c:371-394 | a data write that returns -1 is reported as success, counted, and cannot be read |
| `HashMap.Map.Find` | agent/lib/libtscommon/hashmap.c:226-253 | the object of the key in the finite map, or NULL |
| `HashMap.Map.Insert` | agent/lib/libtscommon/hashmap.c:128-168 | refused exactly when the key is present; otherwise the map gains it at the end of its chain, and is well formed if and only if the object's link was null |
| `HashMap.Map.Remove` | agent/lib/libtscommon/hashmap.c:179-220 | succeeds exactly when this object is in the map; its chain loses it and nothing else, and the object keeps its link |
| `HashMap.Map.Walk` | agent/lib/libtscommon/hashmap.c:272-322 | visits the objects of the chains in order up to the first stop, and leaves every chain without exactly the flagged ones, in its order |
| `HashMap.GoneExact` | agent/lib/libtscommon/hashmap.c:272-322 | the flagged objects are those visited for which the callback said so |
| `HashMap.KeepExact` | agent/lib/libtscommon/hashmap.c:272-322 | what is left of a chain are the other objects, one behind the other as before |
| `HashMap.FlatOnce` | agent/lib/libtscommon/hashmap.c:272-322 | the order of a walk has no object twice |
| `HashMap.FlatIsMap` | agent/lib/libtscommon/hashmap.c:272-322 | the objects in the order of a walk are exactly those of the finite map |

## Left out

- Allocation and release of several cells (`agent/lib/libtscommon/mempool.c:267-314`, `336-353`): the first cell is not counted, a failure clears a cell of another owner and the release ignores its start, so blocks are not disjoint there. Requests have at most 32 fragments.
- Slab caches, `mp_realloc`, the list of heap pages with its locks and the release of pages by age: one heap page is modelled, under its mutex; the `aged` parameter of `Page.Free` stands for the age test.
- Memory ordering: atomic operations are sequentially consistent.
- Fragments.ZeroRequestBreaks: one direction only; the invariant is proved for all runs of non-empty requests, and a zero-fragment request is shown to break it.
- HeapPage.Page.Free: the chunk is one that was allocated on the page; other pointers are not detected by the source.
- HeapPage.Page.Linearize: page memory is a sequence of headers, so that contents of allocated chunks are not modelled.
- Several subsystems, probing and formatting of host objects are not modelled.
- JsonInPlace.Parser.ParseNumber: the value of a floating-point literal is the parameter's.
- JsonRoundTrip.RoundTrip: numbers are finite, and what the C library prints and reads is a parameter; locales that print no point are outside the converse.
- JsonWriter.WriteBuf: the buffer has at least one byte; for none the source computes a wrapped size.
- JSON strings created by the program rather than parsed, typed access to nodes, and line and column numbers in messages.
- JsonRoundTrip.WrittenIsRfc: text of which a value or name is missing is not characterised; `JsonRoundTrip.NamesMisread` shows that it can be a text of RFC 8259, too.
- Trace.Workload.FetchStep: a read that returns -1 passes for a success (`TsFile.File.GetEntries`); what such a read leaves in the request is not modelled.
- Trace.Steps.GetStep: the parent generator's answer is a parameter; indices are unbounded.
- Schemas, byte order and the JSON interface of time-series files.
- HashMap.Map.Remove: the mutex is not modelled; the source keeps it locked when the chain is empty.
- CSV files, the preprocessor of module sources, the experiment runner, clients and sockets, request scheduling, build scripts, the server, command-line tools, logging and platform wrappers: they would add input and output or easy members.
