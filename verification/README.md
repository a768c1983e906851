# Bulk buffers, section lists and argz vectors

A Dafny model of the three places in the vendored headers under `linux_include/` that hold complete algorithms:

- **Berkeley DB bulk buffers** (`db.h`): the `DB_MULTIPLE_*` macros put many items into one fixed buffer. Item bytes
  grow from the front, a table of header words grows from the back, and a sentinel word stands between the two.
- **BFD section lists** (`bfd.h`): an intrusive doubly linked list changed in place by five macros. A removed section
  keeps its old links, and a constant-time test decides from these stale links whether a section is in a list.
  `align_power` of the same file is modelled too.
- **argz iteration** (`argz.h`): a cursor over NUL-ended strings.

Each part has two layers. The in-place layer follows the source statement by statement (`BulkBuffer.Dbt`,
`SectionList.Bfd`, the methods of `Argz`) and is proved equal to functions on byte sequences, pointer maps and vectors.
The laws are proved about these functions.

## Main results

- *A run of the bulk writer is a list.* `BulkLayout.Layout` is the picture in the comment of `db.h`, as a byte sequence:
  items, bytes never touched, sentinel, headers. `BulkRuns.RunRefines` proves that every run mixing writes,
  reservations, pairs, refused calls and stores into placed items leaves exactly the picture of its list of entries, so
  `BulkRuns.RunIsSequentialWrite`: the bytes do not depend on how the run got there.
- *Printer and parser.* `BulkReader.ScanExact` says when any reader returns what from any buffer, as an if-and-only-if;
  the round trips for all three readers follow for every reachable buffer.
- *A pair write is two writes*, on any buffer and cursor whatever.
- *The removed test.* In every run on any number of lists over a shared pool of sections, the test is right except for a
  section that is inside another list than the one asked about, and there it is wrong (`SectionRuns.RemovedExact`).
- *Undo.* Removing any sections and putting them back in reverse order beside the neighbours their own links still name
  restores every pointer of every section.

## Properties that fail, and exactly when they hold

- The recno round trip holds if and only if no record number is 0 (`RecnoRoundTrip`; `RecnoZeroLost` is an input).
- Reading pairs returns what was written if and only if the number of items is even (`KeyRoundTrip`; `KeyOddFaults`).
- The removed test tells membership unless the section is inside another list (`RemovedExact`; `RemovedTestErrs`).
- `align_power` rounds up if and only if the address is at most 2^64 - 2^align (`AlignExact`; `AlignWraps`).
- The comment in `argz.h` gives two loops as equal styles; they visit the same entries if and only if the vector is not
  empty (`StylesAgree`; `StylesDiffer`), when the vector's address is not null. The model follows the code.

## Modelling decisions

- A buffer is a sequence of bytes of any length from 4 to 2^32 - 1, words are stored least significant byte first, and
  an offset is an integer: the address of the buffer is not null and pointer sums on it do not wrap. Sums and casts the
  macros make in 32 bits are written out modulo 2^32.
- Item lengths are natural numbers. What `memcpy` reads is a value, so it cannot overlap the buffer.
- `retdlen` and `retklen` keep the caller's old value at the sentinel, as the macros leave them.
- A read outside the buffer is the result `Fault` of the reader functions; the reader methods require that it does not
  happen.
- After a refused write the macro sets the cursor to null; a run continues with the cursor the caller had before.
- Sections never inserted have null links. Insertion macros are called for a section in no list, removal for a section
  in the list, as the macros need. The section pool is passed to the list methods as a ghost set.
- `strchr (entry, '\0')` is a scan to the first NUL.

## Model

| member | source | states |
|---|---|---|
| BulkBuffer.Dbt.WriteInit | linux_include/db.h:1892-1898 | sets bit 0x002 of the flags and no other, stores 0xFFFFFFFF in the last word, puts the cursor there, and changes no other byte |
| BulkBuffer.Dbt.ReserveNext | linux_include/db.h:1900-1915 | the three in-place word stores are one store below the cursor: offset, length, 0xFFFFFFFF downwards; a refusal returns null and changes neither the cursor nor any byte |
| BulkBuffer.Dbt.WriteNext | linux_include/db.h:1917-1926 | reserve, then copy; a refusal makes the cursor null and changes no byte |
| BulkBuffer.Dbt.KeyReserveNext | linux_include/db.h:1928-1949 | the five word stores, with the moved word pointer and the 32-bit offset sum, are one store: key offset and length, data offset and length, 0xFFFFFFFF downwards; refused as a whole |
| BulkBuffer.Dbt.KeyWriteNext | linux_include/db.h:1951-1963 | pair reserve, then both copies; a refusal makes the cursor null and changes no byte |
| BulkBuffer.Dbt.RecnoWriteInit | linux_include/db.h:1965-1971 | sets bit 0x002 of the flags and no other, stores 0 in the last word and changes no other byte |
| BulkBuffer.Dbt.RecnoReserveNext | linux_include/db.h:1973-1989 | the four word stores are one store: number, offset, length, 0 downwards; a refusal changes nothing |
| BulkBuffer.Dbt.RecnoWriteNext | linux_include/db.h:1991-2000 | reserve, then copy unless empty; a refusal makes the cursor null and changes no byte |
| BulkBuffer.Dbt.Init | linux_include/db.h:1842-1844 | the reader starts at the last word |
| BulkBuffer.Dbt.Next | linux_include/db.h:1846-1859 | stops exactly at the word 0xFFFFFFFF, with data and cursor null and the length variable kept; otherwise a non-null item is at the offset the word names, and an empty item at offset 0 is null |
| BulkBuffer.Dbt.KeyNext | linux_include/db.h:1861-1875 | stops exactly at the word 0xFFFFFFFF, with key, data and cursor null; otherwise two headers are read at once |
| BulkBuffer.Dbt.RecnoNext | linux_include/db.h:1877-1890 | stops exactly at the word 0, with recno 0, data and cursor null; otherwise a three-word header is read |
| BulkLayout.SlotAt | linux_include/db.h:1825-1841 | header i names the region just behind the items before it, inside the item bytes, holding item i |
| BulkLayout.FillLayout | linux_include/db.h:1909 | storing into an item's region changes that item and nothing else: no header, no other item, no free byte |
| BulkLayout.HeaderIs | linux_include/db.h:1828-1839 | where the bytes of a header stand, its words are length, offset and, with record numbers, the number, from below |
| BulkWriter.InitBuilds | linux_include/db.h:1892-1898 | initialisation gives the picture of the empty list |
| BulkWriter.InitWord | linux_include/db.h:1892-1898 | on any buffer the last word becomes 0xFFFFFFFF, or 0 with record numbers, and nothing below it changes |
| BulkWriter.ReserveWords | linux_include/db.h:1908-1914 | on any buffer an accepted reservation leaves these words below the old cursor: offset, length, 0xFFFFFFFF; or number, offset, length, 0 |
| BulkWriter.PairReserveWords | linux_include/db.h:1937-1948 | on any buffer an accepted pair reservation leaves these five words: key offset and length, data offset and length, 0xFFFFFFFF |
| BulkWriter.TailIsEnd | linux_include/db.h:1903-1904 | on every built buffer the offset read back from the two words above the cursor is where the items end, and the 32-bit sum does not wrap |
| BulkWriter.ReserveAppends | linux_include/db.h:1900-1915 | on every built buffer a reservation appends an entry holding the bytes already there, byte for byte as the picture says; refused exactly when item and header do not fit |
| BulkWriter.WriteAppends | linux_include/db.h:1917-1926 | on every built buffer a write appends its entry; refused exactly when item and header do not fit |
| BulkWriter.PairReserveIsTwo | linux_include/db.h:1928-1949 | on any buffer a pair reservation succeeds exactly when two single ones do, with the same places, bytes and cursor |
| BulkWriter.PairWriteIsTwo | linux_include/db.h:1951-1963 | on any buffer a pair write succeeds exactly when writing key then data does, with the same bytes and cursor; otherwise nothing is stored |
| BulkRuns.StepRefines | linux_include/db.h:1900-2000 | every step on bytes, refused or not, is the step on the list of entries |
| BulkRuns.RunRefines | linux_include/db.h:1892-2000 | in every reachable state buffer, cursor and handed-out places are those of the picture: items side by side, headers in order, sentinel under the cursor, all other bytes as at the start |
| BulkRuns.RunIsSequentialWrite | linux_include/db.h:1892-2000 | any run leaves the same bytes and cursor as writing its final entries one by one |
| BulkRuns.WriteAllCapacity | linux_include/db.h:1905-1906 | a batch is taken if and only if total bytes, 8 (recno: 12) bytes a header and 4 fit the buffer, and then gives the picture |
| BulkRuns.CapacityIgnoresOrder | linux_include/db.h:1905-1906 | two orders of the same batch are both taken or both refused |
| BulkRuns.DeferredFill | linux_include/db.h:1900-1926 | reserving all items changes no byte below the cursor, and filling them later, in any order and any number of times, leaves the bytes of writing one by one |
| BulkReader.HeadExact | linux_include/db.h:1877-1890 | on any buffer a header is read as given exactly where its bytes stand and its first word is not the sentinel |
| BulkReader.ScanExact | linux_include/db.h:1846-1890 | on any buffer and from any position the reader returns a list of headers if and only if they are listed there, none looks like the sentinel, and the sentinel follows |
| BulkReader.ItemAt | linux_include/db.h:1849-1856 | on every built buffer an item ends at or below the sentinel, its offset is not -1, offset plus length does not wrap, and its bytes are the entry's |
| BulkReader.LayoutWords | linux_include/db.h:1825-1841 | every built buffer, word by word from its end: offset and length of each item, or number, offset and length, then 0xFFFFFFFF, or 0 |
| BulkReader.CursorWord | linux_include/db.h:1897-1912 | under the cursor of every built buffer stands 0xFFFFFFFF, or 0 with record numbers |
| BulkReader.PlainScan | linux_include/db.h:1846-1856 | on every built plain buffer exactly the written headers are read, in order |
| BulkReader.NextReturnsItems | linux_include/db.h:1842-1859 | NEXT returns as many items as were written, each with its bytes and at the place where the items before it end, empty or not; null exactly for an empty item with only empty items before it |
| BulkReader.NextWords | linux_include/db.h:1846-1859 | on any buffer NEXT stops exactly at 0xFFFFFFFF; otherwise offset and length are the word and the word below, and data is null exactly when both are 0 |
| BulkReader.RecnoNextWords | linux_include/db.h:1877-1890 | on any buffer RECNO_NEXT stops exactly at 0; otherwise number, offset and length are the three words downwards |
| BulkReader.RecnoScan | linux_include/db.h:1877-1890 | RECNO_NEXT returns exactly the entries before the first record number 0 |
| BulkReader.RecnoRoundTrip | linux_include/db.h:1834-1840 | the recno round trip holds if and only if no record number is 0, so -1 is read back |
| BulkReader.RecnoZeroLost | linux_include/db.h:1880-1885 | an accepted entry with record number 0 is not read back |
| BulkReader.KeyNextIsTwo | linux_include/db.h:1861-1875 | on any buffer a pair step is two single steps before null marking, and stops exactly where a single step stops |
| BulkReader.KeyNextWords | linux_include/db.h:1861-1875 | on any buffer KEY_NEXT stops exactly at 0xFFFFFFFF and otherwise returns the four words downwards, whatever they are |
| BulkReader.KeyScanExact | linux_include/db.h:1861-1875 | on any buffer with an even number of headers the pairs are read; with an odd number the reader leaves the buffer or reports offset -1 as data |
| BulkReader.KeyRoundTrip | linux_include/db.h:1831-1832 | on built buffers pairs are read back if and only if the number of items is even |
| BulkReader.KeyOddFaults | linux_include/db.h:1861-1875 | one item read as a pair leaves the buffer |
| BulkRoundTrips.RunReadsBack | linux_include/db.h:1842-1963 | after any run, refusals included, a fresh reader returns exactly the run's items and their bytes |
| BulkRoundTrips.RecnoRunReadsBack | linux_include/db.h:1877-2000 | after any recno run a fresh reader returns numbers and bytes of exactly the entries before the first 0 |
| BulkRoundTrips.PairBatchIsSingles | linux_include/db.h:1951-1963 | on any buffer a batch of pairs is taken exactly when its single items are, with the same bytes |
| BulkRoundTrips.PairRoundTrip | linux_include/db.h:1861-1963 | a batch of pairs is taken if and only if its bytes, 16 bytes a pair and 4 fit; KEY_NEXT then returns keys and data with their bytes, in order |
| SectionList.Bfd.Remove | linux_include/bfd.h:1617-1632 | in place, exactly the pointer changes of the removal function, for all sections of the pool |
| SectionList.Bfd.Append | linux_include/bfd.h:1633-1651 | the same for append |
| SectionList.Bfd.Prepend | linux_include/bfd.h:1652-1670 | the same for prepend |
| SectionList.Bfd.InsertAfter | linux_include/bfd.h:1671-1685 | the same for insertion after a section |
| SectionList.Bfd.InsertBefore | linux_include/bfd.h:1686-1700 | the same for insertion before a section |
| SectionList.Bfd.RemovedFromList | linux_include/bfd.h:1701-1702 | the test is the pointer function about which RemovedExact is proved |
| SectionChain.RemoveRepresents | linux_include/bfd.h:1617-1632 | removal is taking one element out of the sequence; sections outside the list and the removed section itself keep their links |
| SectionChain.InsertRepresents | linux_include/bfd.h:1633-1700 | turning two neighbours to a new section is inserting it into the sequence; sections outside the list keep their links |
| SectionChain.AppendIsInsert | linux_include/bfd.h:1633-1651 | append makes exactly the pointer changes of an insertion at the end |
| SectionChain.PrependIsInsert | linux_include/bfd.h:1652-1670 | prepend makes exactly the pointer changes of an insertion at the front |
| SectionChain.AfterIsInsert | linux_include/bfd.h:1671-1685 | insertion after a section makes exactly the pointer changes of an insertion between it and its successor |
| SectionChain.BeforeIsInsert | linux_include/bfd.h:1686-1700 | insertion before a section makes exactly the pointer changes of an insertion between it and its predecessor |
| SectionLaws.Traversals | linux_include/bfd.h:1617-1700 | from the two ends both traversals reach null after as many steps as there are sections and are mutual reverses |
| SectionLaws.RepresentsOnce | linux_include/bfd.h:1617-1700 | a chain of pointers stands for one sequence only |
| SectionLaws.AfterLastIsAppend | linux_include/bfd.h:1671-1685 | inserting after the last section is append, pointer for pointer |
| SectionLaws.BeforeFirstIsPrepend | linux_include/bfd.h:1686-1700 | inserting before the first section is prepend, pointer for pointer |
| SectionLaws.AfterIsBefore | linux_include/bfd.h:1671-1700 | inserting after a section is inserting before the next, pointer for pointer |
| SectionLaws.RemoveThenReinsert | linux_include/bfd.h:1617-1700 | putting a removed section back beside either neighbour its own links name restores the whole pointer state |
| SectionLaws.RemoveThenInsert | linux_include/bfd.h:1617-1700 | after a removal, insert-after the old predecessor or prepend, and likewise insert-before the old successor or append, restore the whole pointer state |
| SectionLaws.UndoRemovals | linux_include/bfd.h:1617-1700 | after removing any sections, putting them back in reverse order, each on either side, restores every pointer and both ends |
| SectionRuns.InsertionUndone | linux_include/bfd.h:1617-1700 | each of the four insertions, followed by removal, restores every other section and both ends |
| SectionRuns.ChainRefines | linux_include/bfd.h:1617-1700 | each of the five macros is its operation on the plain sequence and leaves sections outside the list alone |
| SectionRuns.StepInv | linux_include/bfd.h:1617-1700 | with any number of lists over one pool, each legal macro keeps all lists well linked and apart and keeps stale sections apart from their old next |
| SectionRuns.RunInv | linux_include/bfd.h:1617-1700 | every legal run can be carried out and refines the run on sequences |
| SectionRuns.RemovedExact | linux_include/bfd.h:1701-1702 | the test says removed exactly for sections neither in the list asked about nor inside another list |
| SectionRuns.RemovedAfterRun | linux_include/bfd.h:1617-1702 | the same after every legal run from fresh sections; with one list the test is exactly non-membership |
| SectionRuns.RemovedTestErrs | linux_include/bfd.h:1701-1702 | a two-step run after which the test wrongly denies that a section is missing |
| AlignPower.AlignCases | linux_include/bfd.h:283-284 | without wrap-around the least multiple of 2^align not below the address, with it 0 |
| AlignPower.AlignExact | linux_include/bfd.h:283-284 | it rounds up if and only if the address is at most 2^64 - 2^align |
| AlignPower.AlignWraps | linux_include/bfd.h:283-284 | the last address, aligned to 2, becomes 0 |
| AlignPower.AlignTwice | linux_include/bfd.h:283-284 | for all addresses, wrapping or not, aligning twice is aligning once to the larger power |
| Argz.FindNul | linux_include/argz.h:165 | the scan stops at the first byte 0 |
| Argz.ArgzNext | linux_include/argz.h:159-171 | for null, inside, and past-the-end entries; from inside, the byte before the entry returned is the first 0 from the old entry on, and null means that it is the last byte |
| Argz.NextIsNextStart | linux_include/argz.h:138-171 | from null or any position, mid-string included, the next string start is returned, null exactly when there is none; also for vectors not ending in NUL |
| Argz.NextFollowsZero | linux_include/argz.h:164-167 | the entry returned is the place behind the first byte 0 from the old entry on |
| Argz.VisitsAll | linux_include/argz.h:138-171 | iterating from null visits every start once and in order, and the strings with their NULs are the vector |
| Argz.VisitsStrings | linux_include/argz.h:138-171 | iterating over the vector of any NUL-free strings returns these strings in order and no others |
| Argz.WhileStyle | linux_include/argz.h:142-144 | the first documented loop ends and visits the entries from null |
| Argz.ForStyle | linux_include/argz.h:148-150 | the second documented loop ends and visits the front and the entries after it |
| Argz.StylesAgree | linux_include/argz.h:140-150 | the two loops visit the same entries if and only if the vector is not empty |
| Argz.StylesDiffer | linux_include/argz.h:140-150 | on the empty vector the second loop visits one entry and the first none |

## Left out

- Locking, logging, transactions, replication and cursors of `db.h`: structs and function pointers without bodies.
- Alignment of the words in a bulk buffer, and byte orders other than least significant first.
- Relocations, hash tables and target dispatch of `bfd.h`: tables and calls into code without bodies.
- `section_count` and `target_index`, which the list macros do not touch.
- An argz vector whose address is null: the second loop then visits nothing.
- The other `argz_*` and `envz_*` functions: declarations only.
- The curses, `a.out.h`, `ctype.h` and `endian.h` headers: wrappers and finite facts that would only add easy members.
- Concurrent use of one buffer or list.
