# nuPython memory unit (`ram.c`) in Dafny

The nuPython interpreter keeps its variables in a memory unit, `struct RAM`.
It has two parts:

- a **cell array** of tagged values (int, real, str, ptr, boolean, none), with
  addresses `0 .. size-1` in use;
- a **name index** (`map` in C): `(varname, cell)` pairs kept in strictly
  ascending `strcmp` order. Lookups use binary search. An insertion scans to the
  first name that is not smaller, then shifts the rest one place right.

The cell array starts with 4 slots and doubles when a new name arrives while it
is full. A name gets the next free address when it is first written, and keeps
that address. Every write stores a copy of the value, and every read returns a
copy.

The model is a class `Memory.Ram` over two arrays, `cells` and `entries`. Its
invariant `Valid()` says:

- both arrays have length `capacity`, and `size <= capacity`;
- the index prefix `entries[..size]` is strictly sorted by the `strcmp` order
  (`NameIndex.Sorted`);
- the cells of that prefix are exactly the addresses `0 .. size-1`, each once
  (`NameIndex.AddressesExact`);
- every cell at or beyond `size` is `None`;
- `capacity` is what the doubling policy gives for `size` names
  (`Growth.CapacityFor`).

Two ghost views describe the store as the interpreter sees it, name by name:

- `AddrOf(name)` is the address of `name`, or -1 when it is unbound;
- `ValueOf(name)` is the value `name` holds, or `Nothing` when it is unbound.

Every operation is proved against these views and the sorted index. The index is
specified by pure functions on sequences in `NameIndex`: `Lookup`, `InsertPos`
and `Inserted`. The `strcmp` order is `StrOrder.StrLess`, which is proved to be
a strict total order, so that binary search and insertion agree on it.

Files:

- `values.dfy`: the tagged value and its copy.
- `strorder.dfy`: the `strcmp` order.
- `nameindex.dfy`: the sorted name index as a value, and its lemmas.
- `growth.dfy`: the capacity policy.
- `ram.dfy`: the store itself.
- `scenario.dfy`: clients that follow the unit tests' end-to-end use. They
  conclude, from the contracts alone, that:
  - `x` then `y` get addresses 0 and 1;
  - a write to address 0 is seen by a read of `x`;
  - an address past `size` is refused;
  - a fifth distinct name takes capacity from 4 to 8;
  - rewriting a bound name does not grow the store.

## Model

| member | source | states |
|---|---|---|
| Values.CopyValue | ram.c:121-135 | the copy of a value equals the original: same tag, same payload, and an equal string for `str` |
| StrOrder.StrCmp | ram.c:40 | the sign of the comparison: negative iff `a` sorts before `b`, zero iff the strings are equal, positive iff `b` sorts before `a` |
| StrOrder.StrLessIrreflexive | ram.c:38-50 | no name sorts before itself |
| StrOrder.StrLessTransitive | ram.c:38-50 | the order is transitive |
| StrOrder.StrLessTotal | ram.c:38-50 | for any two names: they are equal, or exactly one sorts before the other |
| NameIndex.ValueIn | ram.c:307-318 | looking a name up through an exact index gives `Nothing` exactly when the name is unbound |
| NameIndex.LookupAt | ram.c:33-54 | in a sorted index, looking up the name at position i gives that entry's cell |
| NameIndex.InsertPos | ram.c:95-100 | the insertion point: every earlier entry sorts before the name, and the entry at the point (if any) does not |
| NameIndex.InsertedAt | ram.c:102-109 | after insertion, entries before the point are unchanged, the new entry is at the point, and later entries are shifted right by one |
| NameIndex.InsertedMultiset | ram.c:93-110 | insertion adds exactly one entry and loses none |
| NameIndex.InsertedSorted | ram.c:93-110 | inserting an unbound name into a sorted index leaves it strictly sorted |
| NameIndex.InsertedAddresses | ram.c:428-444 | inserting `(name, size)` into an index whose cells are exactly `0 .. size-1` gives one whose cells are exactly `0 .. size` |
| NameIndex.LookupInserted | ram.c:428-444 | after inserting an unbound name, it maps to its new cell and every other name maps to what it did before |
| NameIndex.NamesCount | ram.c:215-218 | a sorted index of length n binds exactly n distinct names |
| NameIndex.LookupOther | ram.c:410-427 | in an exact sorted index, no other name shares a given entry's cell |
| NameIndex.ValueInUpdate | ram.c:365-385 | overwriting cell a changes the value of exactly the name bound to a |
| NameIndex.BindNewFacts | ram.c:428-446 | binding a new name at address `size` keeps the index sorted and exact; the new name gets address `size` and the stored value; every other name keeps its address and value |
| Growth.CapacityFor | ram.c:64-81 | the capacity for n names holds at least n cells and never drops below 4 |
| Growth.CapacityStep | ram.c:64-81 | adding one name doubles the capacity exactly when the store was full, and otherwise keeps it |
| Growth.CapacityTight | ram.c:64-81 | doubling never overshoots: beyond 4 names there are fewer than twice as many cells as names |
| Growth.CapacityExamples | ram.c:64-81 | 4 names give capacity 4; 5 and 8 give 8; 9 and 10 give 16 |
| Memory.Ram.Init | ram.c:153-169 | a valid, empty store of capacity 4 with fresh arrays and every cell None |
| Memory.Ram.Size | ram.c:215-218 | the size is the number of distinct names bound |
| Memory.Ram.Capacity | ram.c:228-231 | at least as many cells as names and at least 4; beyond 4 names, fewer than twice as many cells as names |
| Memory.Ram.BinarySearch | ram.c:33-54 | over the sorted index, returns a position holding the name, or -1 exactly when the name is unbound |
| Memory.Ram.GetAddr | ram.c:251-260 | returns the name's address, in `[0, size)`, or -1 exactly when the name is unbound |
| Memory.Ram.ReadCellByAddr | ram.c:282-289 | returns `Nothing` exactly for an address outside `[0, size)`, otherwise a value equal to the cell, which is the value of every name at that address; the store is not modified |
| Memory.Ram.ReadCellByName | ram.c:307-318 | returns the name's value, and `Nothing` exactly when the name is unbound; the store is not modified |
| Memory.Ram.WriteCellByAddr | ram.c:365-385 | succeeds iff the address is in `[0, size)`; on success exactly that cell becomes `v`, on failure nothing changes; no address moves; exactly the names at that address now hold `v` |
| Memory.Ram.GrowIfNeeded | ram.c:64-81 | when full, doubles the capacity into fresh arrays, keeping every old cell and the index, with every new cell None; otherwise changes nothing; afterwards there is room for one more name |
| Memory.Ram.InsertIntoMap | ram.c:93-110 | the first `size+1` entries become the old index with `(name, cell)` inserted at its sorted position |
| Memory.Ram.BindNewName | ram.c:428-444 | for an unbound name: the store stays valid; size grows by one; the index gains `(name, old size)`; the new cell holds `v` and no earlier cell changes |
| Memory.Ram.WriteCellByName | ram.c:408-447 | always succeeds. A new name gets address old `size` and `size` grows by one. A bound name keeps its address, with size, capacity, arrays and index unchanged and only its cell replaced. Either way the name now holds `v`, and every other name keeps its address and value |

## Left out

- `ram_print` and `ram_print_map` (ram.c:459-517) are console output only.
- `ram_destroy` and `ram_free_value` (ram.c:181-205, ram.c:330-341) only deallocate.
- The `malloc`/`realloc`/`strdup`/`free` bookkeeping is left out. Strings are
  Dafny values, so a stored or returned copy can never alias the caller's buffer.
- `realloc` failure is not modelled. The source does not check for it.
- Overflow of the C `int` fields is not modelled. This covers `size`,
  `capacity` and `capacity * 2`, which are unbounded naturals here.
- A real payload (a C `double`) is carried as its 64-bit pattern and never
  computed with.
- `strcmp` is modelled only by its sign, as lexicographic order on characters in
  which a proper prefix sorts first. The NUL terminator of C strings is not
  modelled.
- Entries of `map` beyond `size` are unconstrained. The source never reads them.
- InsertIntoMap: the contract says nothing about `entries` beyond position
  `size`. The source leaves them untouched, and the store never reads them.
- BindNewName is the unbound-name branch of `ram_write_cell_by_name`, written as
  its own method. The bound-name branch does what `ram_write_cell_by_addr`
  does, so it calls `WriteCellByAddr`.
