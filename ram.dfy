/**
 * The memory unit of the nuPython interpreter (struct RAM): a growable array of
 * cells addressed 0 .. size-1, and a name index of (varname, cell) pairs sorted
 * by strcmp, searched by binary search.
 */
module Memory {
  import opened Values
  import opened StrOrder
  import opened NameIndex
  import opened Growth

  class Ram {
    var cells: array<Value>
    /** The C field `map`: entries [0, size) are the name index, the rest are unused. */
    var entries: array<Entry>
    var size: nat
    var capacity: nat

    /** The invariants of the data structure, without the growth policy. */
    ghost predicate Consistent()
      reads this, cells, entries
    {
      && cells.Length == capacity
      && entries.Length == capacity
      && size <= capacity
      && Sorted(entries[..size])
      && AddressesExact(entries[..size])
      && (forall k :: size <= k < capacity ==> cells[k] == None)
    }

    /** Consistent, and the capacity is what the doubling policy gives for `size` names. */
    ghost predicate Valid()
      reads this, cells, entries
    {
      Consistent() && capacity == CapacityFor(size)
    }

    /** The name index: the occupied prefix of `entries`. */
    ghost function Index(): seq<Entry>
      reads this, entries
      requires size <= entries.Length
    {
      entries[..size]
    }

    /** The address of a variable, or -1 when it is unbound. */
    ghost function AddrOf(name: string): (a: int)
      reads this, cells, entries
      requires Valid()
      ensures -1 <= a < size
      ensures a == -1 <==> !Bound(Index(), name)
    {
      LookupSpec(Index(), name);
      match Lookup(Index(), name)
      case Some(c) => c
      case Nothing => -1
    }

    /** The value a variable holds, or Nothing when it is unbound. */
    ghost function ValueOf(name: string): Option<Value>
      reads this, cells, entries
      requires Valid()
    {
      ValueIn(Index(), cells[..], name)
    }

    /** ram_init: an empty store of capacity 4 whose cells all hold None. */
    constructor Init()
      ensures Valid() && fresh(cells) && fresh(entries)
      ensures size == 0 && capacity == InitialCapacity
      ensures forall k :: 0 <= k < capacity ==> cells[k] == None
    {
      var cs := new Value[InitialCapacity];
      for i := 0 to InitialCapacity
        invariant forall k :: 0 <= k < i ==> cs[k] == None
      {
        cs[i] := None;
      }
      cells := cs;
      entries := new Entry[InitialCapacity];
      size := 0;
      capacity := InitialCapacity;
    }

    /** ram_size: the number of variables, i.e. of distinct names bound. */
    function Size(): (n: nat)
      reads this, cells, entries
      requires Valid()
      ensures n == |Names(Index())|
    {
      NamesCount(Index());
      size
    }

    /** ram_capacity: never fewer cells than variables, fewer than twice as many once grown. */
    function Capacity(): (c: nat)
      reads this, cells, entries
      requires Valid()
      ensures Size() <= c && c >= InitialCapacity
      ensures Size() > InitialCapacity ==> c < 2 * Size()
    {
      CapacityTight(size);
      capacity
    }

    /** binary_search: the position of `name` in the index, or -1 when it is absent. */
    method BinarySearch(name: string) returns (idx: int)
      requires Valid()
      ensures -1 <= idx < size
      ensures idx == -1 <==> !Bound(Index(), name)
      ensures idx != -1 ==> entries[idx].varname == name
    {
      var left, right := 0, size - 1;
      while left <= right
        invariant 0 <= left <= right + 1 <= size
        invariant forall k :: 0 <= k < left ==> StrLess(entries[k].varname, name)
        invariant forall k :: right < k < size ==> StrLess(name, entries[k].varname)
      {
        var mid := (left + right) / 2;
        var cmp := StrCmp(entries[mid].varname, name);
        if cmp == 0 {
          return mid;
        } else if cmp < 0 {
          forall k | 0 <= k < mid ensures StrLess(entries[k].varname, name) {
            assert Index()[k] == entries[k] && Index()[mid] == entries[mid];
            StrLessTransitive(entries[k].varname, entries[mid].varname, name);
          }
          left := mid + 1;
        } else {
          forall k | mid < k < size ensures StrLess(name, entries[k].varname) {
            assert Index()[k] == entries[k] && Index()[mid] == entries[mid];
            StrLessTransitive(name, entries[mid].varname, entries[k].varname);
          }
          right := mid - 1;
        }
      }
      forall k | 0 <= k < size ensures Index()[k].varname != name {
        StrLessIrreflexive(name);
      }
      return -1;
    }

    /** ram_get_addr: the address of the variable, -1 exactly when it is unbound. */
    method GetAddr(name: string) returns (addr: int)
      requires Valid()
      ensures addr == AddrOf(name)
      ensures addr == -1 <==> !Bound(Index(), name)
      ensures addr != -1 ==> 0 <= addr < size
    {
      var i := BinarySearch(name);
      if i == -1 {
        return -1;
      }
      LookupAt(Index(), i);
      addr := entries[i].cell;
    }

    /** ram_read_cell_by_addr: a copy of the cell's value, Nothing for an address outside [0, size). */
    method ReadCellByAddr(address: int) returns (r: Option<Value>)
      requires Valid()
      ensures r.Nothing? <==> address < 0 || address >= size
      ensures r.Some? ==> r.value == cells[address]
      ensures forall name :: AddrOf(name) == address ==> r == ValueOf(name)
    {
      if address < 0 || address >= size {
        return Nothing;
      }
      r := Some(CopyValue(cells[address]));
    }

    /** ram_read_cell_by_name: a copy of the variable's value, Nothing when it is unbound. */
    method ReadCellByName(name: string) returns (r: Option<Value>)
      requires Valid()
      ensures r == ValueOf(name)
      ensures r.Nothing? <==> !Bound(Index(), name)
    {
      var i := BinarySearch(name);
      if i == -1 {
        return Nothing;
      }
      LookupAt(Index(), i);
      var cell := entries[i].cell;
      r := Some(CopyValue(cells[cell]));
    }

    /**
     * ram_write_cell_by_addr: store a copy of `v` at an occupied address and succeed;
     * for an address outside [0, size) fail and change nothing. Names and addresses
     * never change; exactly the names at that address now hold `v`.
     */
    method WriteCellByAddr(v: Value, address: int) returns (ok: bool)
      requires Valid()
      modifies cells
      ensures Valid()
      ensures ok <==> 0 <= address < size
      ensures ok ==> cells[..] == old(cells[..])[address := v]
      ensures !ok ==> cells[..] == old(cells[..])
      ensures forall name :: AddrOf(name) == old(AddrOf(name))
      ensures forall name :: ValueOf(name) == if ok && AddrOf(name) == address then Some(v) else old(ValueOf(name))
    {
      if address < 0 || address >= size {
        return false;
      }
      cells[address] := CopyValue(v);
      ok := true;
    }

    /**
     * grow_if_needed: when the store is full, double the capacity, keeping every
     * cell and entry and filling the new cells with None; otherwise change nothing.
     */
    method GrowIfNeeded()
      requires Valid()
      modifies this
      ensures Consistent() && size < capacity && capacity == CapacityFor(size + 1)
      ensures size == old(size) && Index() == old(Index()) && cells[..size] == old(cells[..size])
      ensures old(size) >= old(capacity) ==>
        && capacity == 2 * old(capacity)
        && fresh(cells) && fresh(entries)
        && cells[..old(capacity)] == old(cells[..])
        && (forall k :: old(capacity) <= k < capacity ==> cells[k] == None)
      ensures old(size) < old(capacity) ==>
        capacity == old(capacity) && cells == old(cells) && entries == old(entries)
    {
      CapacityStep(size);
      if size >= capacity {
        var oldCells, oldEntries, oldCapacity := cells, entries, capacity;
        var newCapacity := oldCapacity * 2;
        var newCells := new Value[newCapacity];
        forall k | 0 <= k < oldCapacity {
          newCells[k] := oldCells[k];
        }
        for i := oldCapacity to newCapacity
          modifies newCells
          invariant newCells[..oldCapacity] == oldCells[..]
          invariant forall k :: oldCapacity <= k < i ==> newCells[k] == None
        {
          newCells[i] := None;
        }
        var newEntries := new Entry[newCapacity];
        forall k | 0 <= k < oldCapacity {
          newEntries[k] := oldEntries[k];
        }
        assert newEntries[..size] == oldEntries[..size];
        cells, entries, capacity := newCells, newEntries, newCapacity;
        assert Index() == old(Index());
      }
    }

    /**
     * insert_into_map: put (name, cell) at the first position whose name is not
     * less than `name`, shifting the later entries one place to the right.
     */
    method InsertIntoMap(name: string, cell: int)
      requires size < entries.Length
      modifies entries
      ensures entries[..size + 1] == Inserted(old(entries[..size]), Entry(name, cell))
    {
      ghost var a := entries[..];
      ghost var m := entries[..size];
      var pos := 0;
      while pos < size && StrCmp(entries[pos].varname, name) < 0
        invariant pos <= size
        invariant forall k :: 0 <= k < pos ==> StrLess(m[k].varname, name)
      {
        pos := pos + 1;
      }
      assert pos == InsertPos(m, name);
      var i := size;
      while i > pos
        modifies entries
        invariant pos <= i <= size
        invariant forall k {:trigger entries[k]} :: 0 <= k <= size ==> entries[k] == if k <= i then a[k] else a[k - 1]
      {
        entries[i] := entries[i - 1];
        i := i - 1;
      }
      entries[pos] := Entry(name, cell);
      InsertedPointwise(m, Entry(name, cell), pos, entries[..size + 1]);
    }

    /**
     * The unbound-name branch of ram_write_cell_by_name: grow if full, store a copy
     * of `v` in cell `size`, insert (name, size) into the index, count the new name.
     */
    method BindNewName(v: Value, name: string)
      requires Valid() && !Bound(Index(), name)
      modifies this, cells, entries
      ensures Valid()
      ensures size == old(size) + 1
      ensures Index() == Inserted(old(Index()), Entry(name, old(size)))
      ensures cells[..size] == old(cells[..size]) + [v]
      ensures (cells == old(cells) || fresh(cells)) && (entries == old(entries) || fresh(entries))
    {
      ghost var m := Index();
      ghost var oldCells := cells[..size];
      GrowIfNeeded();
      var cell := size;
      cells[cell] := CopyValue(v);
      assert cells[..size] == oldCells;
      InsertIntoMap(name, cell);
      size := size + 1;
      assert cells[..size] == oldCells + [v];
      assert Index() == Inserted(m, Entry(name, cell));
      InsertedSorted(m, Entry(name, cell));
      InsertedAddresses(m, name);
    }

    /**
     * ram_write_cell_by_name: always succeeds. A bound name keeps its address and
     * only its cell changes; an unbound name gets address old(size), the store grows
     * if full, and the index gains exactly that entry. Every other name keeps its
     * address and its value.
     */
    method WriteCellByName(v: Value, name: string) returns (ok: bool)
      requires Valid()
      modifies this, cells, entries
      ensures Valid() && ok
      ensures (cells == old(cells) || fresh(cells)) && (entries == old(entries) || fresh(entries))
      ensures AddrOf(name) == if old(AddrOf(name)) == -1 then old(size) else old(AddrOf(name))
      ensures ValueOf(name) == Some(v)
      ensures forall n :: n != name ==> AddrOf(n) == old(AddrOf(n)) && ValueOf(n) == old(ValueOf(n))
      ensures old(AddrOf(name)) != -1 ==>
        && size == old(size) && capacity == old(capacity)
        && cells == old(cells) && entries == old(entries)
        && Index() == old(Index())
        && cells[..] == old(cells[..])[old(AddrOf(name)) := v]
      ensures old(AddrOf(name)) == -1 ==>
        && size == old(size) + 1
        && Index() == Inserted(old(Index()), Entry(name, old(size)))
    {
      var i := BinarySearch(name);
      if i != -1 {
        LookupAt(Index(), i);
        var cell := entries[i].cell;
        var _ := WriteCellByAddr(v, cell);
        forall n | n != name
          ensures AddrOf(n) != cell
        {
          LookupOther(Index(), i, n);
        }
      } else {
        ghost var m, cs := Index(), cells[..size];
        BindNewName(v, name);
        assert cells[..|m|] == cs by {
          assert cells[..|m|] == cells[..size][..|m|];
        }
        BindNewFacts(m, cs, cells[..], name);
      }
      ok := true;
    }
  }
}
