/**
 * Clients of the memory unit, following the unit tests' end-to-end use: what a
 * caller can conclude from the contracts of Memory.Ram alone.
 */
module Scenario {
  import opened Values
  import opened Memory

  /** A fresh memory is empty: no name is bound and no address is in range. */
  method EmptyMemory()
  {
    var ram := new Ram.Init();
    assert ram.Size() == 0 && ram.Capacity() == 4;
    var a := ram.GetAddr("x");
    assert a == -1;
    var r := ram.ReadCellByAddr(0);
    assert r == Nothing;
  }

  /** Names are bound to consecutive addresses in order of first write. */
  method FirstBindings()
  {
    var ram := new Ram.Init();
    var ok := ram.WriteCellByName(Int(123), "x");
    ok := ram.WriteCellByName(Str("hi"), "y");
    var a := ram.GetAddr("y");
    assert a == 1;
    a := ram.GetAddr("x");
    assert a == 0;
    var r := ram.ReadCellByName("x");
    assert r == Some(Int(123));
  }

  /** A write by address is seen by a read by name; an address past size is refused. */
  method WriteThroughAddress()
  {
    var ram := new Ram.Init();
    var ok := ram.WriteCellByName(Int(123), "x");
    ok := ram.WriteCellByAddr(Int(456), 0);
    var r := ram.ReadCellByName("x");
    assert ok && r == Some(Int(456));
    ok := ram.WriteCellByAddr(Int(789), 1);
    assert !ok;
  }

  /** In a full memory of four names, a fifth distinct name doubles the capacity to 8. */
  method FifthNameGrows(ram: Ram, name: string)
    requires ram.Valid() && ram.size == 4 && ram.AddrOf(name) == -1
    modifies ram, ram.cells, ram.entries
  {
    assert ram.capacity == 4;
    var ok := ram.WriteCellByName(Int(5), name);
    assert ram.size == 5 && ram.capacity == 8;
    var a := ram.GetAddr(name);
    assert a == 4;
  }

  /** Rewriting a name that is already bound neither grows the memory nor moves the name. */
  method RewriteDoesNotGrow(ram: Ram, name: string)
    requires ram.Valid() && ram.size == 4 && ram.AddrOf(name) != -1
    modifies ram, ram.cells, ram.entries
  {
    var a := ram.GetAddr(name);
    var ok := ram.WriteCellByName(Str("again"), name);
    assert ram.size == 4 && ram.capacity == 4 && ram.AddrOf(name) == a;
    var r := ram.ReadCellByAddr(a);
    assert r == Some(Str("again"));
  }
}
