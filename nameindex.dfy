/**
 * The name index (struct RAM_MAP entries) as a value: the occupied prefix of the
 * map array, a sequence of (varname, cell) pairs kept in strictly ascending strcmp
 * order. These functions are the specification the array code is proved against.
 */
module NameIndex {
  import opened Values
  import opened StrOrder

  datatype Entry = Entry(varname: string, cell: int)

  /** Strictly ascending by name, hence no name occurs twice. */
  predicate Sorted(m: seq<Entry>)
  {
    forall i, j :: 0 <= i < j < |m| ==> StrLess(m[i].varname, m[j].varname)
  }

  predicate Bound(m: seq<Entry>, name: string)
  {
    exists i :: 0 <= i < |m| && m[i].varname == name
  }

  /** The cells of the entries are exactly the addresses 0 .. |m|-1, each once. */
  predicate AddressesExact(m: seq<Entry>)
  {
    CellsInRange(m) && CellsDistinct(m) && CellsCover(m)
  }

  predicate CellsInRange(m: seq<Entry>)
  {
    forall i :: 0 <= i < |m| ==> 0 <= m[i].cell < |m|
  }

  predicate CellsDistinct(m: seq<Entry>)
  {
    forall i, j :: 0 <= i < j < |m| ==> m[i].cell != m[j].cell
  }

  predicate CellsCover(m: seq<Entry>)
  {
    forall a :: 0 <= a < |m| ==> HasCell(m, a)
  }

  predicate HasCell(m: seq<Entry>, a: int)
  {
    exists i :: 0 <= i < |m| && m[i].cell == a
  }

  /** The set of names the index binds. */
  function Names(m: seq<Entry>): set<string>
  {
    set i | 0 <= i < |m| :: m[i].varname
  }

  /** Reference lookup by linear scan: the cell of the first entry with this name. */
  function Lookup(m: seq<Entry>, name: string): Option<int>
  {
    if |m| == 0 then Nothing
    else if m[0].varname == name then Some(m[0].cell)
    else Lookup(m[1..], name)
  }

  /** Lookup finds a cell exactly when the name is bound, and then the cell of an entry with that name. */
  lemma {:induction false} LookupSpec(m: seq<Entry>, name: string)
    ensures Lookup(m, name).Nothing? <==> !Bound(m, name)
    ensures Lookup(m, name).Some? ==>
      exists i :: 0 <= i < |m| && m[i].varname == name && m[i].cell == Lookup(m, name).value
  {
    if |m| > 0 && m[0].varname != name {
      LookupSpec(m[1..], name);
      assert forall i :: 1 <= i < |m| ==> m[i] == m[1..][i - 1];
      if Lookup(m, name).Some? {
        var i :| 0 <= i < |m| - 1 && m[1..][i].varname == name && m[1..][i].cell == Lookup(m, name).value;
        assert m[i + 1] == m[1..][i];
      }
    }
  }

  /** The value a name holds, given the cell contents `cs`: the contents of its cell. */
  function ValueIn(m: seq<Entry>, cs: seq<Value>, name: string): (r: Option<Value>)
    requires AddressesExact(m) && |m| <= |cs|
    ensures r.Nothing? <==> !Bound(m, name)
  {
    LookupSpec(m, name);
    match Lookup(m, name)
    case Some(c) => Some(cs[c])
    case Nothing => Nothing
  }

  /** The first position whose name is not less than `name` (the scan of insert_into_map). */
  function InsertPos(m: seq<Entry>, name: string): (p: nat)
    ensures p <= |m|
    ensures forall k :: 0 <= k < p ==> StrLess(m[k].varname, name)
    ensures p < |m| ==> !StrLess(m[p].varname, name)
  {
    if |m| == 0 || !StrLess(m[0].varname, name) then 0
    else 1 + InsertPos(m[1..], name)
  }

  /** The index after inserting `e` at its sorted position, later entries shifted right. */
  function Inserted(m: seq<Entry>, e: Entry): seq<Entry>
  {
    var p := InsertPos(m, e.varname);
    m[..p] + [e] + m[p..]
  }

  /** Insertion adds exactly the one entry and loses none. */
  lemma InsertedMultiset(m: seq<Entry>, e: Entry)
    ensures |Inserted(m, e)| == |m| + 1
    ensures multiset(Inserted(m, e)) == multiset(m) + multiset{e}
  {
    var p := InsertPos(m, e.varname);
    assert m == m[..p] + m[p..];
  }

  /** Entry by entry: m's entries before the insertion point, then e, then the rest of m. */
  lemma InsertedPointwise(m: seq<Entry>, e: Entry, p: nat, r: seq<Entry>)
    requires p == InsertPos(m, e.varname) && |r| == |m| + 1
    requires forall k {:trigger r[k]} :: 0 <= k < |r| ==> r[k] == if k < p then m[k] else if k == p then e else m[k - 1]
    ensures r == Inserted(m, e)
  {
    InsertedAt(m, e, 0);
    forall k | 0 <= k < |r| ensures r[k] == Inserted(m, e)[k] {
      InsertedAt(m, e, k);
    }
  }

  /** In a sorted index, lookup of a present name finds its own entry. */
  lemma {:induction false} LookupAt(m: seq<Entry>, i: int)
    requires Sorted(m) && 0 <= i < |m|
    ensures Lookup(m, m[i].varname) == Some(m[i].cell)
  {
    if i > 0 {
      StrLessIrreflexive(m[i].varname);
      assert m[0].varname != m[i].varname;
      assert Sorted(m[1..]) by {
        forall a, b | 0 <= a < b < |m| - 1
          ensures StrLess(m[1..][a].varname, m[1..][b].varname)
        {
          assert m[1..][a] == m[a + 1] && m[1..][b] == m[b + 1];
        }
      }
      LookupAt(m[1..], i - 1);
    }
  }

  /** Lookup in a concatenation: the first part wins. */
  lemma {:induction false} LookupConcat(a: seq<Entry>, b: seq<Entry>, name: string)
    ensures Lookup(a + b, name) == if Lookup(a, name).Some? then Lookup(a, name) else Lookup(b, name)
  {
    if |a| > 0 {
      assert (a + b)[1..] == a[1..] + b;
      LookupConcat(a[1..], b, name);
    } else {
      assert a + b == b;
    }
  }

  /**
   * Inserting a new name binds it to the new cell and leaves every other name's
   * cell exactly as it was.
   */
  lemma LookupInserted(m: seq<Entry>, e: Entry, name: string)
    requires !Bound(m, e.varname)
    ensures Lookup(Inserted(m, e), name) == if name == e.varname then Some(e.cell) else Lookup(m, name)
  {
    var p := InsertPos(m, e.varname);
    var pre, post := m[..p], m[p..];
    assert m == pre + post;
    assert Inserted(m, e) == pre + ([e] + post);
    LookupConcat(pre, [e] + post, name);
    LookupConcat([e], post, name);
    LookupConcat(pre, post, name);
    if name == e.varname {
      LookupSpec(pre, name);
      assert !Bound(pre, name) by {
        forall i | 0 <= i < |pre| ensures pre[i].varname != name {
          assert pre[i] == m[i];
        }
      }
    }
  }

  /** Entry k of the inserted index: from m before the insertion point, e at it, shifted after it. */
  lemma InsertedAt(m: seq<Entry>, e: Entry, k: int)
    requires 0 <= k <= |m|
    ensures |Inserted(m, e)| == |m| + 1
    ensures Inserted(m, e)[k] ==
      if k < InsertPos(m, e.varname) then m[k] else if k == InsertPos(m, e.varname) then e else m[k - 1]
  {
    var p := InsertPos(m, e.varname);
    if k < p {
      assert Inserted(m, e)[k] == m[..p][k];
    } else if k > p {
      assert Inserted(m, e)[k] == m[p..][k - p - 1];
    }
  }

  /** Inserting a name that is not yet bound keeps the index strictly sorted. */
  lemma InsertedSorted(m: seq<Entry>, e: Entry)
    requires Sorted(m) && !Bound(m, e.varname)
    ensures Sorted(Inserted(m, e))
  {
    var p := InsertPos(m, e.varname);
    var r := Inserted(m, e);
    InsertedAt(m, e, 0);
    if p < |m| {
      assert m[p].varname != e.varname;
      StrLessTotal(m[p].varname, e.varname);
    }
    forall i, j | 0 <= i < j < |r| ensures StrLess(r[i].varname, r[j].varname) {
      InsertedAt(m, e, i);
      InsertedAt(m, e, j);
      if j == p {
        // r[i] == m[i] with i < p
      } else if i == p {
        // e < m[p] <= m[j - 1]
        if j - 1 > p {
          StrLessTransitive(e.varname, m[p].varname, m[j - 1].varname);
        }
      } else if i < p < j {
        if j - 1 > p {
          StrLessTransitive(e.varname, m[p].varname, m[j - 1].varname);
        }
        StrLessTransitive(m[i].varname, e.varname, m[j - 1].varname);
      }
    }
  }

  /** Giving the new name the next address keeps the addresses exactly 0 .. |m|. */
  lemma InsertedAddresses(m: seq<Entry>, name: string)
    requires AddressesExact(m)
    ensures AddressesExact(Inserted(m, Entry(name, |m|)))
  {
    InsertedInRange(m, name);
    InsertedDistinct(m, name);
    InsertedCover(m, name);
  }

  lemma InsertedInRange(m: seq<Entry>, name: string)
    requires CellsInRange(m)
    ensures CellsInRange(Inserted(m, Entry(name, |m|)))
  {
    var r := Inserted(m, Entry(name, |m|));
    InsertedAt(m, Entry(name, |m|), 0);
    forall i | 0 <= i < |r| ensures 0 <= r[i].cell < |r| {
      InsertedAt(m, Entry(name, |m|), i);
    }
  }

  lemma InsertedDistinct(m: seq<Entry>, name: string)
    requires CellsInRange(m) && CellsDistinct(m)
    ensures CellsDistinct(Inserted(m, Entry(name, |m|)))
  {
    var r := Inserted(m, Entry(name, |m|));
    InsertedAt(m, Entry(name, |m|), 0);
    forall i, j | 0 <= i < j < |r| ensures r[i].cell != r[j].cell {
      InsertedAt(m, Entry(name, |m|), i);
      InsertedAt(m, Entry(name, |m|), j);
    }
  }

  lemma InsertedCover(m: seq<Entry>, name: string)
    requires CellsCover(m)
    ensures CellsCover(Inserted(m, Entry(name, |m|)))
  {
    var e := Entry(name, |m|);
    var p := InsertPos(m, name);
    var r := Inserted(m, e);
    InsertedAt(m, e, 0);
    forall a | 0 <= a < |r| ensures HasCell(r, a) {
      if a == |m| {
        InsertedAt(m, e, p);
        assert r[p].cell == a;
      } else {
        assert HasCell(m, a);
        var i :| 0 <= i < |m| && m[i].cell == a;
        if i < p {
          InsertedAt(m, e, i);
          assert r[i].cell == a;
        } else {
          InsertedAt(m, e, i + 1);
          assert r[i + 1].cell == a;
        }
      }
    }
  }

  /** A sorted index binds as many distinct names as it has entries. */
  lemma {:induction false} NamesCount(m: seq<Entry>)
    requires Sorted(m)
    ensures |Names(m)| == |m|
  {
    if |m| > 0 {
      var t := m[1..];
      assert Sorted(t) by {
        forall a, b | 0 <= a < b < |t| ensures StrLess(t[a].varname, t[b].varname) {
          assert t[a] == m[a + 1] && t[b] == m[b + 1];
        }
      }
      NamesCount(t);
      assert Names(m) == {m[0].varname} + Names(t) by {
        forall n | n in Names(m) ensures n in {m[0].varname} + Names(t) {
          var i :| 0 <= i < |m| && m[i].varname == n;
          if i > 0 { assert t[i - 1] == m[i]; }
        }
        forall n | n in Names(t) ensures n in Names(m) {
          var i :| 0 <= i < |t| && t[i].varname == n;
          assert m[i + 1] == t[i];
        }
      }
      assert m[0].varname !in Names(t) by {
        forall i | 0 <= i < |t| ensures t[i].varname != m[0].varname {
          assert t[i] == m[i + 1];
          StrLessIrreflexive(m[0].varname);
        }
      }
    }
  }

  /** In a sorted index with distinct addresses, no other name shares entry i's cell. */
  lemma LookupOther(m: seq<Entry>, i: int, name: string)
    requires Sorted(m) && AddressesExact(m) && 0 <= i < |m| && name != m[i].varname
    ensures Lookup(m, name) != Some(m[i].cell)
  {
    LookupSpec(m, name);
    if Lookup(m, name).Some? {
      var j :| 0 <= j < |m| && m[j].varname == name && m[j].cell == Lookup(m, name).value;
      assert j != i;
    }
  }

  /** Writing cell a changes the value of exactly the names whose address is a. */
  lemma ValueInUpdate(m: seq<Entry>, cs: seq<Value>, a: int, v: Value, name: string)
    requires AddressesExact(m) && |m| <= |cs| && 0 <= a < |cs|
    ensures ValueIn(m, cs[a := v], name) == if Lookup(m, name) == Some(a) then Some(v) else ValueIn(m, cs, name)
  {
    LookupSpec(m, name);
  }

  /**
   * Binding a new name to the next cell: the new name holds that cell's value and
   * every other name keeps its value, provided the cells below |m| are unchanged.
   */
  lemma ValueInInserted(m: seq<Entry>, cs: seq<Value>, cs2: seq<Value>, name: string, n: string)
    requires AddressesExact(m) && !Bound(m, name)
    requires |m| <= |cs| && |m| < |cs2| && cs2[..|m|] == cs[..|m|]
    ensures AddressesExact(Inserted(m, Entry(name, |m|)))
    ensures ValueIn(Inserted(m, Entry(name, |m|)), cs2, n) == if n == name then Some(cs2[|m|]) else ValueIn(m, cs, n)
  {
    InsertedAddresses(m, name);
    LookupInserted(m, Entry(name, |m|), n);
    LookupSpec(m, n);
    if n != name && Lookup(m, n).Some? {
      var c := Lookup(m, n).value;
      assert cs2[c] == cs2[..|m|][c] == cs[..|m|][c] == cs[c];
    }
  }

  /**
   * Binding a new name to the next cell |m|, with the cells below |m| unchanged:
   * the index stays sorted with exact addresses, the new name is bound to |m| and
   * holds that cell's value, and every other name keeps its address and value.
   */
  lemma BindNewFacts(m: seq<Entry>, cs: seq<Value>, cs2: seq<Value>, name: string)
    requires Sorted(m) && AddressesExact(m) && !Bound(m, name)
    requires |m| <= |cs| && |m| < |cs2| && cs2[..|m|] == cs[..|m|]
    ensures Sorted(Inserted(m, Entry(name, |m|))) && AddressesExact(Inserted(m, Entry(name, |m|)))
    ensures forall n :: Lookup(Inserted(m, Entry(name, |m|)), n) == if n == name then Some(|m|) else Lookup(m, n)
    ensures forall n :: ValueIn(Inserted(m, Entry(name, |m|)), cs2, n) == if n == name then Some(cs2[|m|]) else ValueIn(m, cs, n)
  {
    InsertedSorted(m, Entry(name, |m|));
    InsertedAddresses(m, name);
    forall n
      ensures Lookup(Inserted(m, Entry(name, |m|)), n) == if n == name then Some(|m|) else Lookup(m, n)
      ensures ValueIn(Inserted(m, Entry(name, |m|)), cs2, n) == if n == name then Some(cs2[|m|]) else ValueIn(m, cs, n)
    {
      LookupInserted(m, Entry(name, |m|), n);
      ValueInInserted(m, cs, cs2, name, n);
    }
  }
}
