/**
 * The HTTP header map a message carries, and `HeaderMut::set`, the in-place
 * "replace this header" operation on it.
 *
 * The map keeps one entry per name, in a vector, with that name's values in
 * order: `insert` on a present name replaces its values where it stands, a
 * new name is pushed at the end, and `remove` swaps the last entry into the
 * place of the removed one. Iteration visits the entries in that order.
 */
module Headers {
  import opened Wrappers
  import opened Octets

  datatype Entry = Entry(name: Bytes, values: seq<Bytes>)

  /** The least index at or after k whose entry has the given name. */
  function FindFrom(entries: seq<Entry>, name: Bytes, k: nat): (r: Option<nat>)
    requires k <= |entries|
    ensures r.Some? ==> k <= r.value < |entries| && entries[r.value].name == name
    ensures r.Some? ==> forall j :: k <= j < r.value ==> entries[j].name != name
    ensures r.None? ==> forall j :: k <= j < |entries| ==> entries[j].name != name
    decreases |entries| - k
  {
    if k == |entries| then None
    else if entries[k].name == name then Some(k)
    else FindFrom(entries, name, k + 1)
  }

  /** The index of the entry for name, if there is one. */
  function Find(entries: seq<Entry>, name: Bytes): Option<nat> {
    FindFrom(entries, name, 0)
  }

  /** `get_all`: every value stored under name, in order. */
  function GetAll(entries: seq<Entry>, name: Bytes): seq<Bytes> {
    match Find(entries, name)
    case None => []
    case Some(i) => entries[i].values
  }

  /** `get`: the first value stored under name. */
  function Get(entries: seq<Entry>, name: Bytes): (r: Option<Bytes>)
    ensures r.Some? <==> GetAll(entries, name) != []
    ensures r.Some? ==> r.value == GetAll(entries, name)[0]
  {
    var all := GetAll(entries, name);
    if all == [] then None else Some(all[0])
  }

  predicate DistinctNames(entries: seq<Entry>) {
    forall i, j :: 0 <= i < j < |entries| ==> entries[i].name != entries[j].name
  }

  /** A name as the header library stores it: a token, lower-cased. */
  predicate StoredName(name: Bytes) {
    ValidHeaderName(name) && Lower(name) == name
  }

  predicate ValidValues(values: seq<Bytes>) {
    forall v :: v in values ==> ValidHeaderValue(v)
  }

  /** What every header map satisfies. */
  predicate WellFormedMap(entries: seq<Entry>) {
    && DistinctNames(entries)
    && forall i :: 0 <= i < |entries| ==>
         StoredName(entries[i].name) && entries[i].values != [] && ValidValues(entries[i].values)
  }

  /** `remove`: the entry goes, and the last entry takes its place. */
  function Removed(entries: seq<Entry>, name: Bytes): seq<Entry> {
    match Find(entries, name)
    case None => entries
    case Some(i) => entries[i := entries[|entries| - 1]][..|entries| - 1]
  }

  /** `insert`: a present name gets the one value where it stands; a new name goes last. */
  function Inserted(entries: seq<Entry>, name: Bytes, value: Bytes): seq<Entry> {
    match Find(entries, name)
    case None => entries + [Entry(name, [value])]
    case Some(i) => entries[i := Entry(name, [value])]
  }

  /**
   * `typed_insert` of an encoded header: the first value is inserted and the
   * others appended after it; nothing happens when there are no values.
   */
  function TypedInserted(entries: seq<Entry>, name: Bytes, values: seq<Bytes>): seq<Entry> {
    if values == [] then entries
    else match Find(entries, name)
      case None => entries + [Entry(name, values)]
      case Some(i) => entries[i := Entry(name, values)]
  }

  /** `HeaderMut::set`: every value under the name is removed, then the new ones inserted. */
  function WithValues(entries: seq<Entry>, name: Bytes, values: seq<Bytes>): seq<Entry> {
    TypedInserted(Removed(entries, name), name, values)
  }

  /** Iteration: each entry's values, paired with its name, entry by entry. */
  function Items(entries: seq<Entry>): (r: seq<(Bytes, Bytes)>)
    ensures entries == [] ==> r == []
  {
    if entries == [] then []
    else
      var e := entries[0];
      seq(|e.values|, i requires 0 <= i < |e.values| => (e.name, e.values[i])) + Items(entries[1..])
  }

  /** With distinct names, the entry for a name is the one entry that has it. */
  lemma FindUnique(entries: seq<Entry>, name: Bytes, i: nat)
    requires DistinctNames(entries) && i < |entries| && entries[i].name == name
    ensures Find(entries, name) == Some(i)
  {
    var r := Find(entries, name);
    assert r.Some?;
    assert entries[r.value].name == entries[i].name;
  }

  /** After `remove`, the name has no values and every other name keeps its own. */
  lemma RemovedGetAll(entries: seq<Entry>, name: Bytes, other: Bytes)
    requires DistinctNames(entries)
    ensures DistinctNames(Removed(entries, name))
    ensures GetAll(Removed(entries, name), other) == if other == name then [] else GetAll(entries, other)
  {
    var r := Removed(entries, name);
    match Find(entries, name)
    case None =>
      if other == name {
        assert Find(r, other).None?;
      }
    case Some(i) =>
      var last := |entries| - 1;
      assert |r| == last;
      assert forall j :: 0 <= j < last && j != i ==> r[j] == entries[j];
      assert i < last ==> r[i] == entries[last];
      forall a, b | 0 <= a < b < |r|
        ensures r[a].name != r[b].name
      {
        var a0 := if a == i then last else a;
        var b0 := if b == i then last else b;
        assert r[a] == entries[a0] && r[b] == entries[b0] && a0 != b0;
      }
      if other == name {
        forall j | 0 <= j < |r|
          ensures r[j].name != name
        {
          var j0 := if j == i then last else j;
          assert r[j] == entries[j0] && j0 != i;
        }
        assert Find(r, name).None?;
      } else {
        match Find(entries, other)
        case None =>
          forall j | 0 <= j < |r|
            ensures r[j].name != other
          {
            var j0 := if j == i then last else j;
            assert r[j] == entries[j0];
          }
          assert Find(r, other).None?;
        case Some(k) =>
          assert k != i;
          var k0 := if k == last then i else k;
          assert r[k0] == entries[k];
          FindUnique(r, other, k0);
      }
  }

  /** Inserting an encoded header's values: they become the name's values, others keep theirs. */
  lemma TypedInsertedGetAll(entries: seq<Entry>, name: Bytes, values: seq<Bytes>, other: Bytes)
    requires DistinctNames(entries)
    ensures DistinctNames(TypedInserted(entries, name, values))
    ensures GetAll(TypedInserted(entries, name, values), other) ==
            if other == name && values != [] then values else GetAll(entries, other)
  {
    var r := TypedInserted(entries, name, values);
    if values != [] {
      match Find(entries, name)
      case None =>
        assert r[|entries|].name == name;
        assert forall j :: 0 <= j < |entries| ==> r[j] == entries[j];
        if other == name {
          FindUnique(r, name, |entries|);
        } else {
          match Find(entries, other)
          case None =>
            assert Find(r, other).None?;
          case Some(k) =>
            FindUnique(r, other, k);
        }
      case Some(i) =>
        assert forall j :: 0 <= j < |entries| && j != i ==> r[j] == entries[j];
        assert forall j :: 0 <= j < |entries| ==> r[j].name == entries[j].name;
        if other == name {
          FindUnique(r, name, i);
        } else {
          match Find(entries, other)
          case None =>
            assert Find(r, other).None?;
          case Some(k) =>
            FindUnique(r, other, k);
        }
    }
  }

  /**
   * After `set`, the values under the name are exactly the new ones, and
   * every other name keeps its own.
   */
  lemma WithValuesGetAll(entries: seq<Entry>, name: Bytes, values: seq<Bytes>, other: Bytes)
    requires DistinctNames(entries)
    ensures DistinctNames(WithValues(entries, name, values))
    ensures GetAll(WithValues(entries, name, values), other) ==
            if other == name then values else GetAll(entries, other)
  {
    RemovedGetAll(entries, name, other);
    RemovedGetAll(entries, name, name);
    TypedInsertedGetAll(Removed(entries, name), name, values, other);
  }

  /** Setting a header twice leaves the map as setting only the second value would. */
  lemma WithValuesTwice(entries: seq<Entry>, name: Bytes, first: seq<Bytes>, second: seq<Bytes>)
    requires DistinctNames(entries)
    ensures WithValues(WithValues(entries, name, first), name, second) == WithValues(entries, name, second)
  {
    var r := Removed(entries, name);
    RemovedGetAll(entries, name, name);
    assert Find(r, name).None?;
    if first != [] {
      var m := r + [Entry(name, first)];
      assert WithValues(entries, name, first) == m;
      FindUnique(m, name, |r|) by {
        forall a, b | 0 <= a < b < |m| ensures m[a].name != m[b].name {
          if b == |r| {
            assert m[a] == r[a];
          }
        }
      }
      assert m[|r| := m[|m| - 1]][..|m| - 1] == r;
      assert Removed(m, name) == r;
    } else {
      assert WithValues(entries, name, first) == r;
      assert Removed(r, name) == r;
    }
  }

  /** `set` with a stored name and valid values keeps the map well formed. */
  lemma WithValuesWellFormed(entries: seq<Entry>, name: Bytes, values: seq<Bytes>)
    requires WellFormedMap(entries) && StoredName(name) && ValidValues(values)
    ensures WellFormedMap(WithValues(entries, name, values))
  {
    var r := Removed(entries, name);
    RemovedGetAll(entries, name, name);
    assert forall j :: 0 <= j < |r| ==> r[j] in entries;
    TypedInsertedGetAll(r, name, values, name);
    if values != [] {
      assert Find(r, name).None?;
      var m := r + [Entry(name, values)];
      assert forall j :: 0 <= j < |m| ==> m[j] in entries || m[j] == Entry(name, values);
    }
  }

  /** A typed insert of valid values under a stored name keeps the map well formed. */
  lemma TypedInsertedWellFormed(entries: seq<Entry>, name: Bytes, values: seq<Bytes>)
    requires WellFormedMap(entries) && StoredName(name) && ValidValues(values)
    ensures WellFormedMap(TypedInserted(entries, name, values))
  {
    TypedInsertedGetAll(entries, name, values, name);
    var m := TypedInserted(entries, name, values);
    assert forall j :: 0 <= j < |m| ==> m[j] in entries || m[j] == Entry(name, values);
  }

  /** `insert` with a stored name and a valid value keeps the map well formed. */
  lemma InsertedWellFormed(entries: seq<Entry>, name: Bytes, value: Bytes)
    requires WellFormedMap(entries) && StoredName(name) && ValidHeaderValue(value)
    ensures WellFormedMap(Inserted(entries, name, value))
  {
    TypedInsertedGetAll(entries, name, [value], name);
    var m := Inserted(entries, name, value);
    assert forall j :: 0 <= j < |m| ==> m[j] in entries || m[j] == Entry(name, [value]);
  }

  /** The header map object a message owns. */
  class HeaderMap {
    var entries: seq<Entry>

    ghost predicate Valid()
      reads this
    {
      WellFormedMap(entries)
    }

    /** `HeaderMap::new`: no entries. */
    constructor ()
      ensures entries == [] && Valid()
    {
      entries := [];
    }

    /** `insert`: the name's values become the one value. */
    method Insert(name: Bytes, value: Bytes)
      requires Valid() && StoredName(name) && ValidHeaderValue(value)
      modifies this
      ensures entries == Inserted(old(entries), name, value) && Valid()
    {
      InsertedWellFormed(entries, name, value);
      match Find(entries, name)
      case None =>
        entries := entries + [Entry(name, [value])];
      case Some(i) =>
        entries := entries[i := Entry(name, [value])];
    }

    /** `remove`: drops the name's entry and returns its first value. */
    method Remove(name: Bytes) returns (r: Option<Bytes>)
      requires Valid()
      modifies this
      ensures entries == Removed(old(entries), name) && Valid()
      ensures r == Get(old(entries), name)
    {
      r := Get(entries, name);
      RemovedGetAll(entries, name, name);
      match Find(entries, name)
      case None =>
      case Some(i) =>
        ghost var before := entries;
        var last := |entries| - 1;
        entries := entries[i := entries[last]];
        entries := entries[..last];
        assert forall j :: 0 <= j < |entries| ==> entries[j] in before;
    }

    /**
     * `typed_insert`: through the entry for the name, the first value is
     * inserted and each later one appended.
     */
    method TypedInsert(name: Bytes, values: seq<Bytes>)
      requires Valid() && StoredName(name) && ValidValues(values)
      modifies this
      ensures entries == TypedInserted(old(entries), name, values) && Valid()
    {
      if values == [] {
        return;
      }
      ghost var start := entries;
      TypedInsertedWellFormed(start, name, values);
      var at := match Find(entries, name) case Some(i) => i case None => |entries|;
      Insert(name, values[0]);
      assert values[..1] == [values[0]];
      var n := 1;
      while n < |values|
        invariant 1 <= n <= |values| && at < |entries|
        invariant entries == TypedInserted(start, name, values[..n])
        invariant entries[at] == Entry(name, values[..n])
      {
        entries := entries[at := Entry(name, entries[at].values + [values[n]])];
        assert values[..n + 1] == values[..n] + [values[n]];
        n := n + 1;
      }
      assert values[..n] == values;
    }

    /** `HeaderMut::set`: remove every value under the name, then insert the new ones. */
    method Set(name: Bytes, values: seq<Bytes>)
      requires Valid() && StoredName(name) && ValidValues(values)
      modifies this
      ensures entries == WithValues(old(entries), name, values) && Valid()
    {
      var _ := Remove(name);
      RemovedGetAll(old(entries), name, name);
      TypedInsert(name, values);
    }
  }
}
