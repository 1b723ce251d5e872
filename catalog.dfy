/**
  The fruit catalog: the rows read from the `fruit_options` table, reduced to
  one row per FRUIT_NAME (the first one wins, as pandas' `drop_duplicates` does
  by default), indexed by name, and the list of names offered to the user.
 */
module Catalog {

  /**
    A SEARCH_ON cell after `to_pandas()`. A missing (SQL NULL) value comes out
    as `None` in an object column and as a float NaN in a float-typed column;
    the lookup skips both.
   */
  datatype Key = Null | NaN | Str(text: string)

  /** One (FRUIT_NAME, SEARCH_ON) row of the catalog table. */
  datatype FruitRow = FruitRow(name: string, searchOn: Key)

  /** The loaded catalog: the multiselect options and the name-indexed lookup table. */
  datatype LoadedCatalog = LoadedCatalog(options: seq<string>, index: map<string, Key>)

  function Names(rows: seq<FruitRow>): seq<string>
  {
    seq(|rows|, i requires 0 <= i < |rows| => rows[i].name)
  }

  function NameSet(names: seq<string>): set<string>
  {
    set n | n in names
  }

  predicate Distinct(names: seq<string>)
  {
    forall i, j :: 0 <= i < j < |names| ==> names[i] != names[j]
  }

  /** Position of the first row named `name`. */
  function FirstIndex(rows: seq<FruitRow>, name: string): (k: nat)
    requires name in Names(rows)
    ensures k < |rows| && rows[k].name == name
    ensures forall j :: 0 <= j < k ==> rows[j].name != name
  {
    if rows[0].name == name then 0
    else
      assert Names(rows) == [rows[0].name] + Names(rows[1..]);
      1 + FirstIndex(rows[1..], name)
  }

  /** `drop_duplicates(subset=["FRUIT_NAME"])`: keep a row unless an earlier row has its name. */
  function DropDuplicates(rows: seq<FruitRow>): (kept: seq<FruitRow>)
    ensures |kept| <= |rows|
  {
    if rows == [] then []
    else
      var kept := DropDuplicates(rows[..|rows| - 1]);
      var last := rows[|rows| - 1];
      if last.name in Names(kept) then kept else kept + [last]
  }

  /** `set_index("FRUIT_NAME")` over rows whose names are already unique. */
  function IndexByName(kept: seq<FruitRow>): (index: map<string, Key>)
    ensures index.Keys == NameSet(Names(kept))
  {
    if kept == [] then map[]
    else
      var init := kept[..|kept| - 1];
      var last := kept[|kept| - 1];
      assert kept == init + [last];
      NamesSnoc(init, last);
      NameSetSnoc(Names(init), last.name);
      IndexByName(init)[last.name := last.searchOn]
  }

  lemma NamesSnoc(rows: seq<FruitRow>, r: FruitRow)
    ensures Names(rows + [r]) == Names(rows) + [r.name]
  {
  }

  lemma NamesPrefix(rows: seq<FruitRow>, k: nat)
    requires k <= |rows|
    ensures Names(rows[..k]) == Names(rows)[..k]
  {
  }

  lemma NameSetSnoc(names: seq<string>, n: string)
    ensures NameSet(names + [n]) == NameSet(names) + {n}
  {
  }

  /** A position holding `name` with no earlier `name` is the first index. */
  lemma {:induction false} FirstIndexAt(rows: seq<FruitRow>, name: string, i: nat)
    requires i < |rows| && rows[i].name == name
    requires forall j :: 0 <= j < i ==> rows[j].name != name
    ensures name in Names(rows) && FirstIndex(rows, name) == i
  {
    assert Names(rows)[i] == name;
    if i > 0 {
      assert Names(rows[1..])[i - 1] == name;
      FirstIndexAt(rows[1..], name, i - 1);
    }
  }

  /** Extending the rows does not move the first index of a name already present. */
  lemma FirstIndexOfPrefix(rows: seq<FruitRow>, k: nat, name: string)
    requires k <= |rows|
    requires name in Names(rows[..k])
    ensures name in Names(rows) && FirstIndex(rows, name) == FirstIndex(rows[..k], name)
  {
    var i := FirstIndex(rows[..k], name);
    FirstIndexAt(rows, name, i);
  }

  /** The last row is the first of its name when no earlier row has that name. */
  lemma FirstIndexOfLast(rows: seq<FruitRow>)
    requires rows != []
    requires rows[|rows| - 1].name !in Names(rows[..|rows| - 1])
    ensures rows[|rows| - 1].name in Names(rows)
    ensures FirstIndex(rows, rows[|rows| - 1].name) == |rows| - 1
  {
    var init := rows[..|rows| - 1];
    forall j | 0 <= j < |rows| - 1
      ensures rows[j].name != rows[|rows| - 1].name
    {
      assert Names(init)[j] == rows[j].name;
      assert Names(init)[j] in Names(init);
    }
    FirstIndexAt(rows, rows[|rows| - 1].name, |rows| - 1);
  }

  /** Deduplication loses no name and keeps each name once. */
  lemma {:induction false} DropDuplicatesNames(rows: seq<FruitRow>)
    ensures NameSet(Names(DropDuplicates(rows))) == NameSet(Names(rows))
    ensures Distinct(Names(DropDuplicates(rows)))
  {
    if rows != [] {
      var init := rows[..|rows| - 1];
      var last := rows[|rows| - 1];
      DropDuplicatesNames(init);
      var kept := DropDuplicates(init);
      assert rows == init + [last];
      NamesSnoc(init, last);
      NameSetSnoc(Names(init), last.name);
      if last.name !in Names(kept) {
        NamesSnoc(kept, last);
        NameSetSnoc(Names(kept), last.name);
      }
    }
  }

  /** Every kept row is the first row of the input carrying its name. */
  lemma {:induction false} DropDuplicatesKeepsFirst(rows: seq<FruitRow>)
    ensures forall k :: 0 <= k < |DropDuplicates(rows)| ==>
      var r := DropDuplicates(rows)[k];
      r.name in Names(rows) && r == rows[FirstIndex(rows, r.name)]
  {
    if rows != [] {
      var init := rows[..|rows| - 1];
      var last := rows[|rows| - 1];
      DropDuplicatesKeepsFirst(init);
      DropDuplicatesNames(init);
      var kept := DropDuplicates(init);
      assert rows == init + [last];
      forall k | 0 <= k < |kept|
        ensures kept[k].name in Names(rows) && kept[k] == rows[FirstIndex(rows, kept[k].name)]
      {
        FirstIndexOfPrefix(rows, |rows| - 1, kept[k].name);
      }
      if last.name !in Names(kept) {
        assert last.name !in NameSet(Names(init));
        FirstIndexOfLast(rows);
      }
    }
  }

  /** Kept rows appear in the order their names first appear in the input. */
  lemma {:induction false} DropDuplicatesOrder(rows: seq<FruitRow>)
    ensures forall i, j :: 0 <= i < j < |DropDuplicates(rows)| ==>
      var kept := DropDuplicates(rows);
      kept[i].name in Names(rows) && kept[j].name in Names(rows) &&
      FirstIndex(rows, kept[i].name) < FirstIndex(rows, kept[j].name)
  {
    if rows != [] {
      var init := rows[..|rows| - 1];
      var last := rows[|rows| - 1];
      DropDuplicatesOrder(init);
      DropDuplicatesKeepsFirst(init);
      DropDuplicatesNames(init);
      var kept := DropDuplicates(init);
      assert rows == init + [last];
      forall k | 0 <= k < |kept|
        ensures kept[k].name in Names(rows)
        ensures FirstIndex(rows, kept[k].name) == FirstIndex(init, kept[k].name)
        ensures FirstIndex(init, kept[k].name) < |rows| - 1
      {
        FirstIndexOfPrefix(rows, |rows| - 1, kept[k].name);
      }
      if last.name !in Names(kept) {
        assert last.name !in NameSet(Names(init));
        FirstIndexOfLast(rows);
      }
    }
  }

  /** Rows whose names are already unique pass through unchanged. */
  lemma {:induction false} DropDuplicatesOfDistinct(rows: seq<FruitRow>)
    requires Distinct(Names(rows))
    ensures DropDuplicates(rows) == rows
  {
    if rows != [] {
      var init := rows[..|rows| - 1];
      var last := rows[|rows| - 1];
      NamesPrefix(rows, |rows| - 1);
      DropDuplicatesOfDistinct(init);
      assert rows == init + [last];
      forall j | 0 <= j < |init|
        ensures Names(init)[j] != last.name
      {
        assert Names(rows)[j] != Names(rows)[|rows| - 1];
      }
      assert last.name !in Names(init);
      assert DropDuplicates(rows) == DropDuplicates(init) + [last];
    }
  }

  /** Dropping duplicates a second time changes nothing. */
  lemma DropDuplicatesIdempotent(rows: seq<FruitRow>)
    ensures DropDuplicates(DropDuplicates(rows)) == DropDuplicates(rows)
  {
    DropDuplicatesNames(rows);
    DropDuplicatesOfDistinct(DropDuplicates(rows));
  }

  /** Over distinct names, each name's entry in the index is its own row's key. */
  lemma {:induction false} IndexByNameLookup(kept: seq<FruitRow>)
    requires Distinct(Names(kept))
    ensures forall k :: 0 <= k < |kept| ==>
      kept[k].name in IndexByName(kept) && IndexByName(kept)[kept[k].name] == kept[k].searchOn
  {
    if kept != [] {
      var init := kept[..|kept| - 1];
      var last := kept[|kept| - 1];
      NamesPrefix(kept, |kept| - 1);
      assert Distinct(Names(init));
      IndexByNameLookup(init);
      var index := IndexByName(init)[last.name := last.searchOn];
      assert IndexByName(kept) == index;
      forall k | 0 <= k < |kept|
        ensures kept[k].name in index && index[kept[k].name] == kept[k].searchOn
      {
        if k < |init| {
          assert kept[k] == init[k];
          assert Names(kept)[k] != Names(kept)[|kept| - 1];
        }
      }
    }
  }

  /** The index of the deduplicated rows gives each name the key of its first row. */
  lemma IndexOfFirstRows(rows: seq<FruitRow>)
    ensures IndexByName(DropDuplicates(rows)).Keys == NameSet(Names(rows))
    ensures forall n :: n in IndexByName(DropDuplicates(rows)) ==>
      n in Names(rows) && IndexByName(DropDuplicates(rows))[n] == rows[FirstIndex(rows, n)].searchOn
  {
    var kept := DropDuplicates(rows);
    DropDuplicatesNames(rows);
    DropDuplicatesKeepsFirst(rows);
    IndexByNameLookup(kept);
    forall n | n in IndexByName(kept)
      ensures n in Names(rows) && IndexByName(kept)[n] == rows[FirstIndex(rows, n)].searchOn
    {
      assert n in NameSet(Names(kept));
      var k :| 0 <= k < |kept| && Names(kept)[k] == n;
    }
  }

  /**
    Loads the catalog: the options are the distinct names in order of first
    appearance, and the index maps each name to the key of its first row.
   */
  function LoadCatalog(rows: seq<FruitRow>): (c: LoadedCatalog)
    ensures Distinct(c.options)
    ensures NameSet(c.options) == NameSet(Names(rows))
    ensures c.index.Keys == NameSet(Names(rows))
    ensures forall n :: n in c.index ==>
      n in Names(rows) && c.index[n] == rows[FirstIndex(rows, n)].searchOn
    ensures forall i, j :: 0 <= i < j < |c.options| ==>
      c.options[i] in Names(rows) && c.options[j] in Names(rows) &&
      FirstIndex(rows, c.options[i]) < FirstIndex(rows, c.options[j])
  {
    var kept := DropDuplicates(rows);
    var options := Names(kept);
    DropDuplicatesNames(rows);
    DropDuplicatesOrder(rows);
    IndexOfFirstRows(rows);
    assert forall i :: 0 <= i < |options| ==> options[i] == kept[i].name;
    LoadedCatalog(options, IndexByName(kept))
  }
}
