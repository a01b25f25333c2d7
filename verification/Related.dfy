/**
 Which tables a change to an object may be seen through: those reachable over link columns.
 */
module Related {
  import opened DeepChange

  datatype ColumnKind = Plain | Link | LinkList

  datatype Column = Column(key: int, kind: ColumnKind, target: int)

  /** All tables and their columns; links stay among the tables. */
  datatype Catalog = Catalog(tables: set<int>, columns: map<int, seq<Column>>) {
    ghost predicate Valid() {
      && columns.Keys == tables
      && forall t, c :: t in tables && c in columns[t] && !c.kind.Plain? ==> c.target in tables
    }

    ghost predicate LinksTo(t: int, u: int) {
      t in columns && exists c :: c in columns[t] && !c.kind.Plain? && c.target == u
    }

    /** There is a chain of links from `t` to `u`. */
    ghost predicate Connects(chain: seq<int>) {
      |chain| > 0 && forall i :: 0 < i < |chain| ==> LinksTo(chain[i - 1], chain[i])
    }

    ghost predicate Reachable(t: int, u: int) {
      exists chain :: Connects(chain) && chain[0] == t && chain[|chain| - 1] == u
    }

    lemma ReachableSelf(t: int)
      ensures Reachable(t, t)
    {
      assert Connects([t]) && [t][0] == t;
    }

    lemma ReachableStep(t: int, u: int, w: int)
      requires LinksTo(t, u) && Reachable(u, w)
      ensures Reachable(t, w)
    {
      var chain :| Connects(chain) && chain[0] == u && chain[|chain| - 1] == w;
      assert Connects([t] + chain) && ([t] + chain)[0] == t;
    }
  }

  /** The link columns among the first `n`, in column order. */
  function LinkColumns(columns: seq<Column>): seq<OutgoingLink> {
    if columns == [] then [] else
      var c := columns[|columns| - 1];
      LinkColumns(columns[..|columns| - 1]) + if c.kind.Plain? then [] else [OutgoingLink(c.key, c.kind.LinkList?)]
  }

  ghost function TablesIn(related: seq<RelatedTable>): set<int> {
    set r | r in related :: r.tableKey
  }

  /** An entry lists exactly the link columns of its table, and all their targets were found. */
  ghost predicate Complete(catalog: Catalog, r: RelatedTable, found: set<int>) {
    && r.tableKey in catalog.columns
    && r.links == LinkColumns(catalog.columns[r.tableKey])
    && forall u :: catalog.LinksTo(r.tableKey, u) ==> u in found
  }

  ghost predicate Unique(related: seq<RelatedTable>) {
    forall i, j :: 0 <= i < j < |related| ==> related[i].tableKey != related[j].tableKey
  }

  lemma SameTables(was: seq<RelatedTable>, now: seq<RelatedTable>, k: nat)
    requires k < |was| == |now| && now == was[k := now[k]] && now[k].tableKey == was[k].tableKey
    ensures TablesIn(now) == TablesIn(was)
  {
    forall i: nat | i < |was| ensures was[i].tableKey in TablesIn(now) && now[i].tableKey in TablesIn(was) {
      assert now[i] in now && was[i] in was;
    }
  }

  class RelatedTables {
    const catalog: Catalog
    var found: seq<RelatedTable>

    constructor (catalog: Catalog)
      ensures this.catalog == catalog && found == []
    {
      this.catalog, found := catalog, [];
    }

    /** Look a table up afresh: what is found are exactly the tables reachable through links,
        each of them once and with exactly its link columns. */
    method SetTable(table: int)
      requires catalog.Valid() && table in catalog.tables
      modifies this
      ensures forall t :: t in TablesIn(found) <==> catalog.Reachable(table, t)
      ensures Unique(found)
      ensures forall r <- found :: r.tableKey in catalog.columns && r.links == LinkColumns(catalog.columns[r.tableKey])
    {
      found := [];
      Find(table);
      forall t | catalog.Reachable(table, t) ensures t in TablesIn(found) {
        var chain :| catalog.Connects(chain) && chain[0] == table && chain[|chain| - 1] == t;
        ChainFound(chain, |chain| - 1);
      }
    }

    lemma {:induction false} ChainFound(chain: seq<int>, k: nat)
      requires k < |chain| && catalog.Connects(chain) && chain[0] in TablesIn(found)
      requires forall i :: 0 <= i < |found| ==> Complete(catalog, found[i], TablesIn(found))
      ensures chain[k] in TablesIn(found)
    {
      if k > 0 {
        ChainFound(chain, k - 1);
        var r :| r in found && r.tableKey == chain[k - 1];
        var i :| 0 <= i < |found| && found[i] == r;
        assert Complete(catalog, found[i], TablesIn(found)) && catalog.LinksTo(chain[k - 1], chain[k]);
      }
    }

    /** Add a table and everything it links to; entries made before are left alone. */
    method Find(table: int)
      requires catalog.Valid() && table in catalog.tables
      modifies this
      ensures old(found) <= found && table in TablesIn(found)
      ensures Unique(old(found)) ==> Unique(found)
      ensures forall i :: |old(found)| <= i < |found| ==>
                Complete(catalog, found[i], TablesIn(found)) && catalog.Reachable(table, found[i].tableKey)
      decreases catalog.tables - TablesIn(found), 1
    {
      if exists r :: r in found && r.tableKey == table {
        return;
      }
      var outIndex := |found|;
      ghost var base := found;
      found := found + [RelatedTable(table, [])];
      Added(catalog, base, table);
      var columns := catalog.columns[table];
      for k := 0 to |columns|
        invariant Progress(catalog, base, found, table, k)
      {
        Follow(base, table, outIndex, columns[k], k);
      }
      assert columns[..|columns|] == columns;
      catalog.ReachableSelf(table);
      assert found[outIndex] in found;
    }

    /** One column: its link is recorded in the table's entry, which is looked up by index
        because the vector may grow, and its target is searched. */
    method Follow(ghost base: seq<RelatedTable>, table: int, outIndex: nat, c: Column, ghost k: nat)
      requires catalog.Valid() && table in catalog.tables && table !in TablesIn(base) && outIndex == |base|
      requires Progress(catalog, base, found, table, k)
      requires k < |catalog.columns[table]| && c == catalog.columns[table][k]
      modifies this
      ensures Progress(catalog, base, found, table, k + 1)
      decreases catalog.tables - TablesIn(base), 0
    {
      ghost var was := found;
      if c.kind.Link? || c.kind.LinkList? {
        var link := OutgoingLink(c.key, c.kind.LinkList?);
        found := found[outIndex := found[outIndex].(links := found[outIndex].links + [link])];
        SameTables(was, found, outIndex);
        assert c in catalog.columns[table];
        Find(c.target);
      }
      Followed(catalog, base, was, found, table, k);
    }
  }

  /** The table's own entry comes right after `base` and has its first `k` columns done;
      everything found because of them is complete. */
  ghost predicate Progress(catalog: Catalog, base: seq<RelatedTable>, found: seq<RelatedTable>, table: int, k: nat)
    requires table in catalog.columns
  {
    var columns := catalog.columns[table];
    && k <= |columns|
    && base <= found && |base| < |found|
    && found[|base|] == RelatedTable(table, LinkColumns(columns[..k]))
    && TablesIn(base) + {table} <= TablesIn(found)
    && (Unique(base) ==> Unique(found))
    && (forall c :: c in columns[..k] && !c.kind.Plain? ==> c.target in TablesIn(found))
    && forall i :: |base| < i < |found| ==>
         Complete(catalog, found[i], TablesIn(found)) && catalog.Reachable(table, found[i].tableKey)
  }

  lemma Added(catalog: Catalog, base: seq<RelatedTable>, table: int)
    requires table in catalog.columns && table !in TablesIn(base)
    ensures Progress(catalog, base, base + [RelatedTable(table, [])], table, 0)
  {
    var found := base + [RelatedTable(table, [])];
    assert found[|base|] in found;
    forall i: nat | i < |base| ensures base[i].tableKey != table && base[i].tableKey in TablesIn(found) {
      assert base[i] in base && found[i] in found;
    }
  }

  lemma Followed(catalog: Catalog, base: seq<RelatedTable>, was: seq<RelatedTable>, now: seq<RelatedTable>, table: int,
                 k: nat)
    requires table in catalog.columns && k < |catalog.columns[table]| && Progress(catalog, base, was, table, k)
    requires var c := catalog.columns[table][k];
             if c.kind.Plain? then now == was else
             var links := LinkColumns(catalog.columns[table][..k]) + [OutgoingLink(c.key, c.kind.LinkList?)];
             var entry := RelatedTable(table, links);
             && was[|base| := entry] <= now && c.target in TablesIn(now)
             && (Unique(was[|base| := entry]) ==> Unique(now))
             && forall i :: |was| <= i < |now| ==>
                  Complete(catalog, now[i], TablesIn(now)) && catalog.Reachable(c.target, now[i].tableKey)
    ensures Progress(catalog, base, now, table, k + 1)
  {
    var columns, c := catalog.columns[table], catalog.columns[table][k];
    assert columns[..k + 1] == columns[..k] + [c];
    assert LinkColumns(columns[..k + 1]) ==
             LinkColumns(columns[..k]) + if c.kind.Plain? then [] else [OutgoingLink(c.key, c.kind.LinkList?)];
    if !c.kind.Plain? {
      hide LinkColumns, Complete, Unique, TablesIn, Catalog.Reachable;
      assert forall i: nat :: i < |was| && i != |base| ==> now[i] == was[i];
      GrownTables(was, now);
      assert catalog.LinksTo(table, c.target);
      forall i | |base| < i < |now|
        ensures Complete(catalog, now[i], TablesIn(now)) && catalog.Reachable(table, now[i].tableKey)
      {
        if i < |was| {
          StaysComplete(catalog, was[i], TablesIn(was), TablesIn(now));
        } else {
          catalog.ReachableStep(table, c.target, now[i].tableKey);
        }
      }
    }
  }

  lemma StaysComplete(catalog: Catalog, r: RelatedTable, found: set<int>, more: set<int>)
    requires Complete(catalog, r, found) && found <= more
    ensures Complete(catalog, r, more)
  {
  }

  lemma GrownTables(was: seq<RelatedTable>, now: seq<RelatedTable>)
    requires |was| <= |now| && forall i: nat :: i < |was| ==> now[i].tableKey == was[i].tableKey
    ensures TablesIn(was) <= TablesIn(now)
  {
    forall i: nat | i < |was| ensures was[i].tableKey in TablesIn(now) {
      assert now[i] in now;
    }
  }

  /** The checker's column keys identify tables whenever the catalog's do. */
  lemma RelatedColumnsIdentifyTables(catalog: Catalog, g: Links)
    requires forall r <- g.related ::
               r.tableKey in catalog.columns && r.links == LinkColumns(catalog.columns[r.tableKey])
    requires forall t <- catalog.columns, u <- catalog.columns, c, d ::
               c in catalog.columns[t] && d in catalog.columns[u] && c.key == d.key ==> t == u
    ensures g.ColumnsIdentifyTables()
  {
    forall t, u, l, m | l in g.LinksOf(t) && m in g.LinksOf(u) && l.colKey == m.colKey ensures t == u {
      assert g.related[g.Find(t)] in g.related && g.related[g.Find(u)] in g.related;
      LinkColumnsMembers(catalog.columns[t], l);
      LinkColumnsMembers(catalog.columns[u], m);
    }
  }

  lemma {:induction false} LinkColumnsMembers(columns: seq<Column>, l: OutgoingLink)
    requires l in LinkColumns(columns)
    ensures exists c :: c in columns && c.key == l.colKey
  {
    var last := columns[|columns| - 1];
    if last.key != l.colKey {
      LinkColumnsMembers(columns[..|columns| - 1], l);
    }
  }
}
