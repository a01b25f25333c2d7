/**
 The deep check from end to end: the related tables are looked up in a catalog, and a checker
 over them answers for any objects of the root table, one after another.
 */
module LinkedChanges {
  import opened Wrappers
  import opened DeepChange
  import opened Related

  /** Every column key occurs once. */
  ghost predicate KeysIdentifyColumns(catalog: Catalog) {
    forall t, u, c, d ::
      (t in catalog.columns && u in catalog.columns && c in catalog.columns[t] && d in catalog.columns[u]
        && c.key == d.key) ==> t == u && c == d
  }

  /** The links lead where the catalog says. */
  ghost predicate Agrees(catalog: Catalog, g: Links) {
    forall t, c :: t in catalog.columns && c in catalog.columns[t] ==> g.targetTable(c.key) == c.target
  }

  /** What a column of an object holds: nothing, a link or a list of links. */
  ghost predicate Holds(g: Links, obj: int, c: Column, y: int) {
    match c.kind
    case Plain => false
    case Link => g.link(obj, c.key) == Some(y)
    case LinkList => y in g.list(obj, c.key)
  }

  /** An object has a link to another, by some link column of its table. */
  ghost predicate LinkedTo(catalog: Catalog, g: Links, n: Node, m: Node) {
    n.table in catalog.columns &&
    exists c :: c in catalog.columns[n.table] && c.target == m.table && Holds(g, n.obj, c, m.obj)
  }

  /** The object, or one behind at most `len` links, is modified. */
  ghost predicate ModifiedWithin(catalog: Catalog, g: Links, n: Node, len: int)
    decreases len
  {
    && len >= 0
    && (|| (n.table in g.modified && n.obj in g.modified[n.table])
        || exists m :: LinkedTo(catalog, g, n, m) && ModifiedWithin(catalog, g, m, len - 1))
  }

  /** What looking up the tables from `root` on gives. */
  ghost predicate RelatedFrom(catalog: Catalog, root: int, related: seq<RelatedTable>) {
    && (forall t :: t in TablesIn(related) <==> catalog.Reachable(root, t))
    && forall r <- related :: r.tableKey in catalog.columns && r.links == LinkColumns(catalog.columns[r.tableKey])
  }

  lemma {:induction false} LinkColumnsExact(columns: seq<Column>, l: OutgoingLink)
    ensures l in LinkColumns(columns)
       <==> exists c :: c in columns && !c.kind.Plain? && l == OutgoingLink(c.key, c.kind.LinkList?)
  {
    if columns != [] {
      var n := |columns| - 1;
      LinkColumnsExact(columns[..n], l);
      assert columns == columns[..n] + [columns[n]];
    }
  }

  lemma RelatedLinks(catalog: Catalog, root: int, g: Links, t: int)
    requires RelatedFrom(catalog, root, g.related) && catalog.Reachable(root, t)
    ensures t in catalog.columns && g.LinksOf(t) == LinkColumns(catalog.columns[t])
  {
    var r :| r in g.related && r.tableKey == t;
    FoundIfThere(g, t, 0);
    assert g.related[g.Find(t)] in g.related;
  }

  lemma {:induction false} FoundIfThere(g: Links, t: int, i: nat)
    requires i <= |g.related| && exists k :: i <= k < |g.related| && g.related[k].tableKey == t
    ensures g.Find(t, i) < |g.related|
    decreases |g.related| - i
  {
    if g.related[i].tableKey != t {
      FoundIfThere(g, t, i + 1);
    }
  }

  lemma ReachableThen(catalog: Catalog, t: int, u: int, w: int)
    requires catalog.Reachable(t, u) && catalog.LinksTo(u, w)
    ensures catalog.Reachable(t, w)
  {
    var chain :| catalog.Connects(chain) && chain[0] == t && chain[|chain| - 1] == u;
    var longer := chain + [w];
    assert catalog.Connects(longer) && longer[0] == t && longer[|longer| - 1] == w;
  }

  /** A link of the checker is a link of the catalog, and the other way round. */
  lemma StepIsLink(catalog: Catalog, root: int, g: Links, n: Node, l: OutgoingLink, y: int)
    requires RelatedFrom(catalog, root, g.related) && Agrees(catalog, g) && catalog.Reachable(root, n.table)
    requires g.Step(n, l, y, {})
    ensures LinkedTo(catalog, g, n, g.Behind(l, y)) && catalog.Reachable(root, g.Behind(l, y).table)
  {
    RelatedLinks(catalog, root, g, n.table);
    LinkColumnsExact(catalog.columns[n.table], l);
    var c :| c in catalog.columns[n.table] && !c.kind.Plain? && l == OutgoingLink(c.key, c.kind.LinkList?);
    assert catalog.LinksTo(n.table, c.target);
    ReachableThen(catalog, root, n.table, c.target);
  }

  lemma LinkIsStep(catalog: Catalog, root: int, g: Links, n: Node, m: Node) returns (l: OutgoingLink)
    requires RelatedFrom(catalog, root, g.related) && Agrees(catalog, g) && catalog.Reachable(root, n.table)
    requires LinkedTo(catalog, g, n, m)
    ensures g.Step(n, l, m.obj, {}) && g.Behind(l, m.obj) == m && catalog.Reachable(root, m.table)
  {
    var c :| c in catalog.columns[n.table] && c.target == m.table && Holds(g, n.obj, c, m.obj);
    l := OutgoingLink(c.key, c.kind.LinkList?);
    RelatedLinks(catalog, root, g, n.table);
    LinkColumnsExact(catalog.columns[n.table], l);
    assert catalog.LinksTo(n.table, c.target);
    ReachableThen(catalog, root, n.table, c.target);
  }

  lemma {:induction false} ReachMeansModified(catalog: Catalog, root: int, g: Links, n: Node, len: int)
    requires RelatedFrom(catalog, root, g.related) && Agrees(catalog, g) && catalog.Reachable(root, n.table)
    requires g.Reach(n, len, {})
    ensures ModifiedWithin(catalog, g, n, len)
    decreases len
  {
    hide RelatedFrom, Agrees, LinkedTo, Catalog.Reachable, Links.Step;
    if !g.Modified(n) {
      var l, y := g.FirstStep(n, len, {});
      StepIsLink(catalog, root, g, n, l, y);
      ReachMeansModified(catalog, root, g, g.Behind(l, y), len - 1);
    }
  }

  lemma {:induction false} ModifiedMeansReach(catalog: Catalog, root: int, g: Links, n: Node, len: int)
    requires RelatedFrom(catalog, root, g.related) && Agrees(catalog, g) && catalog.Reachable(root, n.table)
    requires ModifiedWithin(catalog, g, n, len)
    ensures g.Reach(n, len, {})
    decreases len
  {
    hide RelatedFrom, Agrees, LinkedTo, Catalog.Reachable, Links.Reach, Links.Step;
    if g.Modified(n) {
      g.ModifiedReach(n, len, {});
    } else {
      var m :| LinkedTo(catalog, g, n, m) && ModifiedWithin(catalog, g, m, len - 1);
      var l := LinkIsStep(catalog, root, g, n, m);
      ModifiedMeansReach(catalog, root, g, m, len - 1);
      g.AddStep(n, l, m.obj, len, {});
    }
  }

  /** What the checker finds over the related tables is what there is in the catalog. */
  lemma ReachIsModifiedWithin(catalog: Catalog, root: int, g: Links, n: Node, len: int)
    requires RelatedFrom(catalog, root, g.related) && Agrees(catalog, g) && catalog.Reachable(root, n.table)
    ensures g.Reach(n, len, {}) <==> ModifiedWithin(catalog, g, n, len)
  {
    hide RelatedFrom, Agrees, ModifiedWithin, Catalog.Reachable, Links.Reach;
    if g.Reach(n, len, {}) {
      ReachMeansModified(catalog, root, g, n, len);
    }
    if ModifiedWithin(catalog, g, n, len) {
      ModifiedMeansReach(catalog, root, g, n, len);
    }
  }

  /** A checker over the tables related to `root`. */
  method NewChecker(catalog: Catalog, targetTable: int -> int, link: (int, int) -> Option<int>,
                    list: (int, int) -> seq<int>, modified: map<int, set<int>>, root: int)
      returns (checker: DeepChangeChecker)
    requires catalog.Valid() && root in catalog.tables && KeysIdentifyColumns(catalog)
    requires forall t, c :: t in catalog.columns && c in catalog.columns[t] ==> targetTable(c.key) == c.target
    ensures fresh(checker) && fresh(checker.currentPath) && checker.Valid() && checker.rootTable == root
    ensures RelatedFrom(catalog, root, checker.g.related) && Agrees(catalog, checker.g)
    ensures checker.g.link == link && checker.g.list == list && checker.g.modified == modified
  {
    hide Catalog.Reachable, Links.Reach, Links.ColumnsIdentifyTables;
    var tables := new RelatedTables(catalog);
    tables.SetTable(root);
    var links := Links(tables.found, targetTable, link, list, modified);
    RelatedColumnsIdentifyTables(catalog, links);
    var path := new Path[MAX_DEPTH](_ => Path(0, 0, false));
    checker := new DeepChangeChecker(links, root, path);
  }

  /** For any catalog whose keys identify columns, any links and any queries: the answers are right. */
  method CheckAll(catalog: Catalog, targetTable: int -> int, link: (int, int) -> Option<int>,
                  list: (int, int) -> seq<int>,
                  modified: map<int, set<int>>, root: int, keys: seq<int>)
      returns (changed: seq<bool>, ghost g: Links)
    requires catalog.Valid() && root in catalog.tables && KeysIdentifyColumns(catalog)
    requires forall t, c :: t in catalog.columns && c in catalog.columns[t] ==> targetTable(c.key) == c.target
    ensures g.link == link && g.list == list && g.modified == modified
    ensures |changed| == |keys|
    ensures forall k :: 0 <= k < |keys| ==>
              (changed[k] <==> ModifiedWithin(catalog, g, Node(root, keys[k]), 3))
  {
    hide RelatedFrom, Agrees, KeysIdentifyColumns, ModifiedWithin, Catalog.Valid, Catalog.Reachable, Links.Reach,
      Links.ColumnsIdentifyTables;
    var checker := NewChecker(catalog, targetTable, link, list, modified, root);
    g := checker.g;
    catalog.ReachableSelf(root);
    changed := [];
    for k := 0 to |keys|
      invariant checker.Valid() && |changed| == k
      invariant forall x :: 0 <= x < k ==>
                  (changed[x] <==> ModifiedWithin(catalog, g, Node(root, keys[x]), 3))
    {
      ReachIsModifiedWithin(catalog, root, g, Node(root, keys[k]), 3);
      var answer := checker.Check(keys[k]);
      changed := changed + [answer];
    }
  }
}
