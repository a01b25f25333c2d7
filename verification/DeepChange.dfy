/**
 The memoised, depth-bounded search for a modified object behind an object's links.
 */
module DeepChange {
  import opened Wrappers

  datatype Node = Node(table: int, obj: int)

  datatype OutgoingLink = OutgoingLink(colKey: int, isList: bool)

  datatype RelatedTable = RelatedTable(tableKey: int, links: seq<OutgoingLink>)

  /** What the checker reads: the link columns of the related tables, the links themselves,
      and the objects modified in each table. */
  datatype Links = Links(
    related: seq<RelatedTable>,
    targetTable: int -> int,
    link: (int, int) -> Option<int>,
    list: (int, int) -> seq<int>,
    modified: map<int, set<int>>)
  {
    /** Index of the first entry for a table, or the number of entries. */
    function Find(table: int, i: nat := 0): (k: nat)
      requires i <= |related|
      ensures k <= |related| && (k < |related| ==> related[k].tableKey == table)
      decreases |related| - i
    {
      if i == |related| then i else if related[i].tableKey == table then i else Find(table, i + 1)
    }

    function LinksOf(table: int): seq<OutgoingLink> {
      var k := Find(table);
      if k < |related| then related[k].links else []
    }

    function Targets(obj: int, l: OutgoingLink): (targets: seq<int>)
      ensures l.isList ==> targets == list(obj, l.colKey)
      ensures !l.isList ==> |targets| <= 1
      ensures !l.isList ==> forall y :: y in targets <==> link(obj, l.colKey) == Some(y)
    {
      if l.isList then list(obj, l.colKey)
      else match link(obj, l.colKey) case None => [] case Some(dst) => [dst]
    }

    predicate Modified(n: Node) {
      n.table in modified && n.obj in modified[n.table]
    }

    /** A column key occurs in the links of one table only. */
    ghost predicate ColumnsIdentifyTables() {
      forall t, u, l, m :: l in LinksOf(t) && m in LinksOf(u) && l.colKey == m.colKey ==> t == u
    }

    /** A modified object is found from `n` through at most `len` links, none of them in `blocked`. */
    ghost predicate Reach(n: Node, len: int, blocked: set<(int, int)>)
      decreases len
    {
      len >= 0 && (Modified(n) || exists l, y :: Step(n, l, y, blocked) && Reach(Behind(l, y), len - 1, blocked))
    }

    ghost predicate Step(n: Node, l: OutgoingLink, y: int, blocked: set<(int, int)>) {
      l in LinksOf(n.table) && y in Targets(n.obj, l) && (n.obj, l.colKey) !in blocked
    }

    function Behind(l: OutgoingLink, y: int): Node {
      Node(targetTable(l.colKey), y)
    }

    lemma FirstStep(n: Node, len: int, blocked: set<(int, int)>) returns (l: OutgoingLink, y: int)
      requires Reach(n, len, blocked) && !Modified(n)
      ensures len >= 1 && Step(n, l, y, blocked) && Reach(Behind(l, y), len - 1, blocked)
    {
      l, y :| Step(n, l, y, blocked) && Reach(Behind(l, y), len - 1, blocked);
    }

    lemma AddStep(n: Node, l: OutgoingLink, y: int, len: int, blocked: set<(int, int)>)
      requires Step(n, l, y, blocked) && Reach(Behind(l, y), len - 1, blocked)
      ensures Reach(n, len, blocked)
    {
    }

    lemma ModifiedReach(n: Node, len: int, blocked: set<(int, int)>)
      requires Modified(n)
      ensures Reach(n, len, blocked) <==> len >= 0
    {
    }

    lemma {:induction false} ReachMonotone(n: Node, len: int, blocked: set<(int, int)>, len': int,
                                           blocked': set<(int, int)>)
      requires Reach(n, len, blocked) && len <= len' && blocked' <= blocked
      ensures Reach(n, len', blocked')
      decreases len
    {
      if !Modified(n) {
        var l, y := FirstStep(n, len, blocked);
        ReachMonotone(Behind(l, y), len - 1, blocked, len' - 1, blocked');
        AddStep(n, l, y, len', blocked');
      }
    }

    /** A search that fails once the column `c` of `x` is blocked as well must have come back to `x`. */
    lemma {:induction false} ReachOrReturn(n: Node, len: int, blocked: set<(int, int)>, x: Node, c: OutgoingLink)
      requires ColumnsIdentifyTables() && c in LinksOf(x.table)
      requires Reach(n, len, blocked)
      ensures Reach(n, len, blocked + {(x.obj, c.colKey)}) || Reach(x, len, blocked)
      decreases len
    {
      hide LinksOf, Targets, Modified, Reach;
      var more := blocked + {(x.obj, c.colKey)};
      if Modified(n) {
        ModifiedReach(n, len, blocked);
        ModifiedReach(n, len, more);
      } else {
        var l, y := FirstStep(n, len, blocked);
        if n.obj == x.obj && l.colKey == c.colKey {
          SameColumn(n.table, l, x.table, c);
        } else {
          ReachOrReturn(Behind(l, y), len - 1, blocked, x, c);
          ReachOrReturnStep(n, l, y, len, blocked, more, x);
        }
      }
    }

    lemma ReachOrReturnStep(n: Node, l: OutgoingLink, y: int, len: int, blocked: set<(int, int)>,
                            more: set<(int, int)>, x: Node)
      requires len >= 1 && Step(n, l, y, more)
      requires Reach(Behind(l, y), len - 1, more) || Reach(x, len - 1, blocked)
      ensures Reach(n, len, more) || Reach(x, len, blocked)
    {
      if Reach(x, len - 1, blocked) {
        ReachMonotone(x, len - 1, blocked, len, blocked);
      } else {
        AddStep(n, l, y, len, more);
      }
    }

    lemma SameColumn(t: int, l: OutgoingLink, u: int, m: OutgoingLink)
      requires ColumnsIdentifyTables() && l in LinksOf(t) && m in LinksOf(u) && l.colKey == m.colKey
      ensures t == u
    {
    }

    /** Nothing modified behind column `l` of `x`, going on for `len` links. */
    ghost predicate Exhausted(x: Node, l: OutgoingLink, len: int, blocked: set<(int, int)>) {
      || (x.obj, l.colKey) in blocked
      || forall y :: y in Targets(x.obj, l) ==> !Reach(Behind(l, y), len, blocked + {(x.obj, l.colKey)})
    }

    /** Exhausting every column of an unmodified object exhausts the object: pruning an
        object that is already being searched loses nothing. */
    lemma {:induction false} ExhaustedObject(x: Node, len: int, blocked: set<(int, int)>, n: int)
      requires ColumnsIdentifyTables() && !Modified(x) && n <= len + 1
      requires forall l <- LinksOf(x.table) :: Exhausted(x, l, len, blocked)
      ensures !Reach(x, n, blocked)
      decreases n
    {
      hide LinksOf, Targets, Modified, ColumnsIdentifyTables;
      if n < 0 {
      } else if Reach(x, n, blocked) {
        var l, y := FirstStep(x, n, blocked);
        var child, more := Behind(l, y), blocked + {(x.obj, l.colKey)};
        assert Exhausted(x, l, len, blocked);
        ReachOrReturn(child, n - 1, blocked, x, l);
        if Reach(child, n - 1, more) {
          ReachMonotone(child, n - 1, more, len, more);
        }
        ExhaustedObject(x, len, blocked, n - 1);
      }
    }
  }

  /** An object being searched, the column it is left through, and whether the search from
      here on was cut short. */
  datatype Path = Path(objKey: int, colKey: int, depthExceeded: bool)

  const MAX_DEPTH: nat := 4

  /** The columns being searched at depths `[lo, hi)`. */
  ghost function Stack(path: seq<Path>, lo: nat, hi: nat): set<(int, int)>
    requires lo <= hi <= |path|
  {
    set i | lo <= i < hi :: (path[i].objKey, path[i].colKey)
  }

  /** No search was cut short across depth `t - 1`; the bottom is always open. */
  ghost predicate Open(path: seq<Path>, t: nat)
    requires t <= |path|
  {
    t == 0 || !path[t - 1].depthExceeded
  }

  /** How far a failed search at depth `d` has looked, by the depth that it is open down to. */
  ghost function LinksLeft(t: nat, d: nat): int {
    if t == 0 then MAX_DEPTH - 1 - d else MAX_DEPTH - 1
  }

  /** A failed search of `x` at depth `d` has ruled out everything within range that does not
      pass through the columns still being searched. */
  ghost predicate RuledOut(g: Links, x: Node, d: nat, path: seq<Path>)
    requires d <= |path|
  {
    forall t :: 0 <= t <= d && Open(path, t) ==> !g.Reach(x, LinksLeft(t, d), Stack(path, t, d))
  }

  /** Below depth `d` only the cut-short marks change, and they are never taken back. */
  ghost predicate Keeps(was: seq<Path>, now: seq<Path>, d: nat)
    requires d <= |was| == |now|
  {
    forall i :: 0 <= i < d ==>
      && was[i].objKey == now[i].objKey
      && was[i].colKey == now[i].colKey
      && (was[i].depthExceeded ==> now[i].depthExceeded)
  }

  lemma KeepsStack(was: seq<Path>, now: seq<Path>, d: nat, t: nat)
    requires d <= |was| == |now| && Keeps(was, now, d) && t <= d
    ensures Stack(was, t, d) == Stack(now, t, d)
    ensures Open(now, t) ==> Open(was, t)
  {
  }

  lemma KeepsRuledOut(g: Links, x: Node, was: seq<Path>, now: seq<Path>, d: nat)
    requires d <= |was| == |now| && Keeps(was, now, d) && RuledOut(g, x, d, was)
    ensures RuledOut(g, x, d, now)
  {
    forall t | 0 <= t <= d && Open(now, t) ensures !g.Reach(x, LinksLeft(t, d), Stack(now, t, d)) {
      KeepsStack(was, now, d, t);
    }
  }

  /** Nothing modified behind one column of an object at depth `d`. */
  ghost predicate ColumnRuledOut(g: Links, x: Node, l: OutgoingLink, d: nat, path: seq<Path>)
    requires d <= |path|
  {
    forall t :: 0 <= t <= d && Open(path, t) ==> g.Exhausted(x, l, LinksLeft(t, d + 1), Stack(path, t, d))
  }

  lemma KeepsColumnRuledOut(g: Links, x: Node, l: OutgoingLink, was: seq<Path>, now: seq<Path>, d: nat)
    requires d <= |was| == |now| && Keeps(was, now, d) && ColumnRuledOut(g, x, l, d, was)
    ensures ColumnRuledOut(g, x, l, d, now)
  {
    forall t | 0 <= t <= d && Open(now, t) ensures g.Exhausted(x, l, LinksLeft(t, d + 1), Stack(now, t, d)) {
      KeepsStack(was, now, d, t);
    }
  }

  /** The column is being searched at depth `m`, and everything from there on is marked. */
  ghost predicate CutShortFrom(path: seq<Path>, obj: int, col: int, m: nat, d: nat)
    requires d <= |path|
  {
    && m < d && path[m].objKey == obj && path[m].colKey == col
    && forall i :: m <= i < d ==> path[i].depthExceeded
  }

  /** A column that is being searched already is left to that search. */
  lemma PrunedColumn(g: Links, x: Node, l: OutgoingLink, d: nat, path: seq<Path>, m: nat)
    requires d <= |path| && CutShortFrom(path, x.obj, l.colKey, m, d)
    ensures ColumnRuledOut(g, x, l, d, path)
  {
    forall t | 0 <= t <= d && Open(path, t) ensures (x.obj, l.colKey) in Stack(path, t, d) {
      assert t <= m;
    }
  }

  /** A column whose targets were all ruled out one level deeper is ruled out. */
  lemma SearchedColumn(g: Links, x: Node, l: OutgoingLink, d: nat, path: seq<Path>)
    requires d < |path| && path[d].objKey == x.obj && path[d].colKey == l.colKey
    requires forall y <- g.Targets(x.obj, l) :: RuledOut(g, g.Behind(l, y), d + 1, path)
    ensures ColumnRuledOut(g, x, l, d, path)
  {
    forall t | 0 <= t <= d && Open(path, t) ensures g.Exhausted(x, l, LinksLeft(t, d + 1), Stack(path, t, d)) {
      assert Stack(path, t, d + 1) == Stack(path, t, d) + {(x.obj, l.colKey)};
      forall y | y in g.Targets(x.obj, l)
        ensures !g.Reach(g.Behind(l, y), LinksLeft(t, d + 1), Stack(path, t, d) + {(x.obj, l.colKey)})
      {
        assert RuledOut(g, g.Behind(l, y), d + 1, path);
      }
    }
  }

  /** An unmodified object all of whose columns are ruled out is ruled out. */
  lemma SearchedObject(g: Links, x: Node, d: nat, path: seq<Path>)
    requires g.ColumnsIdentifyTables() && d < |path| && !g.Modified(x)
    requires forall l <- g.LinksOf(x.table) :: ColumnRuledOut(g, x, l, d, path)
    ensures RuledOut(g, x, d, path)
  {
    forall t | 0 <= t <= d && Open(path, t) ensures !g.Reach(x, LinksLeft(t, d), Stack(path, t, d)) {
      forall l | l in g.LinksOf(x.table) ensures g.Exhausted(x, l, LinksLeft(t, d + 1), Stack(path, t, d)) {
        assert ColumnRuledOut(g, x, l, d, path);
      }
      g.ExhaustedObject(x, LinksLeft(t, d + 1), Stack(path, t, d), LinksLeft(t, d));
    }
  }

  /** A memo entry rules its object out at every depth. */
  lemma MemoRulesOut(g: Links, x: Node, d: nat, path: seq<Path>)
    requires d <= |path| && !g.Reach(x, MAX_DEPTH - 1, {})
    ensures RuledOut(g, x, d, path)
  {
    forall t | 0 <= t <= d && Open(path, t) ensures !g.Reach(x, LinksLeft(t, d), Stack(path, t, d)) {
      if g.Reach(x, LinksLeft(t, d), Stack(path, t, d)) {
        g.ReachMonotone(x, LinksLeft(t, d), Stack(path, t, d), MAX_DEPTH - 1, {});
      }
    }
  }

  class DeepChangeChecker {
    const g: Links
    const rootTable: int
    const currentPath: array<Path>
    var notModified: set<Node>

    /** Memo entries are only ever made for objects from which nothing modified is in range. */
    ghost predicate Valid()
      reads this
    {
      && currentPath.Length == MAX_DEPTH
      && g.ColumnsIdentifyTables()
      && forall n <- notModified :: !g.Reach(n, MAX_DEPTH - 1, {})
    }

    constructor (g: Links, rootTable: int, path: array<Path>)
      requires g.ColumnsIdentifyTables() && path.Length == MAX_DEPTH
      ensures Valid() && this.g == g && this.rootTable == rootTable && currentPath == path
    {
      this.g, this.rootTable, currentPath := g, rootTable, path;
      notModified := {};
    }

    /** Is the column of this object being searched already?  If not, it goes onto the path;
        if so, every search above it is marked as cut short. */
    method AlreadyChecking(obj: int, col: int, depth: nat) returns (found: bool)
      requires depth < currentPath.Length
      modifies currentPath
      ensures Keeps(old(currentPath[..]), currentPath[..], depth)
      ensures found ==> exists m :: CutShortFrom(currentPath[..], obj, col, m, depth)
      ensures !found ==> currentPath[depth] == Path(obj, col, false)
    {
      var m := 0;
      while m < depth && !(currentPath[m].objKey == obj && currentPath[m].colKey == col)
        invariant 0 <= m <= depth
      {
        m := m + 1;
      }
      if m != depth {
        ghost var first := m;
        while m < depth
          invariant first <= m <= depth
          invariant currentPath[first].objKey == obj && currentPath[first].colKey == col
          invariant Keeps(old(currentPath[..]), currentPath[..], depth)
          invariant forall i :: first <= i < m ==> currentPath[i].depthExceeded
        {
          currentPath[m] := currentPath[m].(depthExceeded := true);
          m := m + 1;
        }
        assert CutShortFrom(currentPath[..], obj, col, first, depth);
        return true;
      }
      currentPath[depth] := Path(obj, col, false);
      return false;
    }

    /** Search one object at the given depth. */
    method CheckRow(n: Node, depth: nat) returns (ret: bool)
      requires Valid() && depth <= MAX_DEPTH && (depth == 0 ==> !g.Modified(n))
      modifies this, currentPath
      ensures Valid() && Keeps(old(currentPath[..]), currentPath[..], depth)
      ensures ret ==> g.Reach(n, MAX_DEPTH - 1 - depth, {})
      ensures !ret ==> RuledOut(g, n, depth, currentPath[..])
      decreases MAX_DEPTH - depth, 2
    {
      if depth >= currentPath.Length {
        for i := 0 to currentPath.Length
          invariant notModified == old(notModified)
          invariant Keeps(old(currentPath[..]), currentPath[..], depth)
          invariant forall k :: 0 <= k < i ==> currentPath[k].depthExceeded
        {
          currentPath[i] := currentPath[i].(depthExceeded := true);
        }
        return false;
      }
      if depth > 0 && g.Modified(n) {
        g.ModifiedReach(n, MAX_DEPTH - 1 - depth, {});
        return true;
      }
      if n in notModified {
        MemoRulesOut(g, n, depth, currentPath[..]);
        return false;
      }
      ret := CheckOutgoingLinks(n, depth);
      if !ret && (depth == 0 || !currentPath[depth - 1].depthExceeded) {
        assert Open(currentPath[..], depth) && Stack(currentPath[..], depth, depth) == {};
        notModified := notModified + {n};
      }
    }

    method CheckOutgoingLinks(n: Node, depth: nat) returns (ret: bool)
      requires Valid() && depth < MAX_DEPTH && !g.Modified(n)
      modifies this, currentPath
      ensures Valid() && Keeps(old(currentPath[..]), currentPath[..], depth)
      ensures ret ==> g.Reach(n, MAX_DEPTH - 1 - depth, {})
      ensures !ret ==> RuledOut(g, n, depth, currentPath[..])
      decreases MAX_DEPTH - depth, 1
    {
      var k := g.Find(n.table);
      if k == |g.related| || g.related[k].links == [] {
        SearchedObject(g, n, depth, currentPath[..]);
        return false;
      }
      var links := g.related[k].links;
      for i := 0 to |links|
        invariant Valid() && Keeps(old(currentPath[..]), currentPath[..], depth)
        invariant forall j :: 0 <= j < i ==> ColumnRuledOut(g, n, links[j], depth, currentPath[..])
      {
        ghost var was := currentPath[..];
        var changed := LinkedObjectChanged(n, links[i], depth);
        if changed {
          return true;
        }
        forall j | 0 <= j < i ensures ColumnRuledOut(g, n, links[j], depth, currentPath[..]) {
          KeepsColumnRuledOut(g, n, links[j], was, currentPath[..], depth);
        }
      }
      SearchedObject(g, n, depth, currentPath[..]);
      return false;
    }

    method LinkedObjectChanged(n: Node, l: OutgoingLink, depth: nat) returns (ret: bool)
      requires Valid() && depth < MAX_DEPTH && !g.Modified(n) && l in g.LinksOf(n.table)
      modifies this, currentPath
      ensures Valid() && Keeps(old(currentPath[..]), currentPath[..], depth)
      ensures ret ==> g.Reach(n, MAX_DEPTH - 1 - depth, {})
      ensures !ret ==> ColumnRuledOut(g, n, l, depth, currentPath[..])
      decreases MAX_DEPTH - depth, 0
    {
      var checking := AlreadyChecking(n.obj, l.colKey, depth);
      if checking {
        ghost var m :| CutShortFrom(currentPath[..], n.obj, l.colKey, m, depth);
        PrunedColumn(g, n, l, depth, currentPath[..], m);
        return false;
      }
      var targets;
      if !l.isList {
        var dst := g.link(n.obj, l.colKey);
        if dst.None? {
          SearchedColumn(g, n, l, depth, currentPath[..]);
          return false;
        }
        targets := [dst.value];
      } else {
        targets := g.list(n.obj, l.colKey);
      }
      ret := AnyChanged(n, l, targets, depth);
    }

    method AnyChanged(n: Node, l: OutgoingLink, targets: seq<int>, depth: nat) returns (ret: bool)
      requires Valid() && depth < MAX_DEPTH && l in g.LinksOf(n.table) && targets == g.Targets(n.obj, l)
      requires currentPath[depth] == Path(n.obj, l.colKey, false)
      modifies this, currentPath
      ensures Valid() && Keeps(old(currentPath[..]), currentPath[..], depth)
      ensures ret ==> g.Reach(n, MAX_DEPTH - 1 - depth, {})
      ensures !ret ==> ColumnRuledOut(g, n, l, depth, currentPath[..])
      decreases MAX_DEPTH - depth - 1, 3
    {
      hide RuledOut, ColumnRuledOut, Links.LinksOf, Links.Targets, Links.Reach;
      for i := 0 to |targets|
        invariant Valid() && Keeps(old(currentPath[..]), currentPath[..], depth + 1)
        invariant forall j :: 0 <= j < i ==> RuledOut(g, g.Behind(l, targets[j]), depth + 1, currentPath[..])
      {
        ghost var was := currentPath[..];
        var changed := CheckRow(g.Behind(l, targets[i]), depth + 1);
        if changed {
          g.AddStep(n, l, targets[i], MAX_DEPTH - 1 - depth, {});
          return true;
        }
        forall j | 0 <= j < i ensures RuledOut(g, g.Behind(l, targets[j]), depth + 1, currentPath[..]) {
          KeepsRuledOut(g, g.Behind(l, targets[j]), was, currentPath[..], depth + 1);
        }
      }
      SearchedColumn(g, n, l, depth, currentPath[..]);
      return false;
    }

    /** Whatever was asked before: the object itself, or one within three links, is modified. */
    method Check(key: int) returns (ret: bool)
      requires Valid()
      modifies this, currentPath
      ensures Valid()
      ensures ret <==> g.Reach(Node(rootTable, key), 3, {})
    {
      var root := Node(rootTable, key);
      if g.Modified(root) {
        g.ModifiedReach(root, MAX_DEPTH - 1, {});
        return true;
      }
      ret := CheckRow(root, 0);
      assert Open(currentPath[..], 0) && Stack(currentPath[..], 0, 0) == {};
    }
  }
}
