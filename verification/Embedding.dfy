/**
 The breadth-first check for cycles among embedded object types.
 */
module Embedding {

  datatype Property = Property(name: string, isObject: bool, objectType: string)

  datatype ObjectSchema = ObjectSchema(name: string, isEmbedded: bool, properties: seq<Property>)

  /** A schema whose type names are unique and whose links all resolve. */
  datatype Schema = Schema(objects: seq<ObjectSchema>) {
    ghost predicate Valid() {
      && (forall x, y :: 0 <= x < y < |objects| ==> objects[x].name != objects[y].name)
      && forall o <- objects, p :: p in o.properties && p.isObject ==> p.objectType in Names()
    }

    ghost function Names(): set<string> {
      set o | o in objects :: o.name
    }

    /** Position of the type of that name. */
    function Find(name: string, from: nat := 0): (k: nat)
      requires from <= |objects|
      ensures from <= k <= |objects| && (k < |objects| ==> objects[k].name == name)
      ensures k == |objects| ==> forall x :: from <= x < |objects| ==> objects[x].name != name
      decreases |objects| - from
    {
      if from == |objects| then from
      else if objects[from].name == name then from
      else Find(name, from + 1)
    }

    /** A property of `a` embeds `b`. */
    ghost predicate Embeds(a: string, b: string) {
      exists o, p :: o in objects && o.name == a && p in o.properties && LinksTo(p, b)
    }

    ghost predicate LinksTo(p: Property, b: string) {
      p.isObject && p.objectType == b && exists o :: o in objects && o.name == b && o.isEmbedded
    }

    ghost predicate IsWalk(walk: seq<string>) {
      |walk| > 0 && forall k :: 0 < k < |walk| ==> Embeds(walk[k - 1], walk[k])
    }

    ghost predicate Reaches(a: string, b: string) {
      exists walk :: IsWalk(walk) && walk[0] == a && walk[|walk| - 1] == b
    }

    /** Some embedded type embeds itself, directly or through others. */
    ghost predicate IsCycle(walk: seq<string>) {
      |walk| > 1 && IsWalk(walk) && walk[0] == walk[|walk| - 1]
    }

    ghost predicate HasCycle() {
      exists walk :: IsCycle(walk)
    }

    /** A cycle can be reached from the type. */
    ghost predicate LeadsToCycle(a: string) {
      exists walk :: IsCycle(walk) && Reaches(a, walk[0])
    }

    lemma ReachesSelf(a: string)
      ensures Reaches(a, a)
    {
      assert IsWalk([a]) && [a][0] == a;
    }

    lemma ReachesStep(a: string, b: string, c: string)
      requires Reaches(a, b) && Embeds(b, c)
      ensures Reaches(a, c)
    {
      var walk :| IsWalk(walk) && walk[0] == a && walk[|walk| - 1] == b;
      var longer := walk + [c];
      assert IsWalk(longer) && longer[0] == a && longer[|longer| - 1] == c;
    }

    lemma ClosesCycle(a: string, b: string)
      requires Reaches(a, b) && Embeds(b, a)
      ensures LeadsToCycle(b)
    {
      var walk :| IsWalk(walk) && walk[0] == a && walk[|walk| - 1] == b;
      assert IsCycle(walk + [a]);
      ReachesSelf(b);
      ReachesStep(b, b, a);
      assert (walk + [a])[0] == a;
    }

    lemma ReachesOn(a: string, b: string, c: string)
      requires Reaches(a, b) && Reaches(b, c)
      ensures Reaches(a, c)
    {
      var v :| IsWalk(v) && v[0] == a && v[|v| - 1] == b;
      var w :| IsWalk(w) && w[0] == b && w[|w| - 1] == c;
      var longer := v + w[1..];
      forall k | 0 < k < |longer| ensures Embeds(longer[k - 1], longer[k]) {
        if k >= |v| {
          assert longer[k - 1] == w[k - |v|] && longer[k] == w[k - |v| + 1];
        }
      }
      assert IsWalk(longer) && longer[0] == a && longer[|longer| - 1] == c;
    }

    lemma ThereIsOne(a: string)
      requires LeadsToCycle(a)
      ensures HasCycle()
    {
    }

    lemma CycleBeyond(a: string, b: string)
      requires Reaches(a, b) && LeadsToCycle(b)
      ensures LeadsToCycle(a)
    {
      var walk :| IsCycle(walk) && Reaches(b, walk[0]);
      ReachesOn(a, b, walk[0]);
    }
  }

  /** A type still to be looked at, how it was reached, and the types met on the way. */
  datatype CheckObjectPath = CheckObjectPath(type_: ObjectSchema, path: string, visited: set<string>)

  /** What is left to meet; it shrinks with every step along a path. */
  ghost function Budget(s: Schema, name: string, visited: set<string>): nat {
    2 * |s.Names() - visited| + if name in visited then 1 else 0
  }

  lemma BudgetShrinks(s: Schema, name: string, visited: set<string>, next: string)
    requires name in s.Names() && next in s.Names() && next !in visited
    ensures Budget(s, next, visited + {name}) < Budget(s, name, visited)
  {
    if name !in visited {
      assert s.Names() - (visited + {name}) == (s.Names() - visited) - {name};
    } else {
      assert visited + {name} == visited;
    }
  }

  /** No path from here on comes back to a type that it has met. */
  ghost predicate Clean(s: Schema, name: string, visited: set<string>)
    requires name in s.Names()
    decreases Budget(s, name, visited)
  {
    forall next :: next in s.Names() && s.Embeds(name, next) ==>
      next !in visited && (BudgetShrinks(s, name, visited, next); Clean(s, next, visited + {name}))
  }

  /** A walk through a clean part of the schema never returns to its start. */
  lemma {:induction false} CleanWalk(s: Schema, name: string, visited: set<string>, walk: seq<string>, k: nat)
    requires name in s.Names() && Clean(s, name, visited)
    requires s.IsWalk(walk) && walk[0] == name && (forall n <- walk :: n in s.Names()) && 0 < k < |walk|
    ensures walk[k] !in visited && (k > 1 ==> walk[k] != name)
    decreases |walk|
  {
    assert s.Embeds(walk[0], walk[1]) && walk[1] in walk;
    if k > 1 {
      var rest := walk[1..];
      assert s.IsWalk(rest) by {
        forall i | 0 < i < |rest| ensures s.Embeds(rest[i - 1], rest[i]) {
          assert s.Embeds(walk[i], walk[i + 1]);
        }
      }
      CleanWalk(s, rest[0], visited + {name}, rest, k - 1);
    }
  }

  lemma EmbeddedNames(s: Schema, a: string, b: string)
    requires s.Embeds(a, b)
    ensures a in s.Names() && b in s.Names()
  {
  }

  /** If the search from a type on a cycle is clean, there is no cycle through it. */
  lemma CleanMeansNoCycle(s: Schema, walk: seq<string>, visited: set<string>)
    requires s.IsCycle(walk)
    ensures walk[0] in s.Names() && !Clean(s, walk[0], visited)
  {
    forall k | 0 <= k < |walk| ensures walk[k] in s.Names() {
      if k > 0 {
        EmbeddedNames(s, walk[k - 1], walk[k]);
      } else {
        assert s.Embeds(walk[0], walk[1]);
        EmbeddedNames(s, walk[0], walk[1]);
      }
    }
    if Clean(s, walk[0], visited) {
      if |walk| == 2 {
        var twice := walk + [walk[0]];
        assert s.Embeds(walk[0], walk[1]);
        assert s.IsWalk(twice);
        CleanWalk(s, walk[0], visited, twice, 2);
      } else {
        CleanWalk(s, walk[0], visited, walk, |walk| - 1);
      }
    }
  }

  /** The search goes on clean along every walk. */
  lemma {:induction false} CleanAlong(s: Schema, visited: set<string>, walk: seq<string>) returns (v: set<string>)
    requires s.IsWalk(walk) && walk[0] in s.Names() && Clean(s, walk[0], visited)
    ensures walk[|walk| - 1] in s.Names() && Clean(s, walk[|walk| - 1], v)
    decreases |walk|
  {
    v := visited;
    if |walk| > 1 {
      var rest := walk[1..];
      assert s.Embeds(walk[0], walk[1]);
      EmbeddedNames(s, walk[0], walk[1]);
      forall i | 0 < i < |rest| ensures s.Embeds(rest[i - 1], rest[i]) {
        assert s.Embeds(walk[i], walk[i + 1]);
      }
      BudgetShrinks(s, walk[0], visited, walk[1]);
      v := CleanAlong(s, visited + {walk[0]}, rest);
    }
  }

  /** From a type whose search is clean no cycle can be reached. */
  lemma CleanLeadsNowhere(s: Schema, name: string, visited: set<string>)
    requires name in s.Names() && Clean(s, name, visited)
    ensures !s.LeadsToCycle(name)
  {
    if s.LeadsToCycle(name) {
      var cycle :| s.IsCycle(cycle) && s.Reaches(name, cycle[0]);
      var walk :| s.IsWalk(walk) && walk[0] == name && walk[|walk| - 1] == cycle[0];
      var v := CleanAlong(s, visited, walk);
      CleanMeansNoCycle(s, cycle, v);
    }
  }

  // ---------------------------------------------------------------------------
  // The search

  /** The type that a property embeds, if any. */
  function Target(s: Schema, p: Property): (k: nat)
    ensures k <= |s.objects|
    ensures k < |s.objects| ==> s.LinksTo(p, s.objects[k].name)
  {
    if !p.isObject then |s.objects| else
      var k := s.Find(p.objectType);
      if k < |s.objects| && s.objects[k].isEmbedded then assert s.objects[k] in s.objects; k else |s.objects|
  }

  /** How many types the search will look at from here on. */
  ghost function Cost(s: Schema, o: ObjectSchema, visited: set<string>): nat
    requires o in s.objects
    decreases Budget(s, o.name, visited), |o.properties| + 1
  {
    1 + CostBelow(s, o, visited, |o.properties|)
  }

  ghost function CostBelow(s: Schema, o: ObjectSchema, visited: set<string>, k: nat): nat
    requires o in s.objects && k <= |o.properties|
    decreases Budget(s, o.name, visited), k
  {
    if k == 0 then 0 else
      var t := Target(s, o.properties[k - 1]);
      CostBelow(s, o, visited, k - 1) +
        if t < |s.objects| && s.objects[t].name !in visited then
          assert s.objects[t] in s.objects;
          BudgetShrinks(s, o.name, visited, s.objects[t].name);
          Cost(s, s.objects[t], visited + {o.name})
        else 0
  }

  ghost predicate ItemOf(s: Schema, i: CheckObjectPath) {
    && i.type_ in s.objects
    && forall v <- i.visited :: s.Reaches(v, i.type_.name)
  }

  ghost predicate ItemsOf(s: Schema, queue: seq<CheckObjectPath>) {
    forall i <- queue :: ItemOf(s, i)
  }

  ghost predicate AllClean(s: Schema, queue: seq<CheckObjectPath>)
    requires ItemsOf(s, queue)
  {
    forall i <- queue :: i.type_.name in s.Names() && Clean(s, i.type_.name, i.visited)
  }

  ghost function TotalCost(s: Schema, queue: seq<CheckObjectPath>): nat
    requires ItemsOf(s, queue)
  {
    if queue == [] then 0 else
      var last := |queue| - 1;
      assert queue[last] in queue;
      TotalCost(s, queue[..last]) + Cost(s, queue[last].type_, queue[last].visited)
  }

  lemma {:induction false} TotalCostAppend(s: Schema, a: seq<CheckObjectPath>, b: seq<CheckObjectPath>)
    requires ItemsOf(s, a) && ItemsOf(s, b)
    ensures ItemsOf(s, a + b) && TotalCost(s, a + b) == TotalCost(s, a) + TotalCost(s, b)
  {
    if b == [] {
      assert a + b == a;
    } else {
      var last := |b| - 1;
      TotalCostAppend(s, a, b[..last]);
      assert (a + b)[..|a + b| - 1] == a + b[..last];
    }
  }

  /** The `k`-th property of the type being looked at embeds a type that was not met and is queued. */
  ghost predicate Queued(s: Schema, i: CheckObjectPath, k: nat, pushed: seq<CheckObjectPath>)
    requires k < |i.type_.properties|
  {
    var t := Target(s, i.type_.properties[k]);
    t < |s.objects| ==>
      && s.objects[t].name !in i.visited
      && exists j :: j in pushed && j.type_ == s.objects[t] && j.visited == i.visited + {i.type_.name}
  }

  /** A property that embeds a type is found to do so. */
  lemma TargetComplete(s: Schema, p: Property, b: string)
    requires s.Valid() && s.LinksTo(p, b)
    ensures Target(s, p) < |s.objects| && s.objects[Target(s, p)].name == b
  {
    var o :| o in s.objects && o.name == b && o.isEmbedded;
    var x :| 0 <= x < |s.objects| && s.objects[x] == o;
    var k := s.Find(b);
    assert k == x;
  }

  /** If everything that a type embeds is queued and clean, the type is clean. */
  lemma QueuedClean(s: Schema, i: CheckObjectPath, pushed: seq<CheckObjectPath>)
    requires s.Valid() && ItemOf(s, i) && ItemsOf(s, pushed) && AllClean(s, pushed)
    requires forall k :: 0 <= k < |i.type_.properties| ==> Queued(s, i, k, pushed)
    ensures i.type_.name in s.Names() && Clean(s, i.type_.name, i.visited)
  {
    var name := i.type_.name;
    forall next | next in s.Names() && s.Embeds(name, next)
      ensures next !in i.visited && (BudgetShrinks(s, name, i.visited, next); Clean(s, next, i.visited + {name}))
    {
      var o, p :| o in s.objects && o.name == name && p in o.properties && s.LinksTo(p, next);
      SameObject(s, o, i.type_);
      var k :| 0 <= k < |i.type_.properties| && i.type_.properties[k] == p;
      TargetComplete(s, p, next);
      assert Queued(s, i, k, pushed);
      var j :| j in pushed && j.type_ == s.objects[Target(s, p)] && j.visited == i.visited + {name};
      BudgetShrinks(s, name, i.visited, next);
    }
  }

  lemma SameObject(s: Schema, a: ObjectSchema, b: ObjectSchema)
    requires s.Valid() && a in s.objects && b in s.objects && a.name == b.name
    ensures a == b
  {
    var x :| 0 <= x < |s.objects| && s.objects[x] == a;
    var y :| 0 <= y < |s.objects| && s.objects[y] == b;
  }

  /** Look at the properties of one type: a type that was met before closes a cycle, any other
      embedded type is queued with the types met so far. */
  method LookAt(s: Schema, current: CheckObjectPath) returns (loop: string, pushed: seq<CheckObjectPath>)
    requires s.Valid() && ItemOf(s, current)
    ensures loop != "" ==> s.LeadsToCycle(current.type_.name)
    ensures loop == "" ==>
              && ItemsOf(s, pushed)
              && (forall i <- pushed :: s.Embeds(current.type_.name, i.type_.name))
              && TotalCost(s, pushed) + 1 == Cost(s, current.type_, current.visited)
              && forall k :: 0 <= k < |current.type_.properties| ==> Queued(s, current, k, pushed)
  {
    hide Queued, Cost, CostBelow, TotalCost, Budget;
    loop, pushed := "", [];
    var o := current.type_;
    NothingPushed(s, current);
    for k := 0 to |o.properties|
      invariant ItemsOf(s, pushed) && forall i <- pushed :: s.Embeds(o.name, i.type_.name)
      invariant TotalCost(s, pushed) == CostBelow(s, o, current.visited, k)
      invariant forall x :: 0 <= x < k ==> Queued(s, current, x, pushed)
    {
      var prop := o.properties[k];
      var it := Target(s, prop);
      if it < |s.objects| {
        assert s.Embeds(o.name, s.objects[it].name);
        var nextPath := current.path + "." + prop.name;
        if s.objects[it].name in current.visited {
          s.ClosesCycle(s.objects[it].name, o.name);
          return nextPath, pushed;
        }
        var visitedCopy := current.visited + {o.name};
        NextItem(s, current, s.objects[it], nextPath);
        Pushed(s, current, k, pushed, CheckObjectPath(s.objects[it], nextPath, visitedCopy));
        pushed := pushed + [CheckObjectPath(s.objects[it], nextPath, visitedCopy)];
      } else {
        NoTarget(s, current, k, pushed);
      }
    }
    CostUnfolded(s, current);
  }

  lemma NothingPushed(s: Schema, i: CheckObjectPath)
    requires ItemOf(s, i)
    ensures TotalCost(s, []) == CostBelow(s, i.type_, i.visited, 0)
  {
  }

  lemma CostUnfolded(s: Schema, i: CheckObjectPath)
    requires ItemOf(s, i)
    ensures Cost(s, i.type_, i.visited) == 1 + CostBelow(s, i.type_, i.visited, |i.type_.properties|)
  {
  }

  lemma NoTarget(s: Schema, i: CheckObjectPath, k: nat, pushed: seq<CheckObjectPath>)
    requires ItemOf(s, i) && k < |i.type_.properties| && Target(s, i.type_.properties[k]) == |s.objects|
    ensures CostBelow(s, i.type_, i.visited, k + 1) == CostBelow(s, i.type_, i.visited, k)
    ensures Queued(s, i, k, pushed)
  {
  }

  lemma Pushed(s: Schema, i: CheckObjectPath, k: nat, was: seq<CheckObjectPath>, item: CheckObjectPath)
    requires ItemOf(s, i) && ItemOf(s, item) && ItemsOf(s, was) && k < |i.type_.properties|
    requires var t := Target(s, i.type_.properties[k]);
             && t < |s.objects| && s.objects[t].name !in i.visited
             && item.type_ == s.objects[t] && item.visited == i.visited + {i.type_.name}
    requires TotalCost(s, was) == CostBelow(s, i.type_, i.visited, k)
    requires forall x :: 0 <= x < k ==> Queued(s, i, x, was)
    ensures ItemsOf(s, was + [item])
    ensures TotalCost(s, was + [item]) == CostBelow(s, i.type_, i.visited, k + 1)
    ensures forall x :: 0 <= x < k + 1 ==> Queued(s, i, x, was + [item])
  {
    hide Budget;
    var now := was + [item];
    assert now[..|now| - 1] == was;
    forall x | 0 <= x < k + 1 ensures Queued(s, i, x, now) {
      assert item in now && forall j <- was :: j in now;
      if x < k {
        assert Queued(s, i, x, was);
      }
    }
  }

  lemma NextItem(s: Schema, i: CheckObjectPath, o: ObjectSchema, path: string)
    requires ItemOf(s, i) && o in s.objects && s.Embeds(i.type_.name, o.name)
    ensures ItemOf(s, CheckObjectPath(o, path, i.visited + {i.type_.name}))
  {
    s.ReachesSelf(i.type_.name);
    forall v | v in i.visited + {i.type_.name} ensures s.Reaches(v, o.name) {
      s.ReachesStep(v, i.type_.name, o.name);
    }
  }

  /** One step of the queue: the cost drops, and clean followers make for a clean leader. */
  lemma Advanced(s: Schema, was: seq<CheckObjectPath>, current: CheckObjectPath, pushed: seq<CheckObjectPath>)
    requires s.Valid() && was != [] && was[0] == current && ItemOf(s, current) && ItemsOf(s, was) && ItemsOf(s, pushed)
    requires TotalCost(s, pushed) + 1 == Cost(s, current.type_, current.visited)
    requires forall k :: 0 <= k < |current.type_.properties| ==> Queued(s, current, k, pushed)
    ensures ItemsOf(s, was[1..] + pushed)
    ensures TotalCost(s, was[1..] + pushed) < TotalCost(s, was)
    ensures AllClean(s, was[1..] + pushed) ==> AllClean(s, was)
  {
    hide Clean, Cost, Queued;
    assert was == [current] + was[1..];
    assert ItemsOf(s, [current]) && ItemsOf(s, was[1..]);
    assert [current][..0] == [];
    TotalCostAppend(s, [current], was[1..]);
    TotalCostAppend(s, was[1..], pushed);
    if AllClean(s, was[1..] + pushed) {
      assert forall i <- pushed :: i in was[1..] + pushed;
      assert forall i <- was[1..] :: i in was[1..] + pushed;
      QueuedClean(s, current, pushed);
    }
  }

  /** The property path to the first cycle met from `start`, or nothing. */
  method DoCheck(s: Schema, start: ObjectSchema) returns (loop: string)
    requires s.Valid() && start in s.objects
    ensures loop != "" <==> s.LeadsToCycle(start.name)
  {
    hide Clean, Budget, Queued, Cost, Schema.LeadsToCycle, Schema.Reaches, Schema.Embeds;
    s.ReachesSelf(start.name);
    var toVisit := [CheckObjectPath(start, start.name, {start.name})];
    ghost var first := toVisit;
    while |toVisit| > 0
      invariant ItemsOf(s, toVisit) && ItemsOf(s, first)
      invariant forall i <- toVisit :: s.Reaches(start.name, i.type_.name)
      invariant AllClean(s, toVisit) ==> AllClean(s, first)
      decreases TotalCost(s, toVisit)
    {
      var current := toVisit[0];
      assert current in toVisit;
      var pushed: seq<CheckObjectPath>;
      loop, pushed := LookAt(s, current);
      if loop != "" {
        s.CycleBeyond(start.name, current.type_.name);
        return;
      }
      forall i | i in pushed ensures s.Reaches(start.name, i.type_.name) {
        s.ReachesStep(start.name, current.type_.name, i.type_.name);
      }
      Advanced(s, toVisit, current, pushed);
      toVisit := toVisit[1..] + pushed;
    }
    assert first[0] in first;
    CleanLeadsNowhere(s, start.name, {start.name});
    return "";
  }

  /** The embedded types among the first `k` from which a cycle can be reached. */
  ghost function Looping(s: Schema, k: nat): seq<string>
    requires k <= |s.objects|
  {
    if k == 0 then [] else
      var o := s.objects[k - 1];
      Looping(s, k - 1) + if o.isEmbedded && s.LeadsToCycle(o.name) then [o.name] else []
  }

  /** The loop errors of a schema: one for each embedded type that leads to a cycle, and so at least one
      exactly if its embedded types form a cycle. */
  method CheckForEmbeddedObjectsLoop(s: Schema) returns (errors: seq<string>)
    requires s.Valid()
    ensures |errors| == |Looping(s, |s.objects|)|
    ensures errors != [] <==> s.HasCycle()
  {
    hide Schema.LeadsToCycle, Schema.HasCycle;
    errors := [];
    for k := 0 to |s.objects|
      invariant |errors| == |Looping(s, k)|
    {
      var o := s.objects[k];
      if o.isEmbedded {
        var loop := DoCheck(s, o);
        if loop != "" {
          errors := errors + ["Cycles containing embedded objects are not currently supported: '" + loop + "'"];
        }
      }
    }
    LoopingIff(s);
  }

  lemma LoopingIff(s: Schema)
    requires s.Valid()
    ensures Looping(s, |s.objects|) != [] <==> s.HasCycle()
  {
    if s.HasCycle() {
      var walk :| s.IsCycle(walk);
      var last := |walk| - 1;
      assert s.Embeds(walk[last - 1], walk[last]);
      var o :| o in s.objects && o.name == walk[0] && o.isEmbedded;
      var x :| 0 <= x < |s.objects| && s.objects[x] == o;
      s.ReachesSelf(o.name);
      LoopingHas(s, |s.objects|, x);
    }
    if Looping(s, |s.objects|) != [] {
      LoopingCycle(s, |s.objects|);
    }
  }

  lemma {:induction false} LoopingHas(s: Schema, k: nat, x: nat)
    requires x < k <= |s.objects| && s.objects[x].isEmbedded && s.LeadsToCycle(s.objects[x].name)
    ensures Looping(s, k) != []
  {
    hide Schema.LeadsToCycle;
    if x < k - 1 {
      LoopingHas(s, k - 1, x);
    }
  }

  lemma {:induction false} LoopingCycle(s: Schema, k: nat)
    requires k <= |s.objects| && Looping(s, k) != []
    ensures s.HasCycle()
  {
    hide Schema.LeadsToCycle, Schema.HasCycle;
    if s.LeadsToCycle(s.objects[k - 1].name) {
      s.ThereIsOne(s.objects[k - 1].name);
    } else {
      LoopingCycle(s, k - 1);
    }
  }
}
