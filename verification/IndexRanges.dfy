/**
 What an index set stores: ranges, sorted and never adjacent, in chunks of bounded size that
 cache where they begin and end and how many indices they hold.
 */
module IndexRanges {
  import opened IndexAlgebra

  const MAX_SIZE: nat := 256

  datatype Range = Range(first: nat, second: nat)

  datatype Chunk = Chunk(data: seq<Range>, begin: nat, end: nat, count: int)

  /** Where an iterator stands: a chunk and an offset into it. */
  datatype Pos = Pos(outer: nat, inner: nat)

  // ---------------------------------------------------------------------------
  // Ranges

  ghost predicate Covered(rs: seq<Range>, x: int) {
    exists k :: 0 <= k < |rs| && rs[k].first <= x < rs[k].second
  }

  ghost function Indices(rs: seq<Range>): (s: set<nat>)
    ensures forall x :: x in s <==> Covered(rs, x)
  {
    if rs == [] then {} else
      var n := |rs| - 1;
      CoveredConcat(rs[..n], [rs[n]]);
      assert rs[..n] + [rs[n]] == rs;
      assert forall x :: Covered([rs[n]], x) <==> [rs[n]][0].first <= x < [rs[n]][0].second;
      Indices(rs[..n]) + Interval(rs[n].first, rs[n].second)
  }

  lemma CoveredConcat(a: seq<Range>, b: seq<Range>)
    ensures forall x :: Covered(a + b, x) <==> Covered(a, x) || Covered(b, x)
  {
    forall x ensures Covered(a + b, x) <==> Covered(a, x) || Covered(b, x) {
      if Covered(a, x) {
        var k :| 0 <= k < |a| && a[k].first <= x < a[k].second;
        assert (a + b)[k] == a[k];
      }
      if Covered(b, x) {
        var k :| 0 <= k < |b| && b[k].first <= x < b[k].second;
        assert (a + b)[|a| + k] == b[k];
      }
    }
  }

  /** Nothing empty, in order, and never adjacent. */
  ghost predicate Sorted(rs: seq<Range>) {
    && (forall k :: 0 <= k < |rs| ==> rs[k].first < rs[k].second)
    && forall j, k :: 0 <= j < k < |rs| ==> rs[j].second < rs[k].first
  }

  function Length(r: Range): int {
    r.second - r.first
  }

  function Total(rs: seq<Range>): int {
    if rs == [] then 0 else Total(rs[..|rs| - 1]) + Length(rs[|rs| - 1])
  }

  lemma {:induction false} TotalConcat(a: seq<Range>, b: seq<Range>)
    ensures Total(a + b) == Total(a) + Total(b)
  {
    if b == [] {
      assert a + b == a;
    } else {
      var n := |b| - 1;
      TotalConcat(a, b[..n]);
      assert (a + b)[..|a + b| - 1] == a + b[..n];
    }
  }

  lemma TotalUpdate(rs: seq<Range>, k: nat, v: Range)
    requires k < |rs|
    ensures Total(rs[k := v]) == Total(rs) - Length(rs[k]) + Length(v)
  {
    TotalConcat(rs[..k], [v]);
    TotalConcat(rs[..k] + [v], rs[k + 1..]);
    TotalConcat(rs[..k], [rs[k]]);
    TotalConcat(rs[..k] + [rs[k]], rs[k + 1..]);
    assert rs[k := v] == rs[..k] + [v] + rs[k + 1..];
    assert rs == rs[..k] + [rs[k]] + rs[k + 1..];
  }

  lemma TotalInsert(rs: seq<Range>, k: nat, v: Range)
    requires k <= |rs|
    ensures Total(rs[..k] + [v] + rs[k..]) == Total(rs) + Length(v)
  {
    TotalConcat(rs[..k], [v]);
    TotalConcat(rs[..k] + [v], rs[k..]);
    TotalConcat(rs[..k], rs[k..]);
    assert rs == rs[..k] + rs[k..];
  }

  lemma TotalRemove(rs: seq<Range>, k: nat)
    requires k < |rs|
    ensures Total(rs[..k] + rs[k + 1..]) == Total(rs) - Length(rs[k])
  {
    var a, r, b := rs[..k], rs[k], rs[k + 1..];
    TotalOne(r);
    hide Total;
    TotalConcat(a, b);
    TotalConcat(a, [r]);
    TotalConcat(a + [r], b);
    Middle(rs, k);
  }

  lemma TotalOne(r: Range)
    ensures Total([r]) == Length(r)
  {
    assert [r][..0] == [];
  }

  lemma Middle<T>(s: seq<T>, k: nat)
    requires k < |s|
    ensures s == s[..k] + [s[k]] + s[k + 1..]
  {
  }

  lemma WithoutMiddle<T>(a: seq<T>, v: T, b: seq<T>)
    ensures (a + [v] + b)[..|a|] == a && (a + [v] + b)[|a| + 1..] == b && a + [] + b == a + b
  {
  }

  lemma {:induction false} TotalPositive(rs: seq<Range>)
    requires Sorted(rs)
    ensures Total(rs) >= 0 && (rs != [] ==> Total(rs) > 0)
  {
    if rs != [] {
      TotalPositive(rs[..|rs| - 1]);
    }
  }

  lemma IndicesConcat(a: seq<Range>, b: seq<Range>)
    ensures Indices(a + b) == Indices(a) + Indices(b)
  {
    hide Indices, Covered;
    CoveredConcat(a, b);
  }

  /** Counting members below a bound that no range straddles. */
  lemma {:induction false} CountRanges(rs: seq<Range>, n: nat)
    requires Sorted(rs) && forall k :: 0 <= k < |rs| ==> rs[k].second <= n
    ensures CountBelow(Indices(rs), n) == Total(rs)
  {
    hide CountBelow, Covered;
    if rs == [] {
      CountNone(Indices(rs), n);
    } else {
      LastRange(rs);
      hide Indices, Total;
      var m := |rs| - 1;
      var a, b := Indices(rs[..m]), Interval(rs[m].first, rs[m].second);
      CountRanges(rs[..m], n);
      CountInterval(rs[m].first, rs[m].second, n);
      BelowAll(rs[..m], rs[m].first);
      CountUnion(a, b, n);
    }
  }

  lemma LastRange(rs: seq<Range>)
    requires rs != []
    ensures Indices(rs) == Indices(rs[..|rs| - 1]) + Interval(rs[|rs| - 1].first, rs[|rs| - 1].second)
    ensures Total(rs) == Total(rs[..|rs| - 1]) + Length(rs[|rs| - 1])
  {
  }

  lemma {:induction false} CountNone(s: set<nat>, n: nat)
    requires forall x <- s :: x >= n
    ensures CountBelow(s, n) == 0
  {
    if n > 0 {
      CountNone(s, n - 1);
    }
  }

  lemma {:induction false} CountUnion(a: set<nat>, b: set<nat>, n: nat)
    requires a !! b
    ensures CountBelow(a + b, n) == CountBelow(a, n) + CountBelow(b, n)
  {
    if n > 0 {
      CountUnion(a, b, n - 1);
    }
  }

  /** The members below `n` when the first `k` ranges end by `n` and the others begin there or later. */
  lemma CountPrefix(rs: seq<Range>, k: nat, n: nat)
    requires Sorted(rs) && k <= |rs|
    requires k > 0 ==> rs[k - 1].second <= n
    requires k < |rs| ==> n <= rs[k].first
    ensures CountBelow(Indices(rs), n) == Total(rs[..k])
  {
    hide Indices, Total, CountBelow, Covered;
    var low, high := rs[..k], rs[k..];
    SplitRanges(rs, k);
    BelowAll(low, n);
    AboveAll(high, n);
    CountRanges(low, n);
    CountNone(Indices(high), n);
    CountUnion(Indices(low), Indices(high), n);
  }

  lemma SortedParts(rs: seq<Range>, k: nat)
    requires Sorted(rs) && k <= |rs|
    ensures Sorted(rs[..k]) && Sorted(rs[k..])
    ensures k > 0 ==> forall i :: 0 <= i < k ==> rs[..k][i].second <= rs[k - 1].second
    ensures k < |rs| ==> forall i :: 0 <= i < |rs[k..]| ==> rs[k..][i].first >= rs[k].first
  {
  }

  lemma SplitRanges(rs: seq<Range>, k: nat)
    requires Sorted(rs) && k <= |rs|
    ensures Sorted(rs[..k]) && Sorted(rs[k..]) && Indices(rs) == Indices(rs[..k]) + Indices(rs[k..])
    ensures k > 0 ==> forall i :: 0 <= i < k ==> rs[..k][i].second <= rs[k - 1].second
    ensures k < |rs| ==> forall i :: 0 <= i < |rs[k..]| ==> rs[k..][i].first >= rs[k].first
  {
    hide Indices, Covered, Sorted;
    SortedParts(rs, k);
    assert rs == rs[..k] + rs[k..];
    IndicesConcat(rs[..k], rs[k..]);
  }

  lemma BelowAll(rs: seq<Range>, n: nat)
    requires forall i :: 0 <= i < |rs| ==> rs[i].second <= n
    ensures forall x <- Indices(rs) :: x < n
  {
  }

  lemma AboveAll(rs: seq<Range>, n: nat)
    requires forall i :: 0 <= i < |rs| ==> rs[i].first >= n
    ensures forall x <- Indices(rs) :: x >= n
  {
  }

  /** ... and when the `k`-th range straddles `n`. */
  lemma CountPartial(rs: seq<Range>, k: nat, n: nat)
    requires Sorted(rs) && k < |rs| && rs[k].first <= n <= rs[k].second
    ensures CountBelow(Indices(rs), n) == Total(rs[..k]) + n - rs[k].first
  {
    CountPrefix(rs, k, rs[k].first);
    CountRun(Indices(rs), rs[k].first, n);
  }

  lemma {:induction false} CountRun(s: set<nat>, lo: nat, hi: nat)
    requires lo <= hi && forall x :: lo <= x < hi ==> x in s
    ensures CountBelow(s, hi) == CountBelow(s, lo) + hi - lo
  {
    if lo < hi {
      CountRun(s, lo, hi - 1);
    }
  }

  /** A position between the ranges is not a member. */
  lemma NotCovered(rs: seq<Range>, k: nat, x: nat)
    requires Sorted(rs) && k <= |rs|
    requires k > 0 ==> rs[k - 1].second <= x
    requires k < |rs| ==> x < rs[k].first
    ensures !Covered(rs, x)
  {
  }

  // ---------------------------------------------------------------------------
  // Chunks

  function Flat(d: seq<Chunk>): seq<Range> {
    if d == [] then [] else Flat(d[..|d| - 1]) + d[|d| - 1].data
  }

  lemma {:induction false} FlatConcat(a: seq<Chunk>, b: seq<Chunk>)
    ensures Flat(a + b) == Flat(a) + Flat(b)
  {
    if b == [] {
      assert a + b == a;
    } else {
      var n := |b| - 1;
      FlatConcat(a, b[..n]);
      assert (a + b)[..|a + b| - 1] == a + b[..n];
      assert Flat(a + b) == Flat(a + b[..n]) + b[n].data;
      assert Flat(b) == Flat(b[..n]) + b[n].data;
    }
  }

  ghost predicate ChunkOk(c: Chunk) {
    && 0 < |c.data| <= MAX_SIZE
    && c.begin == c.data[0].first
    && c.end == c.data[|c.data| - 1].second
    && c.count == Total(c.data)
  }

  ghost predicate ChunksOk(d: seq<Chunk>) {
    forall o :: 0 <= o < |d| ==> ChunkOk(d[o])
  }

  function Lens(d: seq<Chunk>): (l: seq<nat>)
    ensures |l| == |d| && forall o :: 0 <= o < |d| ==> l[o] == |d[o].data|
  {
    seq(|d|, o requires 0 <= o < |d| => |d[o].data|)
  }

  function Start(lens: seq<nat>, o: nat): nat
    requires o <= |lens|
  {
    if o == 0 then 0 else Start(lens, o - 1) + lens[o - 1]
  }

  ghost predicate Filled(lens: seq<nat>) {
    forall o :: 0 <= o < |lens| ==> lens[o] > 0
  }

  /** A range, or the end. */
  ghost predicate ValidPos(lens: seq<nat>, p: Pos) {
    p == Pos(|lens|, 0) || (p.outer < |lens| && p.inner < lens[p.outer])
  }

  /** The number of ranges before a position. */
  ghost function Index(lens: seq<nat>, p: Pos): nat
    requires p.outer <= |lens|
  {
    Start(lens, p.outer) + p.inner
  }

  lemma {:induction false} StartPrefix(d: seq<Chunk>, o: nat)
    requires o <= |d|
    ensures |Flat(d[..o])| == Start(Lens(d), o)
  {
    if o > 0 {
      StartPrefix(d, o - 1);
      assert d[..o][..o - 1] == d[..o - 1];
    }
  }

  lemma FlatSplit(d: seq<Chunk>, o: nat)
    requires o < |d|
    ensures Flat(d) == Flat(d[..o]) + d[o].data + Flat(d[o + 1..])
    ensures |Flat(d[..o])| == Start(Lens(d), o)
  {
    hide Flat, Start;
    var a, c, b := d[..o], d[o], d[o + 1..];
    StartPrefix(d, o);
    FlatOne(c);
    assert d == a + [c] + b;
    FlatConcat(a + [c], b);
    FlatConcat(a, [c]);
  }

  lemma FlatOne(c: Chunk)
    ensures Flat([c]) == c.data
  {
    assert [c][..0] == [];
  }

  /** Putting other chunks in the place of one. */
  lemma FlatReplace(d: seq<Chunk>, o: nat, cs: seq<Chunk>)
    requires o < |d|
    ensures Flat(d[..o] + cs + d[o + 1..]) == Flat(d[..o]) + Flat(cs) + Flat(d[o + 1..])
  {
    FlatConcat(d[..o] + cs, d[o + 1..]);
    FlatConcat(d[..o], cs);
  }

  lemma {:induction false} StartMonotone(lens: seq<nat>, a: nat, b: nat)
    requires a <= b <= |lens| && Filled(lens)
    ensures Start(lens, a) <= Start(lens, b)
    ensures a < b ==> Start(lens, a) + lens[a] <= Start(lens, b)
    decreases b - a
  {
    if a < b {
      StartMonotone(lens, a + 1, b);
    }
  }

  /** Positions that agree on the chunks before them have the same index. */
  lemma {:induction false} StartAgrees(lens: seq<nat>, lens': seq<nat>, o: nat)
    requires o <= |lens| && o <= |lens'| && lens[..o] == lens'[..o]
    ensures Start(lens, o) == Start(lens', o)
  {
    if o > 0 {
      assert lens[..o - 1] == lens[..o][..o - 1] == lens'[..o - 1];
      assert lens[o - 1] == lens[..o][o - 1] == lens'[o - 1];
      StartAgrees(lens, lens', o - 1);
    }
  }

  /** What a position refers to, and which positions are the first and the end. */
  lemma At(d: seq<Chunk>, p: Pos)
    requires Filled(Lens(d)) && ValidPos(Lens(d), p)
    ensures Index(Lens(d), p) <= |Flat(d)|
    ensures p.outer == |d| <==> Index(Lens(d), p) == |Flat(d)|
    ensures p == Pos(0, 0) <==> Index(Lens(d), p) == 0
    ensures p.outer < |d| ==> Flat(d)[Index(Lens(d), p)] == d[p.outer].data[p.inner]
  {
    StartPrefix(d, |d|);
    assert d[..|d|] == d;
    StartMonotone(Lens(d), 0, p.outer);
    if p.outer < |d| {
      FlatSplit(d, p.outer);
    }
  }

  // ---------------------------------------------------------------------------
  // Editing one chunk is editing the ranges

  lemma Around<T>(a: seq<T>, x: seq<T>, b: seq<T>, i: nat)
    requires i <= |x|
    ensures (a + x + b)[..|a| + i] == a + x[..i]
    ensures (a + x + b)[|a| + i..] == x[i..] + b
  {
  }

  lemma UpdateAround<T>(a: seq<T>, x: seq<T>, b: seq<T>, i: nat, v: T)
    requires i < |x|
    ensures (a + x + b)[|a| + i := v] == a + x[i := v] + b
  {
  }

  lemma Within<T>(a: seq<T>, x: seq<T>, b: seq<T>)
    ensures forall i :: 0 <= i < |x| ==> (a + x + b)[|a| + i] == x[i]
  {
  }

  lemma Regroup<T>(a: seq<T>, x: seq<T>, y: seq<T>, b: seq<T>)
    ensures a + (x + y) + b == (a + x) + (y + b)
  {
  }

  lemma StartNext(lens: seq<nat>, o: nat)
    requires o < |lens|
    ensures Start(lens, o + 1) == Start(lens, o) + lens[o]
  {
  }

  lemma Update<T>(s: seq<T>, o: nat, v: T)
    requires o < |s|
    ensures s[o := v] == s[..o] + [v] + s[o + 1..]
  {
  }

  lemma Replaced(d: seq<Chunk>, p: Pos, c: Chunk, v: Range)
    requires p.outer < |d| && p.inner < |d[p.outer].data| && c.data == d[p.outer].data[p.inner := v]
    ensures Lens(d[p.outer := c]) == Lens(d)
    ensures Index(Lens(d), p) < |Flat(d)| && Flat(d[p.outer := c]) == Flat(d)[Index(Lens(d), p) := v]
  {
    hide Flat, Start;
    var o := p.outer;
    var a, b, x := Flat(d[..o]), Flat(d[o + 1..]), d[o].data;
    FlatSplit(d, o);
    Swapped(d, o, [c]);
    FlatOne(c);
    Update(d, o, c);
    UpdateAround(a, x, b, p.inner, v);
  }

  /** Putting other chunks in the place of one: what it makes of the ranges and of the positions. */
  lemma Swapped(d: seq<Chunk>, o: nat, cs: seq<Chunk>)
    requires o < |d|
    ensures var d' := d[..o] + cs + d[o + 1..];
            && Flat(d') == Flat(d[..o]) + Flat(cs) + Flat(d[o + 1..])
            && Start(Lens(d'), o) == Start(Lens(d), o)
            && Lens(d') == Lens(d)[..o] + Lens(cs) + Lens(d)[o + 1..]
  {
    hide Flat, Start;
    var d' := d[..o] + cs + d[o + 1..];
    FlatReplace(d, o, cs);
    assert Lens(d') == Lens(d)[..o] + Lens(cs) + Lens(d)[o + 1..];
    assert Lens(d')[..o] == Lens(d)[..o];
    StartAgrees(Lens(d), Lens(d'), o);
  }

  lemma Inserted(d: seq<Chunk>, p: Pos, c: Chunk, v: Range)
    requires p.outer < |d| && p.inner <= |d[p.outer].data|
    requires c.data == d[p.outer].data[..p.inner] + [v] + d[p.outer].data[p.inner..]
    ensures var k, d' := Index(Lens(d), p), d[p.outer := c];
            && k <= |Flat(d)| && Flat(d') == Flat(d)[..k] + [v] + Flat(d)[k..]
            && ValidPos(Lens(d'), p) && Index(Lens(d'), p) == k
  {
    hide Flat, Start;
    var o := p.outer;
    var a, b, x := Flat(d[..o]), Flat(d[o + 1..]), d[o].data;
    FlatSplit(d, o);
    Swapped(d, o, [c]);
    FlatOne(c);
    Update(d, o, c);
    Around(a, x, b, p.inner);
  }

  lemma Removed(d: seq<Chunk>, p: Pos, c: Chunk)
    requires p.outer < |d| && p.inner < |d[p.outer].data|
    requires c.data == d[p.outer].data[..p.inner] + d[p.outer].data[p.inner + 1..]
    ensures var k, d' := Index(Lens(d), p), d[p.outer := c];
            && k < |Flat(d)| && Flat(d') == Flat(d)[..k] + Flat(d)[k + 1..]
            && Lens(d')[p.outer] == |c.data| && Index(Lens(d'), p) == k
            && (p.inner == |c.data| ==> Index(Lens(d'), Pos(p.outer + 1, 0)) == k)
  {
    var o := p.outer;
    hide Flat, Start;
    StartNext(Lens(d[o := c]), o);
    var a, b, x := Flat(d[..o]), Flat(d[o + 1..]), d[o].data;
    FlatSplit(d, o);
    Swapped(d, o, [c]);
    FlatOne(c);
    Update(d, o, c);
    Around(a, x, b, p.inner);
    Around(a, x, b, p.inner + 1);
    Regroup(a, x[..p.inner], x[p.inner + 1..], b);
  }

  lemma ChunkRemoved(d: seq<Chunk>, o: nat)
    requires o < |d| && |d[o].data| == 1
    ensures var k, d' := Index(Lens(d), Pos(o, 0)), d[..o] + d[o + 1..];
            && k < |Flat(d)| && Flat(d') == Flat(d)[..k] + Flat(d)[k + 1..]
            && Index(Lens(d'), Pos(o, 0)) == k
  {
    hide Flat, Start;
    var a, c, b := d[..o], d[o], d[o + 1..];
    FlatSplit(d, o);
    Swapped(d, o, []);
    FlatNone();
    WithoutMiddle(a, c, b);
    assert c.data == [c.data[0]];
    WithoutMiddle(Flat(a), c.data[0], Flat(b));
  }

  lemma FlatNone()
    ensures Flat([]) == []
  {
  }

  lemma ChunkSplit(d: seq<Chunk>, o: nat, c: Chunk, c': Chunk)
    requires o < |d| && c.data + c'.data == d[o].data
    ensures var d' := d[..o] + [c, c'] + d[o + 1..];
            && Flat(d') == Flat(d)
            && Start(Lens(d'), o) == Start(Lens(d), o) && Start(Lens(d'), o + 1) == Start(Lens(d), o) + |c.data|
  {
    var d' := d[..o] + [c, c'] + d[o + 1..];
    assert Start(Lens(d'), o + 1) == Start(Lens(d'), o) + |c.data|;
    hide Flat, Start;
    FlatSplit(d, o);
    Swapped(d, o, [c, c']);
    FlatOne(c);
    FlatOne(c');
    FlatConcat([c], [c']);
    assert [c] + [c'] == [c, c'];
  }

  /** Where a position goes when its chunk is split. */
  lemma PosAfterSplit(d: seq<Chunk>, p: Pos, c: Chunk, c': Chunk)
    requires p.outer < |d| && p.inner < |d[p.outer].data| && c.data + c'.data == d[p.outer].data
    ensures var d' := d[..p.outer] + [c, c'] + d[p.outer + 1..];
            var q := if p.inner >= |c.data| then Pos(p.outer + 1, p.inner - |c.data|) else p;
            && q.outer < |d'| && d'[q.outer] == (if p.inner >= |c.data| then c' else c)
            && ValidPos(Lens(d'), q) && Index(Lens(d'), q) == Index(Lens(d), p)
  {
    hide Start;
    ChunkSplit(d, p.outer, c, c');
  }

  lemma ChunksSwapped(d: seq<Chunk>, o: nat, cs: seq<Chunk>)
    requires o < |d| && ChunksOk(d) && forall c <- cs :: ChunkOk(c)
    ensures ChunksOk(d[..o] + cs + d[o + 1..])
  {
    hide ChunkOk;
  }

  lemma Appended(d: seq<Chunk>, c: Chunk)
    ensures Flat(d + [c]) == Flat(d) + c.data
  {
    hide Flat;
    FlatConcat(d, [c]);
    FlatOne(c);
  }
}
