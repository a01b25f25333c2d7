/**
 A set of indices as a vector of chunks of ranges, changed in place through iterators.

 Every operation is specified by what it does to the set; that the chunks stay in order, within
 their size and with exact caches is part of `Valid`.
 */
module IndexSets {
  import opened IndexAlgebra
  import opened IndexRanges
  import opened RangeEdits
  import opened BulkEdits
  import IndexBuilding
  import opened TailCounts
  import opened Wrappers

  /** Where an iterator over single indices stands. */
  datatype Cursor = Cursor(pos: Pos, offset: nat)

  class IndexSet {
    var data: seq<Chunk>

    ghost function Ranges(): seq<Range>
      reads this
    {
      Flat(data)
    }

    /** Every chunk within its size and its caches exact. */
    ghost predicate Kept()
      reads this
    {
      ChunksOk(data)
    }

    ghost predicate Valid()
      reads this
    {
      Kept() && Sorted(Ranges())
    }

    ghost function Members(): set<nat>
      reads this
    {
      Indices(Ranges())
    }

    /** `p` is a position: a range or the end. */
    ghost predicate Here(p: Pos)
      reads this
    {
      ValidPos(Lens(data), p)
    }

    /** How many ranges come before a position. */
    ghost function Rank(p: Pos): nat
      reads this
      requires p.outer <= |data|
    {
      Index(Lens(data), p)
    }

    constructor ()
      ensures Valid() && data == [] && Members() == {}
    {
      data := [];
    }

    constructor Copy(other: IndexSet)
      ensures Members() == other.Members() && (other.Valid() ==> Valid())
    {
      data := other.data;
    }

    /** Move the contents of another set here. */
    method Take(other: IndexSet)
      requires other != this && other.Valid()
      modifies this, other
      ensures Valid() && Members() == old(other.Members())
      ensures other.Valid() && other.Members() == {}
    {
      data, other.data := other.data, [];
    }

    // -------------------------------------------------------------------------
    // Iterators

    function Begin(): (p: Pos)
      reads this
      requires Kept()
      ensures Here(p) && Rank(p) == 0
    {
      Pos(0, 0)
    }

    function End(): (p: Pos)
      reads this
      requires Kept()
      ensures Here(p) && Rank(p) == |Ranges()|
    {
      At(data, Pos(|data|, 0));
      Pos(|data|, 0)
    }

    function Get(p: Pos): (r: Range)
      reads this
      requires Kept() && Here(p) && p != End()
      ensures Rank(p) < |Ranges()| && r == Ranges()[Rank(p)]
    {
      At(data, p);
      data[p.outer].data[p.inner]
    }

    function NextChunk(p: Pos): (q: Pos)
      reads this
      requires Kept() && Here(p) && p != End()
      ensures Here(q) && Rank(q) == Rank(Pos(p.outer, 0)) + |data[p.outer].data|
    {
      StartNext(Lens(data), p.outer);
      Pos(p.outer + 1, 0)
    }

    function Next(p: Pos): (q: Pos)
      reads this
      requires Kept() && Here(p) && p != End()
      ensures Here(q) && Rank(q) == Rank(p) + 1
    {
      if p.inner + 1 == |data[p.outer].data| then NextChunk(p) else Pos(p.outer, p.inner + 1)
    }

    function Prev(p: Pos): (q: Pos)
      reads this
      requires Kept() && Here(p) && p != Begin()
      ensures Here(q) && q != End() && Rank(q) == Rank(p) - 1
    {
      if p.inner == 0 then
        StartNext(Lens(data), p.outer - 1);
        Pos(p.outer - 1, |data[p.outer - 1].data| - 1)
      else
        Pos(p.outer, p.inner - 1)
    }

    /** A position is the end, or the beginning, exactly when its rank says so. */
    lemma RankDecides(p: Pos)
      requires Kept() && Here(p)
      ensures Rank(p) <= |Ranges()|
      ensures p == End() <==> Rank(p) == |Ranges()|
      ensures p == Begin() <==> Rank(p) == 0
    {
      At(data, p);
    }

    // -------------------------------------------------------------------------
    // Changing a range through an iterator

    method SetRange(p: Pos, front: nat, back: nat)
      requires Kept() && Here(p) && p != End()
      modifies this
      ensures Kept() && Lens(data) == old(Lens(data))
      ensures Rank(p) < old(|Ranges()|) && Ranges() == old(Ranges())[Rank(p) := Range(front, back)]
    {
      hide Total, Flat, Start;
      var c, r := data[p.outer], data[p.outer].data[p.inner];
      var count := c.count - (r.second - r.first);
      var begin := if p.inner == 0 then front else c.begin;
      var end := if p.inner == |c.data| - 1 then back else c.end;
      var now := Chunk(c.data[p.inner := Range(front, back)], begin, end, count + (back - front));
      TotalUpdate(c.data, p.inner, Range(front, back));
      Replaced(data, p, now, Range(front, back));
      data := data[p.outer := now];
    }

    method Adjust(p: Pos, front: int, back: int)
      requires Kept() && Here(p) && p != End()
      requires Get(p).first + front >= 0 && Get(p).second + back >= 0
      modifies this
      ensures Kept() && Lens(data) == old(Lens(data))
      ensures Rank(p) < old(|Ranges()|)
      ensures Ranges() == old(Ranges())[Rank(p) := Range(old(Get(p)).first + front, old(Get(p)).second + back)]
    {
      hide Total, Flat, Start;
      var c, r := data[p.outer], data[p.outer].data[p.inner];
      var begin := if p.inner == 0 then c.begin + front else c.begin;
      var end := if p.inner == |c.data| - 1 then c.end + back else c.end;
      var v := Range(r.first + front, r.second + back);
      var now := Chunk(c.data[p.inner := v], begin, end, c.count + (-front + back));
      TotalUpdate(c.data, p.inner, v);
      Replaced(data, p, now, v);
      data := data[p.outer := now];
    }

    method ShiftBy(p: Pos, distance: int)
      requires Kept() && Here(p) && p != End()
      requires Get(p).first + distance >= 0 && Get(p).second + distance >= 0
      modifies this
      ensures Kept() && Lens(data) == old(Lens(data))
      ensures Rank(p) < old(|Ranges()|)
      ensures Ranges() == old(Ranges())[Rank(p) := Range(old(Get(p)).first + distance, old(Get(p)).second + distance)]
    {
      hide Total, Flat, Start;
      var c, r := data[p.outer], data[p.outer].data[p.inner];
      var begin := if p.inner == 0 then c.begin + distance else c.begin;
      var end := if p.inner == |c.data| - 1 then c.end + distance else c.end;
      var v := Range(r.first + distance, r.second + distance);
      var now := Chunk(c.data[p.inner := v], begin, end, c.count);
      TotalUpdate(c.data, p.inner, v);
      Replaced(data, p, now, v);
      data := data[p.outer := now];
    }

    // -------------------------------------------------------------------------
    // The vector

    method PushBack(v: Range)
      requires Kept() && (data != [] ==> data[|data| - 1].end <= v.first)
      modifies this
      ensures Kept() && Ranges() == old(Ranges()) + [v] && data != []
    {
      hide Flat;
      if data != [] && |data[|data| - 1].data| < MAX_SIZE {
        var o := |data| - 1;
        var c := data[o];
        var now := Chunk(c.data + [v], c.begin, v.second, c.count + (v.second - v.first));
        TotalConcat(c.data, [v]);
        Appended(data[..o], c);
        Appended(data[..o], now);
        assert data == data[..o] + [c];
        data := data[o := now];
        assert data == data[..o] + [now];
      } else {
        var now := Chunk([v], v.first, v.second, v.second - v.first);
        Appended(data, now);
        TotalConcat([], [v]);
        data := data + [now];
      }
    }

    static method Measure(rs: seq<Range>) returns (count: int)
      ensures count == Total(rs)
    {
      count := 0;
      for k := 0 to |rs|
        invariant count == Total(rs[..k])
      {
        assert rs[..k + 1] == rs[..k] + [rs[k]];
        count := count + (rs[k].second - rs[k].first);
      }
      assert rs[..|rs|] == rs;
    }

    static method Halve(c: Chunk) returns (low: Chunk, high: Chunk)
      requires ChunkOk(c) && |c.data| == MAX_SIZE
      ensures ChunkOk(low) && ChunkOk(high) && low.data + high.data == c.data && |low.data| == MAX_SIZE / 2
    {
      hide Total;
      var toMove := MAX_SIZE / 2;
      var high' := c.data[|c.data| - toMove..];
      var low' := c.data[..|c.data| - toMove];
      var moved := Measure(high');
      TotalConcat(low', high');
      assert low' + high' == c.data;
      low := Chunk(low', c.begin, low'[|low'| - 1].second, c.count - moved);
      high := Chunk(high', high'[0].first, high'[|high'| - 1].second, moved);
    }

    /** Split a full chunk in half. */
    method EnsureSpace(p: Pos) returns (q: Pos)
      requires Kept() && Here(p) && p != End()
      modifies this
      ensures Kept() && Ranges() == old(Ranges())
      ensures Here(q) && q != End() && |data[q.outer].data| < MAX_SIZE && Rank(q) == old(Rank(p))
    {
      hide Flat, Start, Total, Index, ValidPos, ChunksOk, ChunkOk, Lens;
      InData(p);
      if |data[p.outer].data| + 1 <= MAX_SIZE {
        return p;
      }
      var prev, next := Halve(data[p.outer]);
      ChunkSplit(data, p.outer, prev, next);
      PosAfterSplit(data, p, prev, next);
      ChunksSwapped(data, p.outer, [prev, next]);
      data := data[..p.outer] + [prev, next] + data[p.outer + 1..];
      q := if p.inner >= MAX_SIZE / 2 then Pos(p.outer + 1, p.inner - MAX_SIZE / 2) else p;
    }

    lemma InData(p: Pos)
      requires Kept() && Here(p) && p != End()
      ensures p.outer < |data| && p.inner < |data[p.outer].data| <= MAX_SIZE && ChunkOk(data[p.outer])
    {
    }

    method Insert(p: Pos, v: Range) returns (q: Pos)
      requires Kept() && Here(p)
      requires Between(Ranges(), Rank(p), v)
      modifies this
      ensures Kept() && Ranges() == old(Ranges()[..Rank(p)] + [v] + Ranges()[Rank(p)..])
      ensures Here(q) && Rank(q) == old(Rank(p)) && q != End()
    {
      hide Flat, Start, Total;
      ghost var rs, k := Ranges(), Rank(p);
      RankDecides(p);
      if p.outer == |data| {
        assert rs[..k] + [v] + rs[k..] == rs + [v];
        PushedInOrder(v);
        PushBack(v);
        q := Prev(End());
        return;
      }
      q := EnsureSpace(p);
      var c := data[q.outer];
      InsertedInOrder(q, v);
      var now := Chunk(c.data[..q.inner] + [v] + c.data[q.inner..],
                       if c.begin <= v.first then c.begin else v.first,
                       if c.end >= v.second then c.end else v.second,
                       c.count + (v.second - v.first));
      TotalInsert(c.data, q.inner, v);
      IndexRanges.Inserted(data, q, now, v);
      data := data[q.outer := now];
    }

    lemma PushedInOrder(v: Range)
      requires Kept() && Between(Ranges(), |Ranges()|, v)
      ensures data != [] ==> data[|data| - 1].end <= v.first
    {
      if data != [] {
        var p := Prev(End());
        var r := Get(p);
      }
    }

    /** The first and the last range of a chunk on the proper side of what goes in between. */
    lemma InsertedInOrder(q: Pos, v: Range)
      requires Kept() && Here(q) && q != End()
      requires Between(Ranges(), Rank(q), v)
      ensures if q.inner == 0 then v.first <= data[q.outer].begin else data[q.outer].begin <= v.first
      ensures v.second <= data[q.outer].end
    {
      var c := data[q.outer];
      var front, back := Pos(q.outer, 0), Pos(q.outer, |c.data| - 1);
      assert Get(front) == c.data[0] && Get(back) == c.data[|c.data| - 1];
    }

    method Erase(p: Pos) returns (q: Pos)
      requires Kept() && Here(p) && p != End()
      modifies this
      ensures Kept() && Here(q) && Rank(q) == old(Rank(p)) < old(|Ranges()|)
      ensures Ranges() == old(Ranges()[..Rank(p)] + Ranges()[Rank(p) + 1..])
    {
      hide Flat, Start, Total;
      RankDecides(p);
      var c := data[p.outer];
      var r := c.data[p.inner];
      var rest := c.data[..p.inner] + c.data[p.inner + 1..];
      if |rest| == 0 {
        ChunkRemoved(data, p.outer);
        data := data[..p.outer] + data[p.outer + 1..];
        return p;
      }
      var now := Chunk(rest, rest[0].first, rest[|rest| - 1].second, c.count - (r.second - r.first));
      TotalRemove(c.data, p.inner);
      Removed(data, p, now);
      data := data[p.outer := now];
      q := if p.inner < |rest| then p else Pos(p.outer + 1, 0);
    }

    /** Put two ranges in the place of one. */
    method Split(it: Pos, low: Range, high: Range) returns (q: Pos)
      requires Kept() && Here(it) && it != End() && Rank(it) < |Ranges()|
      requires Between(Ranges()[Rank(it) := low], Rank(it) + 1, high)
      modifies this
      ensures Kept()
      ensures var now, k := old(Ranges())[old(Rank(it)) := low], old(Rank(it));
              Ranges() == now[..k + 1] + [high] + now[k + 1..]
      ensures Here(q) && q != End() && Rank(q) == old(Rank(it)) + 1
    {
      hide Flat, Start, Total, Sorted, Between, Index, ChunksOk;
      SetRange(it, low.first, low.second);
      q := Insert(Next(it), high);
    }

    // -------------------------------------------------------------------------
    // Finding

    /** The first range of a chunk, from an offset on, that ends after `index`. */
    static method LowerBound(rs: seq<Range>, from: nat, index: nat) returns (k: nat)
      requires Sorted(rs) && from < |rs| && index < rs[|rs| - 1].second
      ensures from <= k < |rs| && index < rs[k].second && (k > from ==> rs[k - 1].second <= index)
    {
      var lo, hi := from, |rs| - 1;
      while lo < hi
        invariant from <= lo <= hi < |rs| && index < rs[hi].second
        invariant lo > from ==> rs[lo - 1].second <= index
      {
        var mid := (lo + hi) / 2;
        if rs[mid].second <= index {
          lo := mid + 1;
        } else {
          hi := mid;
        }
      }
      k := lo;
    }

    /** Where the ranges of a chunk are. */
    lemma InChunk(o: nat)
      requires Kept() && o < |data|
      ensures Rank(Pos(o + 1, 0)) == Rank(Pos(o, 0)) + |data[o].data| <= |Ranges()|
      ensures data[o].begin == Ranges()[Rank(Pos(o, 0))].first
      ensures data[o].end == Ranges()[Rank(Pos(o + 1, 0)) - 1].second
      ensures forall i :: 0 <= i < |data[o].data| ==> data[o].data[i] == Ranges()[Rank(Pos(o, 0)) + i]
    {
      hide Flat, Start, Total;
      FlatSplit(data, o);
      StartNext(Lens(data), o);
      Within(Flat(data[..o]), data[o].data, Flat(data[o + 1..]));
    }

    lemma ChunkSorted(o: nat)
      requires Valid() && o < |data|
      ensures Sorted(data[o].data)
    {
      InChunk(o);
    }

    /** `index` is not before the ranges in front of a position. */
    ghost predicate Past(p: Pos, index: nat)
      reads this
      requires p.outer <= |data|
    {
      0 < Rank(p) <= |Ranges()| ==> Ranges()[Rank(p) - 1].second <= index
    }

    method FindChunk(index: nat, from: nat) returns (o: nat)
      requires Valid() && from <= |data|
      ensures from <= o <= |data| && (o < |data| ==> index < data[o].end)
      ensures o > from ==> Past(Pos(o, 0), index)
    {
      hide Flat, Start, Total, Sorted, Index, ChunksOk;
      o := from;
      while o < |data| && data[o].end <= index
        invariant from <= o <= |data|
        invariant o > from ==> data[o - 1].end <= index
      {
        o := o + 1;
      }
      if o > from {
        InChunk(o - 1);
      }
    }

    /** The range that contains an index or else the first one after it, from a given position on. */
    method Find(index: nat, from: Pos) returns (q: Pos)
      requires Valid() && Here(from) && Past(from, index)
      ensures Here(q) && Found(Ranges(), Rank(q), index)
    {
      hide Flat, Start, Total, Sorted, Index, Ranges, Rank, Found;
      var o := FindChunk(index, from.outer);
      if o == |data| {
        q := End();
        FoundAt(q, index);
        return;
      }
      ChunkSorted(o);
      var c := data[o];
      if index < c.begin {
        q := Pos(o, 0);
        FirstOfChunk(from, o, index);
        return;
      }
      var start := if o == from.outer then from.inner else 0;
      var k := LowerBound(c.data, start, index);
      q := Pos(o, k);
      if k > start {
        PastInChunk(q, index);
      }
      FoundAt(q, index);
    }

    lemma FoundAt(p: Pos, index: nat)
      requires Valid() && Here(p) && Past(p, index) && (p.outer < |data| ==> index < data[p.outer].data[p.inner].second)
      ensures Found(Ranges(), Rank(p), index)
    {
      hide Flat, Start, Total, Sorted, Index;
      RankDecides(p);
      if p != End() {
        assert Get(p) == data[p.outer].data[p.inner];
      }
    }

    lemma PastInChunk(p: Pos, index: nat)
      requires Valid() && Here(p) && p != End() && p.inner > 0 && data[p.outer].data[p.inner - 1].second <= index
      ensures Past(p, index)
    {
      hide Flat, Start, Total, Sorted, Index;
      assert Get(Prev(p)) == data[p.outer].data[p.inner - 1];
    }

    lemma RankInChunk(p: Pos)
      requires p.outer < |data|
      ensures Rank(p) == Rank(Pos(p.outer, 0)) + p.inner
    {
    }

    lemma FirstOfChunk(from: Pos, o: nat, index: nat)
      requires Valid() && Here(from) && Past(from, index) && from.outer <= o < |data| && index < data[o].begin
      requires o > from.outer ==> Past(Pos(o, 0), index)
      ensures Found(Ranges(), Rank(Pos(o, 0)), index)
    {
      hide Flat, Start, Total, Index;
      InChunk(o);
      if o == from.outer && from.inner > 0 {
        RankInChunk(from);
      }
      FoundAt(Pos(o, 0), index);
    }

    // -------------------------------------------------------------------------
    // Adding

    /** Grow the range that ends at an index, and join it with the next one if they meet. */
    method AddAfter(it: Pos, index: nat) returns (q: Pos)
      requires Valid() && Here(it) && Found(Ranges(), Rank(it), index)
      requires it != Begin() && Get(Prev(it)).second == index && (it != End() ==> index < Get(it).first)
      modifies this
      ensures Valid() && Members() == old(Members()) + {index}
      ensures Here(q) && q != End() && Get(q).first <= index < Get(q).second
    {
      hide Flat, Start, Total, Sorted, Index, Indices, Covered, ChunksOk;
      ghost var rs, k := Ranges(), Rank(it);
      RankDecides(it);
      OrderAt(rs, k);
      q := Prev(it);
      Adjust(q, 0, 1);
      if it != End() && Get(q).second == Get(it).first {
        AddBetweenAt(rs, k, index);
        Adjust(q, 0, Get(it).second - Get(it).first);
        assert Ranges() == rs[k - 1 := Range(rs[k - 1].first, rs[k].second)];
        q := Erase(it);
        RankDecides(q);
        q := Prev(q);
      } else {
        AddAfterAt(rs, k, index);
      }
    }

    /** Add an index at the place where it belongs. */
    method DoAdd(it: Pos, index: nat) returns (q: Pos)
      requires Valid() && Here(it) && Found(Ranges(), Rank(it), index)
      modifies this
      ensures Valid() && Members() == old(Members()) + {index}
      ensures Here(q) && q != End() && Get(q).first <= index < Get(q).second
      ensures index in old(Members()) ==> data == old(data)
    {
      hide Flat, Start, Total, Sorted, Between, Index, Indices, Covered, ChunksOk;
      ghost var rs, k := Ranges(), Rank(it);
      RankDecides(it);
      OrderAt(rs, k);
      FoundMember(rs, k, index);
      var moreBefore, valid := it != Begin(), it != End();
      if valid && Get(it).first <= index && Get(it).second > index {
        return it;
      }
      if moreBefore && Get(Prev(it)).second == index {
        q := AddAfter(it, index);
        return;
      }
      if valid && Get(it).first == index + 1 {
        AddBeforeAt(rs, k, index);
        Adjust(it, -1, 0);
        return it;
      }
      AddAloneAt(rs, k, index);
      SortedBetween(rs, k, Range(index, index + 1));
      q := Insert(it, Range(index, index + 1));
    }

    method Add(index: nat)
      requires Valid()
      modifies this
      ensures Valid() && Members() == old(Members()) + {index}
    {
      var it := Find(index, Begin());
      it := DoAdd(it, index);
    }

    // -------------------------------------------------------------------------
    // Going through the indices

    ghost predicate On(c: Cursor)
      reads this
    {
      && Kept() && Here(c.pos)
      && if c.pos == End() then c.offset == 0 else Get(c.pos).first + c.offset < Get(c.pos).second
    }

    /** What is still to come, the current index included. */
    ghost function Rest(c: Cursor): set<nat>
      reads this
      requires On(c)
    {
      RankDecides(c.pos);
      From(Ranges(), Rank(c.pos), c.offset)
    }

    function First(): (c: Cursor)
      reads this
      requires Valid()
      ensures On(c) && Rest(c) == Members()
    {
      FromStart(Ranges());
      RankDecides(Begin());
      OrderAt(Ranges(), 0);
      Cursor(Begin(), 0)
    }

    function Current(c: Cursor): (index: nat)
      reads this
      requires Valid() && On(c) && c.pos != End()
      ensures index in Rest(c) && forall x <- Rest(c) :: x >= index
    {
      FromHere(Ranges(), Rank(c.pos), c.offset);
      Get(c.pos).first + c.offset
    }

    function Step(c: Cursor): Cursor
      reads this
      requires Kept() && On(c) && c.pos != End()
    {
      if Get(c.pos).first + c.offset + 1 == Get(c.pos).second then Cursor(Next(c.pos), 0)
      else Cursor(c.pos, c.offset + 1)
    }

    lemma Stepped(c: Cursor)
      requires Valid() && On(c) && c.pos != End()
      ensures On(Step(c)) && Rest(Step(c)) == Rest(c) - {Current(c)}
    {
      hide Flat, Start, Total, Sorted, Index, Indices, Covered, ChunksOk, From;
      FromNext(Ranges(), Rank(c.pos), c.offset);
      var next := Next(c.pos);
      RankDecides(next);
      OrderAt(Ranges(), Rank(next));
    }

    lemma RestDecides(c: Cursor)
      requires Valid() && On(c)
      ensures c.pos == End() <==> Rest(c) == {}
    {
      if c.pos != End() {
        assert Current(c) in Rest(c);
      }
    }

    /** Add the indices of another set. */
    method AddAll(other: IndexSet)
      requires Valid() && other.Valid()
      modifies this
      ensures Valid() && Members() == old(Members()) + old(other.Members())
    {
      hide Flat, Start, Total, Sorted, Index, Indices, Covered, ChunksOk, From;
      var it, c := Begin(), other.First();
      while c.pos != other.End()
        invariant Valid() && Here(it) && other.data == old(other.data) && other.Valid() && other.On(c)
        invariant other.Rest(c) <= other.Members()
        invariant Members() == old(Members()) + (other.Members() - other.Rest(c))
        invariant forall x <- other.Rest(c) :: Past(it, x)
        decreases other.Rest(c)
      {
        var index := other.Current(c);
        it := Find(index, it);
        it := DoAdd(it, index);
        PastCurrent(it, index);
        other.Stepped(c);
        c := other.Step(c);
      }
      other.RestDecides(c);
    }

    lemma PastCurrent(it: Pos, index: nat)
      requires Valid() && Here(it) && it != End() && Get(it).first <= index < Get(it).second
      ensures forall x: nat :: x >= index ==> Past(it, x)
    {
      OrderAt(Ranges(), Rank(it));
    }

    // -------------------------------------------------------------------------
    // Shifting

    /** Shift every range from a position on. */
    method ShiftUntilEndBy(from: Pos, shift: int)
      requires Kept() && Here(from) && Rank(from) <= |Ranges()| && CanSlide(Ranges()[Rank(from)..], shift)
      modifies this
      ensures Kept() && Lens(data) == old(Lens(data)) && Ranges() == old(SlideFrom(Ranges(), Rank(from), shift))
    {
      hide Flat, Start, Total, Index, ChunksOk, CanSlide, Sliding, SlideFrom;
      ghost var rs, k := Ranges(), Rank(from);
      var it := from;
      RankDecides(it);
      SlidingStarts(rs, k, shift);
      while it != End()
        invariant Kept() && Lens(data) == old(Lens(data)) && Here(it) && Rank(it) <= |Ranges()| == |rs|
        invariant it == End() <==> Rank(it) == |rs|
        invariant Sliding(rs, k, Rank(it), shift, Ranges())
        decreases |rs| - Rank(it)
      {
        SlidingMay(rs, k, Rank(it), shift, Ranges());
        SlidingNext(rs, k, Rank(it), shift, Ranges(), Range(Get(it).first + shift, Get(it).second + shift));
        ShiftBy(it, shift);
        it := Next(it);
        RankDecides(it);
      }
      SlidingEnds(rs, k, shift, Ranges());
    }

    /** Insert a run of indices, moving those at or after it back. */
    method InsertAt(index: nat, count: nat)
      requires Valid() && count > 0
      modifies this
      ensures Valid() && Members() == IndexAlgebra.InsertAt(old(Members()), index, count)
    {
      hide Flat, Start, Total, Sorted, Index, Indices, Covered, ChunksOk, Slide, CanSlide, SlideFrom,
           IndexAlgebra.ShiftForInsertAt;
      ghost var rs := Ranges();
      var pos := Find(index, Begin());
      RankDecides(pos);
      ghost var k := Rank(pos);
      if pos != End() {
        if Get(pos).first <= index {
          FillInsideAt(rs, k, index, count);
          Adjust(pos, 0, count);
          ShiftUntilEndBy(Next(pos), count);
          return;
        }
        SlideHead(rs, k, count);
        ShiftBy(pos, count);
        ShiftUntilEndBy(Next(pos), count);
      }
      GapBetweenAt(rs, k, index, count);
      FoundAfterGap(rs, k, index, count);
      GapIsFree(rs, k, index, count);
      Fill(pos, index, count);
    }

    /** Add the indices of a gap one by one. */
    method Fill(from: Pos, index: nat, count: nat)
      requires Valid() && Here(from) && Found(Ranges(), Rank(from), index)
      requires forall x <- Members() :: !(index <= x <= index + count)
      modifies this
      ensures Valid() && Members() == old(Members()) + Interval(index, index + count)
    {
      hide Flat, Start, Total, Sorted, Index, Indices, Covered, ChunksOk;
      var pos := from;
      for i := 0 to count
        invariant Valid() && Here(pos) && Found(Ranges(), Rank(pos), index + i)
        invariant Members() == old(Members()) + Interval(index, index + i)
      {
        pos := DoAdd(pos, index + i);
        AfterAdded(pos, index + i);
        pos := Next(pos);
      }
    }

    lemma AfterAdded(pos: Pos, x: nat)
      requires Valid() && Here(pos) && pos != End() && Get(pos).first <= x < Get(pos).second && x + 1 !in Members()
      ensures Found(Ranges(), Rank(Next(pos)), x + 1)
    {
      hide Flat, Start, Total, Index, Indices, ChunksOk;
      var r := Get(pos);
      assert r.first <= x + 1 < r.second ==> Covered(Ranges(), x + 1);
    }

    /** Make room for indices that are not in the set. */
    method ShiftForInsertAt(index: nat, count: nat)
      requires Valid() && count > 0
      modifies this
      ensures Valid() && Members() == IndexAlgebra.ShiftForInsertAt(old(Members()), index, count)
    {
      hide Flat, Start, Total, Sorted, Between, Index, Indices, Covered, ChunksOk, Slide, CanSlide,
           IndexAlgebra.ShiftForInsertAt;
      ghost var rs := Ranges();
      var it := Find(index, Begin());
      RankDecides(it);
      ghost var k := Rank(it);
      if it == End() {
        GapBetweenAt(rs, k, index, count);
        FoundAfterGap(rs, k, index, count);
        return;
      }
      SlideHead(rs, k, count);
      ShiftUntilEndBy(it, count);
      assert Get(it) == Range(rs[k].first + count, rs[k].second + count);
      if Get(it).first < index + count {
        GapInsideAt(rs, k, index, count);
        SortedBetween(SlideFrom(rs, k, count)[k := Range(rs[k].first, index)], k + 1,
                      Range(index + count, rs[k].second + count));
        it := Split(it, Range(Get(it).first - count, index), Range(index + count, Get(it).second));
      } else {
        GapBetweenAt(rs, k, index, count);
      }
    }

    // -------------------------------------------------------------------------
    // Erasing

    /** Once what comes from a position on has slid back by one, the members are these. */
    ghost predicate Closing(p: Pos, members: set<nat>)
      reads this
    {
      && Kept() && Here(p) && Rank(p) <= |Ranges()|
      && CanSlide(Ranges()[Rank(p)..], -1) && Sorted(SlideFrom(Ranges(), Rank(p), -1))
      && Indices(SlideFrom(Ranges(), Rank(p), -1)) == members
    }

    /** Erase an index that is in the range at a position. */
    method EraseHere(it: Pos, index: nat) returns (q: Pos)
      requires Valid() && Here(it) && it != End() && Get(it).first <= index < Get(it).second
      modifies this
      ensures Closing(q, IndexAlgebra.EraseAt(old(Members()), index))
    {
      hide Flat, Start, Total, Sorted, Index, Indices, Covered, ChunksOk, Slide, CanSlide, SlideFrom,
           IndexAlgebra.EraseAt;
      ghost var rs, k := Ranges(), Rank(it);
      RankDecides(it);
      if Get(it).first + 1 == Get(it).second {
        EraseWholeAt(rs, k);
        q := Erase(it);
      } else {
        EraseInsideAt(rs, k, index);
        Adjust(it, 0, -1);
        q := Next(it);
      }
      RankDecides(q);
    }

    /** Erase the index between two ranges by joining them. */
    method EraseBetween(it: Pos) returns (q: Pos)
      requires Valid() && Here(it) && it != Begin() && it != End() && Get(Prev(it)).second + 1 == Get(it).first
      modifies this
      ensures Closing(q, IndexAlgebra.EraseAt(old(Members()), old(Get(Prev(it)).second)))
    {
      hide Flat, Start, Total, Sorted, Index, Indices, Covered, ChunksOk, Slide, CanSlide, SlideFrom,
           IndexAlgebra.EraseAt;
      ghost var rs, k := Ranges(), Rank(it);
      RankDecides(it);
      OrderAt(rs, k);
      JoinShape(rs, k, Range(rs[k - 1].first, rs[k].second - 1));
      Adjust(Prev(it), 0, Get(it).second - Get(it).first);
      q := Erase(it);
      RankDecides(q);
      EraseJoinsAt(rs, k, Ranges());
    }

    /** Erase an index at the place where it belongs and close the gap. */
    method DoErase(from: Pos, index: nat)
      requires Valid() && Here(from) && from != End() && Found(Ranges(), Rank(from), index)
      modifies this
      ensures Valid() && Members() == IndexAlgebra.EraseAt(old(Members()), index)
    {
      hide Flat, Start, Total, Sorted, Index, Indices, Covered, ChunksOk, Slide, CanSlide, SlideFrom,
           IndexAlgebra.EraseAt;
      ghost var rs, k := Ranges(), Rank(from);
      var it := from;
      RankDecides(it);
      OrderAt(rs, k);
      if Get(it).first <= index {
        it := EraseHere(it, index);
      } else if it != Begin() && Get(Prev(it)).second + 1 == Get(it).first {
        it := EraseBetween(it);
      } else {
        EraseBetweenAt(rs, k, index);
      }
      ShiftUntilEndBy(it, -1);
    }

    method EraseAt(index: nat)
      requires Valid()
      modifies this
      ensures Valid() && Members() == IndexAlgebra.EraseAt(old(Members()), index)
    {
      hide Flat, Start, Total, Sorted, Index, Indices, Covered, ChunksOk, Slide, CanSlide, SlideFrom,
           IndexAlgebra.EraseAt;
      var it := Find(index, Begin());
      RankDecides(it);
      if it != End() {
        DoErase(it, index);
      } else {
        EraseBetweenAt(Ranges(), Rank(it), index);
        NothingSlides(Ranges(), Rank(it));
      }
    }

    // -------------------------------------------------------------------------
    // Skipping whole chunks

    /** How many indices come before a position. */
    ghost function Passed(p: Pos): int
      reads this
      requires Kept() && Here(p)
    {
      RankDecides(p);
      Total(Ranges()[..Rank(p)])
    }

    lemma NonePassed()
      requires Kept()
      ensures Passed(Begin()) == 0 && Rank(Begin()) == 0
    {
    }

    lemma PassedChunk(p: Pos)
      requires Kept() && Here(p) && p != End() && p.inner == 0
      ensures Passed(NextChunk(p)) == Passed(p) + data[p.outer].count
      ensures Rank(NextChunk(p)) > Rank(p)
      ensures 0 < Rank(NextChunk(p)) <= |Ranges()| && Ranges()[Rank(NextChunk(p)) - 1].second == data[p.outer].end
    {
      hide Total, Flat, Start;
      InChunk(p.outer);
      var rs, k, c := Ranges(), Rank(p), data[p.outer];
      assert rs[..k + |c.data|] == rs[..k] + c.data;
      TotalConcat(rs[..k], c.data);
    }

    lemma PassedRange(p: Pos)
      requires Kept() && Here(p) && p != End()
      ensures Passed(Next(p)) == Passed(p) + (Get(p).second - Get(p).first)
    {
      hide Total, Flat, Start;
      RankDecides(p);
      TotalNext(Ranges(), Rank(p));
    }

    /** Add an index given as if the members were not there. */
    method AddShifted(index: nat) returns (shifted: nat)
      requires Valid()
      modifies this
      ensures shifted == IndexAlgebra.Shift(old(Members()), index)
      ensures Valid() && Members() == old(Members()) + {shifted}
    {
      hide Flat, Start, Total, Sorted, Index, Indices, Covered, ChunksOk, IndexAlgebra.Shift;
      shifted := index;
      var it := Begin();
      NonePassed();
      while it != End() && data[it.outer].end <= shifted
        invariant Valid() && data == old(data)
        invariant Here(it) && it.inner == 0 && shifted == index + Passed(it) && Past(it, shifted)
        decreases |data| - it.outer
      {
        PassedChunk(it);
        ChunkNotEmpty(it);
        shifted := shifted + data[it.outer].count;
        it := NextChunk(it);
      }
      while it != End() && Get(it).first <= shifted
        invariant Valid() && data == old(data)
        invariant Here(it) && shifted == index + Passed(it) && Past(it, shifted)
        decreases |Ranges()| - Rank(it)
      {
        PassedRange(it);
        OrderAt(Ranges(), Rank(it));
        shifted := shifted + (Get(it).second - Get(it).first);
        it := Next(it);
        RankDecides(it);
      }
      RankDecides(it);
      OrderAt(Ranges(), Rank(it));
      ShiftIs(Ranges(), Rank(it), index, shifted);
      it := DoAdd(it, shifted);
    }

    lemma ChunkNotEmpty(p: Pos)
      requires Valid() && p.outer < |data|
      ensures data[p.outer].count > 0
    {
      ChunkSorted(p.outer);
      TotalPositive(data[p.outer].data);
    }

    /** Remove an index that is in the set; otherwise give its position without the members. */
    method EraseOrUnshift(index: nat) returns (r: Option<nat>)
      requires Valid()
      modifies this
      ensures r == if index in old(Members()) then None else Some(IndexAlgebra.Unshift(old(Members()), index))
      ensures Valid() && Members() == IndexAlgebra.EraseAt(old(Members()), index)
    {
      hide Flat, Start, Total, Sorted, Index, Indices, Covered, ChunksOk, IndexAlgebra.EraseAt, CountBelow, SlideFrom,
           CanSlide;
      var shifted: int := index;
      var it := Begin();
      NonePassed();
      while it != End() && data[it.outer].end <= index
        invariant Valid() && data == old(data)
        invariant Here(it) && it.inner == 0 && shifted == index - Passed(it) && Past(it, index)
        decreases |data| - it.outer
      {
        PassedChunk(it);
        shifted := shifted - data[it.outer].count;
        it := NextChunk(it);
      }
      while it != End() && Get(it).second <= index
        invariant Valid() && data == old(data)
        invariant Here(it) && shifted == index - Passed(it) && Past(it, index)
        decreases |Ranges()| - Rank(it)
      {
        PassedRange(it);
        shifted := shifted - (Get(it).second - Get(it).first);
        it := Next(it);
        RankDecides(it);
      }
      RankDecides(it);
      FoundMember(Ranges(), Rank(it), index);
      CountAt(Ranges(), Rank(it), index);
      if it == End() {
        EraseBetweenAt(Ranges(), Rank(it), index);
        NothingSlides(Ranges(), Rank(it));
        return Some(shifted);
      }
      r := if Get(it).first <= index then None else Some(shifted);
      DoErase(it, index);
    }

    // -------------------------------------------------------------------------
    // Reading

    method Contains(index: nat) returns (found: bool)
      requires Valid()
      ensures found <==> index in Members()
    {
      hide Flat, Start, Total, Sorted, Index, Indices, Covered, ChunksOk;
      var it := Find(index, Begin());
      RankDecides(it);
      FoundMember(Ranges(), Rank(it), index);
      found := it != End() && Get(it).first <= index;
    }

    /** The position of an index once the members have been inserted. */
    method Shift(index: nat) returns (shifted: nat)
      requires Valid()
      ensures shifted == IndexAlgebra.Shift(Members(), index)
    {
      hide Flat, Start, Total, Sorted, Index, Indices, Covered, ChunksOk, IndexAlgebra.Shift;
      shifted := index;
      var it := Begin();
      NonePassed();
      while it != End()
        invariant Here(it) && shifted == index + Passed(it) && Past(it, shifted)
        decreases |Ranges()| - Rank(it)
      {
        if Get(it).first > shifted {
          break;
        }
        PassedRange(it);
        OrderAt(Ranges(), Rank(it));
        shifted := shifted + (Get(it).second - Get(it).first);
        it := Next(it);
        RankDecides(it);
      }
      RankDecides(it);
      OrderAt(Ranges(), Rank(it));
      ShiftIs(Ranges(), Rank(it), index, shifted);
    }

    // -------------------------------------------------------------------------
    // Removing without shifting

    /** Take what lies between two points out of the range that reaches the first of them. */
    method Cut(it: Pos, begin: nat, end: nat) returns (q: Pos)
      requires Valid() && Here(it) && it != End() && Get(it).first <= begin < Get(it).second && begin < end
      requires Past(it, begin)
      modifies this
      ensures Valid() && Here(q) && Past(q, begin)
      ensures exists hi :: begin < hi <= end && Members() == old(Members()) - Interval(begin, hi)
    {
      hide Flat, Start, Total, Sorted, Between, Index, Indices, Covered, ChunksOk;
      ghost var rs, k := Ranges(), Rank(it);
      RankDecides(it);
      var r := Get(it);
      ghost var hi := if r.second <= end then r.second else end;
      q := it;
      if r.first < begin && r.second > end {
        RemoveInsideAt(rs, k, begin, end);
        SortedBetween(rs[k := Range(r.first, begin)], k + 1, Range(end, r.second));
        q := Split(it, Range(r.first, begin), Range(end, r.second));
        RankDecides(q);
        q := Prev(q);
      } else if begin == r.first && end >= r.second {
        RemoveWholeAt(rs, k);
        q := Erase(it);
      } else if begin == r.first {
        TrimAt(rs, k, Range(end, r.second));
        SetRange(it, end, r.second);
      } else {
        TrimAt(rs, k, Range(r.first, begin));
        SetRange(it, r.first, begin);
      }
      assert Members() == old(Members()) - Interval(begin, hi);
    }

    /** Cut at the next member at or after a point. */
    method CutNext(it: Pos, from: nat, end: nat) returns (q: Pos, begin: nat)
      requires Valid() && Here(it) && it != End() && Found(Ranges(), Rank(it), from) && from < end
      requires Get(it).first < end
      modifies this
      ensures Valid() && from <= begin < end && Here(q) && Found(Ranges(), Rank(q), begin)
      ensures Members() < old(Members()) && old(Members()) - Interval(from, end) <= Members()
      ensures Members() !! Interval(from, begin)
    {
      hide Flat, Start, Total, Sorted, Index, Indices, Covered, ChunksOk;
      ghost var was := Members();
      NoneBefore(it, from);
      RankDecides(it);
      OrderAt(Ranges(), Rank(it));
      begin := if Get(it).first > from then Get(it).first else from;
      FoundMember(Ranges(), Rank(it), begin);
      q := Cut(it, begin, end);
      assert begin in was && begin !in Members();
      q := Find(begin, q);
    }

    /** Remove the indices from `from` up to `end`. */
    method DoRemove(start: Pos, from: nat, end: nat) returns (it: Pos)
      requires Valid() && Here(start) && Past(start, from) && from < end
      modifies this
      ensures Valid() && Members() == old(Members()) - Interval(from, end)
      ensures Here(it) && forall x: nat :: x >= end ==> Past(it, x)
    {
      hide Flat, Start, Total, Sorted, Index, Indices, Covered, ChunksOk;
      var begin := from;
      it := Find(begin, start);
      RankDecides(it);
      while it != End() && Get(it).first < end
        invariant Valid() && from <= begin < end && Here(it) && Found(Ranges(), Rank(it), begin)
        invariant Members() <= old(Members()) && old(Members()) - Interval(from, end) <= Members()
        invariant Members() !! Interval(from, begin)
        decreases Members()
      {
        it, begin := CutNext(it, begin, end);
      }
      NoneBefore(it, begin);
    }

    /** Between a point and the range that it leads to there is nothing. */
    lemma NoneBefore(it: Pos, begin: nat)
      requires Valid() && Here(it) && Found(Ranges(), Rank(it), begin)
      ensures forall x <- Members() :: x >= begin ==> it != End() && Get(it).first <= x
    {
      hide Flat, Start, Total, Index, Indices, ChunksOk;
      RankDecides(it);
      forall x | x in Members() && x >= begin ensures it != End() && Get(it).first <= x {
        if it == End() || x < Get(it).first {
          NotCovered(Ranges(), Rank(it), x);
        }
      }
    }

    /** With nothing to remove the loop still cuts a range in two at the index. */
    method RemoveNothing(it: Pos, index: nat)
      requires Valid() && Here(it) && Found(Ranges(), Rank(it), index)
      modifies this
      ensures Kept() && Members() == old(Members())
      ensures Sorted(Ranges()) <==> !Inside(old(Ranges()), index)
    {
      hide Flat, Start, Total, Sorted, Between, Index, Indices, Covered, ChunksOk, Inside;
      ghost var rs, k := Ranges(), Rank(it);
      RankDecides(it);
      InsideAt(rs, k, index);
      if it == End() || Get(it).first >= index {
        return;
      }
      CutInTwoAt(rs, k, index);
      var q := Split(it, Range(Get(it).first, index), Range(index, Get(it).second));
    }

    /** Remove a run of indices.  The ranges stay apart unless the run is empty and inside of one. */
    method Remove(index: nat, count: nat)
      requires Valid()
      modifies this
      ensures Kept() && Members() == old(Members()) - Interval(index, index + count)
      ensures Valid() <==> count > 0 || !Inside(old(Ranges()), index)
    {
      hide Flat, Start, Total, Sorted, Index, Indices, Covered, ChunksOk, Inside;
      var it := Find(index, Begin());
      if count == 0 {
        RemoveNothing(it, index);
      } else {
        it := DoRemove(it, index, index + count);
      }
    }

    method RemoveAll(values: IndexSet)
      requires Valid() && values.Valid() && values != this
      modifies this
      ensures Valid() && Members() == old(Members()) - values.Members()
    {
      hide Flat, Start, Total, Sorted, Index, Indices, Covered, ChunksOk;
      var it, p := Begin(), values.Begin();
      ghost var vs := values.Ranges();
      values.RankDecides(p);
      NoIndices(vs);
      while p != values.End()
        invariant Valid() && Here(it) && values.Valid() && values.Here(p) && values.Rank(p) <= |vs|
        invariant Members() == old(Members()) - Indices(vs[..values.Rank(p)])
        invariant values.Rank(p) < |vs| ==> Past(it, vs[values.Rank(p)].first)
        decreases |vs| - values.Rank(p)
      {
        var range := values.Get(p);
        ghost var k := values.Rank(p);
        OrderAt(vs, k);
        it := DoRemove(it, range.first, range.second);
        PrefixIndices(vs, k);
        p := values.Next(p);
        values.RankDecides(p);
        OrderAt(vs, k + 1);
        if it == End() {
          NoneLeft(vs, k + 1);
          return;
        }
      }
      assert vs[..|vs|] == vs;
    }

    static lemma NoIndices(vs: seq<Range>)
      ensures Indices(vs[..0]) == {}
    {
    }

    static lemma PrefixIndices(vs: seq<Range>, k: nat)
      requires k < |vs|
      ensures Indices(vs[..k + 1]) == Indices(vs[..k]) + Interval(vs[k].first, vs[k].second)
    {
      assert vs[..k + 1] == vs[..k] + [vs[k]];
      IndicesConcat(vs[..k], [vs[k]]);
      IndicesOne(vs[k]);
    }

    /** All members lie before the ranges that are left. */
    lemma NoneLeft(vs: seq<Range>, k: nat)
      requires Valid() && Sorted(vs) && 0 < k <= |vs| && Past(End(), vs[k - 1].second)
      ensures Members() - Indices(vs[..k]) == Members() - Indices(vs) && Indices(vs[..k]) <= Indices(vs)
    {
      hide Flat, Start, Total, Index, Indices, Covered, ChunksOk;
      Below(Ranges(), vs[k - 1].second);
      SplitRanges(vs, k);
      Above(vs[k..], vs[k - 1].second);
    }

    // -------------------------------------------------------------------------
    // The whole set

    method Clear()
      modifies this
      ensures Valid() && Members() == {}
    {
      data := [];
    }

    method Set(len: nat)
      modifies this
      ensures Valid() && Members() == Interval(0, len)
    {
      Clear();
      if len > 0 {
        PushBack(Range(0, len));
        assert Ranges() == [Range(0, len)];
        IndicesOne(Range(0, len));
      }
    }

    // -------------------------------------------------------------------------
    // Counting

    /** `start` is strictly inside of a chunk and `end` inside of the first range of the next one. */
    ghost predicate Straddles(o: nat, start: nat, end: nat)
      reads this
      requires Kept()
    {
      && o + 1 < |data|
      && data[o].begin < start < data[o].end
      && data[o + 1].begin < end <= data[o + 1].data[0].second
    }

    /** Whole chunks, then whole ranges, then a part of a range. */
    method CountFromChunk(from: Pos, end: nat) returns (n: int)
      requires Valid() && Here(from) && from.inner == 0 && Past(from, end)
      ensures n == CountBelow(Members(), end) - Passed(from)
    {
      hide Flat, Start, Total, Sorted, Index, Indices, Covered, ChunksOk, CountBelow;
      var it := from;
      n := 0;
      while it != End() && data[it.outer].end <= end
        invariant Here(it) && it.inner == 0 && n == Passed(it) - Passed(from) && Past(it, end)
        decreases |data| - it.outer
      {
        PassedChunk(it);
        n := n + data[it.outer].count;
        it := NextChunk(it);
      }
      while it != End() && Get(it).second <= end
        invariant Here(it) && n == Passed(it) - Passed(from) && Past(it, end)
        decreases |Ranges()| - Rank(it)
      {
        PassedRange(it);
        n := n + (Get(it).second - Get(it).first);
        it := Next(it);
        RankDecides(it);
      }
      RankDecides(it);
      CountAt(Ranges(), Rank(it), end);
      if it != End() && Get(it).first < end {
        n := n + (end - Get(it).first);
      }
    }

    /** The rest of the chunk that `start` is in; `done` if nothing beyond it is to be counted. */
    method CountInChunk(from: Pos, end: nat) returns (n: int, it: Pos, done: bool)
      requires Valid() && Here(from) && from != End() && Get(from).second < end
      ensures Here(it) && Past(it, end)
      ensures it == End() || it.outer == from.outer || it == Pos(from.outer + 1, 0)
      ensures it == End() ==> from.outer + 1 == |data|
      ensures it != End() && it.outer == from.outer ==> done && Get(it).second >= end
      ensures it != End() && it.outer != from.outer ==>
                (done <==> Get(it).second >= end) && n == Passed(it) - Passed(Next(from))
      ensures done && (it == End() || it.outer == from.outer) ==> n == CountBelow(Members(), end) - Passed(Next(from))
      ensures it == End() ==> done
    {
      hide Flat, Start, Total, Sorted, Index, Indices, Covered, ChunksOk, CountBelow;
      it := Next(from);
      n := 0;
      while it != End() && Get(it).second < end && it.inner != 0
        invariant Here(it) && n == Passed(it) - Passed(Next(from)) && Past(it, end)
        invariant (it.outer == from.outer && it.inner != 0) || it == Pos(from.outer + 1, 0)
        decreases |Ranges()| - Rank(it)
      {
        PassedRange(it);
        n := n + (Get(it).second - Get(it).first);
        it := Next(it);
        RankDecides(it);
      }
      RankDecides(it);
      if it == End() || it.inner != 0 {
        CountAt(Ranges(), Rank(it), end);
      }
      if it != End() && Get(it).first < end && it.inner != 0 {
        n := n + (end - Get(it).first);
      }
      done := it == End() || Get(it).second >= end;
    }

    /** What counting from `start` to `end` gives. */
    ghost predicate Counted(start: nat, end: nat, ret: int)
      reads this
      requires Kept()
    {
      var exact := CountBelow(Members(), end) - CountBelow(Members(), start);
      && ((forall o: nat :: !Straddles(o, start, end)) ==> ret == exact)
      && forall o: nat :: Straddles(o, start, end) ==> ret == exact - (end - data[o + 1].begin)
    }

    /** Counting from the inside of a chunk. */
    method CountInside(it: Pos, start: nat, end: nat) returns (ret: int)
      requires Valid() && Here(it) && it != End() && Found(Ranges(), Rank(it), start) && Get(it).second < end
      requires start > Get(it).first || it.inner != 0
      ensures Counted(start, end, ret)
    {
      hide Flat, Start, Total, Sorted, Index, Indices, Covered, ChunksOk, CountBelow, Straddles;
      var r := Get(it);
      CountAt(Ranges(), Rank(it), start);
      StraddlesOnly(it, start, end);
      PassedRange(it);
      StartsInside(it, start);
      var n, next, done := CountInChunk(it, end);
      ret := r.second - (if r.first >= start then r.first else start) + n;
      if !done {
        var rest := CountFromChunk(next, end);
        ret := ret + rest;
        StraddlesNone(it, next, start, end);
        return;
      }
      RankDecides(next);
      if next != End() && next.outer != it.outer {
        NextChunkStraddles(it, next, start, end);
      } else {
        StraddlesNone(it, next, start, end);
      }
    }

    /** The end is in the chunk that `start` leads to, or beyond the first range of the next one. */
    lemma StraddlesNone(it: Pos, next: Pos, start: nat, end: nat)
      requires Valid() && Here(it) && it != End() && Found(Ranges(), Rank(it), start) && Here(next)
      requires if next == End() then it.outer + 1 == |data|
               else if next.outer == it.outer then Get(next).second >= end
               else next == Pos(it.outer + 1, 0) && Get(next).second < end
      ensures forall o: nat :: !Straddles(o, start, end)
    {
      hide Flat, Start, Total, Sorted, Index;
      StraddlesOnly(it, start, end);
      if next.outer == it.outer && next.outer + 1 < |data| {
        ChunkOrder(next, next.outer + 1);
      }
    }

    lemma NextChunkStraddles(it: Pos, next: Pos, start: nat, end: nat)
      requires Valid() && Here(it) && it != End() && data[it.outer].begin < start < data[it.outer].end
      requires next == Pos(it.outer + 1, 0) && Here(next) && next != End() && Past(next, end) && end <= Get(next).second
      ensures data[it.outer + 1].begin == Get(next).first
      ensures Straddles(it.outer, start, end) <==> Get(next).first < end
      ensures CountBelow(Members(), end) == Passed(next) + if Get(next).first < end then end - Get(next).first else 0
    {
      hide Flat, Start, Total, Sorted, Index, Indices, Covered, CountBelow;
      RankDecides(next);
      InChunk(next.outer);
      CountAt(Ranges(), Rank(next), end);
    }

    /** The members from `start` up to `end`, except that a part of a range is left out when the
        range is the first of the chunk after the one that `start` is strictly inside of. */
    method Count(start: nat, end: nat) returns (ret: int)
      requires Valid()
      ensures start <= end ==>
                (ret == CountBelow(Members(), end) - CountBelow(Members(), start) <==>
                 forall o: nat :: !Straddles(o, start, end))
      ensures start <= end ==> Counted(start, end, ret)
      ensures start > end ==>
                ret == if Reversed(start, end) then end - start else 0
    {
      hide Flat, Start, Total, Sorted, Index, Indices, Covered, ChunksOk, CountBelow;
      var it := Find(start, Begin());
      RankDecides(it);
      CountAt(Ranges(), Rank(it), start);
      if start > end {
        BackwardCount(it, start, end);
      } else {
        StraddlesOnly(it, start, end);
        OrderAt(Ranges(), Rank(it));
        if it == End() || Get(it).second >= end {
          CountAt(Ranges(), Rank(it), end);
        }
      }
      if it == End() || Get(it).first >= end {
        return 0;
      }
      var r := Get(it);
      if r.second >= end {
        return (if r.second <= end then r.second else end) - (if r.first >= start then r.first else start);
      }
      if start > r.first || it.inner != 0 {
        ret := CountInside(it, start, end);
      } else {
        ret := CountFromChunk(it, end);
      }
    }

    /** A range that begins before `end` and goes beyond `start`. */
    ghost predicate Reversed(start: nat, end: nat)
      reads this
    {
      exists k :: 0 <= k < |Ranges()| && Ranges()[k].first < end && start < Ranges()[k].second
    }

    lemma BackwardCount(it: Pos, start: nat, end: nat)
      requires Valid() && Here(it) && Found(Ranges(), Rank(it), start) && end < start
      ensures it != End() && Get(it).first < end <==>
                Reversed(start, end)
    {
      hide Flat, Start, Total, Index;
      RankDecides(it);
    }

    /** A range ends before later chunks begin and begins after earlier ones end. */
    lemma ChunkOrder(p: Pos, o: nat)
      requires Valid() && Here(p) && o < |data|
      ensures Rank(p) <= |Ranges()|
      ensures o < p.outer ==> 0 < Rank(p) && data[o].end <= Ranges()[Rank(p) - 1].second
      ensures p.outer < o ==> Get(p).second < data[o].begin
      ensures p.outer == o ==> data[o].begin <= Get(p).first && Get(p).second <= data[o].end
    {
      hide Flat, Start, Total;
      RankDecides(p);
      InChunk(o);
      StartMonotone(Lens(data), 0, o);
      if o < p.outer {
        StartMonotone(Lens(data), o + 1, p.outer);
      } else if p.outer < o {
        StartMonotone(Lens(data), p.outer, o);
      } else {
        RankInChunk(p);
      }
    }

    /** Only the chunk that `start` leads to can be the one, and when. */
    lemma StraddlesOnly(it: Pos, start: nat, end: nat)
      requires Valid() && Here(it) && Found(Ranges(), Rank(it), start)
      ensures forall o: nat :: Straddles(o, start, end) ==> o == it.outer
      ensures it != End() && (end <= Get(it).second || (start <= Get(it).first && it.inner == 0)) ==>
                forall o: nat :: !Straddles(o, start, end)
    {
      hide Flat, Start, Total, Sorted, Index;
      RankDecides(it);
      forall o: nat | Straddles(o, start, end)
        ensures o == it.outer
        ensures it != End() ==> end > Get(it).second && (start > Get(it).first || it.inner != 0)
      {
        ChunkOrder(it, o);
        ChunkOrder(it, o + 1);
      }
    }

    lemma StartsInside(it: Pos, start: nat)
      requires Valid() && Here(it) && it != End() && Found(Ranges(), Rank(it), start)
      requires start > Get(it).first || it.inner != 0
      ensures data[it.outer].begin < start < data[it.outer].end
    {
      ChunkOrder(it, it.outer);
      if it.inner != 0 {
        ChunkOrder(Prev(it), it.outer);
        OrderAt(Ranges(), Rank(it));
      }
    }

    method Unshift(index: nat) returns (r: nat)
      requires Valid()
      ensures r == IndexAlgebra.Unshift(Members(), index)
    {
      var n := Count(0, index);
      r := index - n;
    }

    // -------------------------------------------------------------------------
    // Whole sets at once

    /** Both sets gone through as far as the cursors, and built what that makes when `positions`
        are inserted. */
    ghost predicate Inserting(builder: IndexBuilding.ChunkedRangeVectorBuilder, c: Cursor,
                              positions: IndexSet, c2: Cursor, cut: nat, shift: nat)
      reads this, positions, builder
      requires On(c) && positions.On(c2)
    {
      && builder.Valid() && builder.CountsExact()
      && Weaving(Members(), Rest(c), positions.Members(), positions.Rest(c2), cut, shift)
      && builder.Members() == Woven(Members(), Rest(c), positions.Members(), positions.Rest(c2))
      && forall m <- builder.Members(), y <- positions.Rest(c2) :: m < y
    }

    method InsertOwn(builder: IndexBuilding.ChunkedRangeVectorBuilder, c: Cursor,
                     positions: IndexSet, c2: Cursor, ghost cut: nat, shift: nat) returns (next: Cursor)
      requires Valid() && positions.Valid() && On(c) && positions.On(c2) && c.pos != End()
      requires Inserting(builder, c, positions, c2, cut, shift)
      requires forall y <- positions.Rest(c2) :: Current(c) + shift < y
      modifies builder
      ensures On(next) && Rest(next) == Rest(c) - {Current(c)}
      ensures Inserting(builder, next, positions, c2, cut, shift)
    {
      hide Flat, Start, Total, Sorted, Index, Indices, Covered, ChunksOk, From, Weaving, Woven;
      TakeFirst(Members(), Rest(c), positions.Members(), positions.Rest(c2), cut, shift, Current(c));
      builder.EndsBefore(Current(c) + shift);
      builder.PushIndex(Current(c) + shift);
      Stepped(c);
      next := Step(c);
    }

    method InsertOther(builder: IndexBuilding.ChunkedRangeVectorBuilder, c: Cursor,
                       positions: IndexSet, c2: Cursor, ghost cut: nat, ghost shift: nat) returns (next: Cursor)
      requires Valid() && positions.Valid() && On(c) && positions.On(c2) && c2.pos != positions.End()
      requires Inserting(builder, c, positions, c2, cut, shift)
      requires forall x <- Rest(c) :: x + shift >= positions.Current(c2)
      modifies builder
      ensures positions.On(next) && positions.Rest(next) == positions.Rest(c2) - {positions.Current(c2)}
      ensures Inserting(builder, c, positions, next, positions.Current(c2) + 1, shift + 1)
    {
      hide Flat, Start, Total, Sorted, Index, Indices, Covered, ChunksOk, From, Weaving, Woven;
      TakeSecond(Members(), Rest(c), positions.Members(), positions.Rest(c2), cut, shift, positions.Current(c2));
      builder.EndsBefore(positions.Current(c2));
      builder.PushIndex(positions.Current(c2));
      positions.Stepped(c2);
      next := positions.Step(c2);
    }

    method Interleaved(positions: IndexSet) returns (chunks: seq<Chunk>)
      requires Valid() && positions.Valid()
      ensures ChunksOk(chunks) && Sorted(Flat(chunks))
      ensures Indices(Flat(chunks)) == InsertAll(Members(), positions.Members())
    {
      hide Flat, Start, Total, Sorted, Index, Indices, Covered, ChunksOk, From, On, Here, Rank, Get, Weaving,
           Inserting, Rest;
      var builder := new IndexBuilding.ChunkedRangeVectorBuilder(data, true);
      var begin1, begin2 := First(), positions.First();
      var shift: nat := 0;
      ghost var cut: nat := 0;
      InsertingStarts(builder, positions);
      while begin1.pos != End() && begin2.pos != positions.End()
        invariant On(begin1) && positions.On(begin2)
        invariant Inserting(builder, begin1, positions, begin2, cut, shift)
        decreases Rest(begin1), positions.Rest(begin2)
      {
        if Current(begin1) + shift < positions.Current(begin2) {
          begin1 := InsertOwn(builder, begin1, positions, begin2, cut, shift);
        } else {
          ghost var next := positions.Current(begin2) + 1;
          begin2 := InsertOther(builder, begin1, positions, begin2, cut, shift);
          cut, shift := next, shift + 1;
        }
      }
      RestDecides(begin1);
      positions.RestDecides(begin2);
      while begin1.pos != End()
        invariant On(begin1) && positions.On(begin2)
        invariant begin1.pos == End() || positions.Rest(begin2) == {}
        invariant Inserting(builder, begin1, positions, begin2, cut, shift)
        decreases Rest(begin1)
      {
        begin1 := InsertOwn(builder, begin1, positions, begin2, cut, shift);
      }
      RestDecides(begin1);
      while begin2.pos != positions.End()
        invariant positions.On(begin2)
        invariant Inserting(builder, begin1, positions, begin2, cut, shift)
        decreases positions.Rest(begin2)
      {
        ghost var next := positions.Current(begin2) + 1;
        begin2 := InsertOther(builder, begin1, positions, begin2, cut, shift);
        cut, shift := next, shift + 1;
      }
      positions.RestDecides(begin2);
      InsertingEnds(builder, begin1, positions, begin2, cut, shift);
      chunks := builder.Finalize();
    }

    lemma InsertingStarts(builder: IndexBuilding.ChunkedRangeVectorBuilder, positions: IndexSet)
      requires Valid() && positions.Valid() && builder.Valid() && builder.CountsExact() && builder.Members() == {}
      ensures Inserting(builder, First(), positions, positions.First(), 0, 0)
    {
      hide Flat, Start, Total, Sorted, Index, Indices, Covered, ChunksOk, From, Weaving, Woven;
      WeavingStarts(Members(), positions.Members());
    }

    lemma InsertingEnds(builder: IndexBuilding.ChunkedRangeVectorBuilder, c: Cursor,
                        positions: IndexSet, c2: Cursor, cut: nat, shift: nat)
      requires On(c) && positions.On(c2) && Inserting(builder, c, positions, c2, cut, shift)
      requires Rest(c) == {} && positions.Rest(c2) == {}
      ensures builder.Valid() && builder.CountsExact()
      ensures builder.Members() == InsertAll(Members(), positions.Members())
    {
      hide Flat, Start, Total, Sorted, Index, Indices, Covered, ChunksOk, From, Weaving, Rest;
      assert Members() - {} == Members() && positions.Members() - {} == positions.Members();
    }

    lemma EmptyData()
      ensures data == [] ==> Members() == {}
    {
    }

    predicate Empty()
      reads this
      requires Valid()
      ensures Empty() <==> Members() == {}
    {
      EmptyData();
      if data != [] then
        OrderAt(Ranges(), 0);
        RankDecides(Begin());
        assert Covered(Ranges(), Ranges()[0].first);
        false
      else
        true
    }

    /** The lengths of all ranges together. */
    method Size() returns (n: int)
      requires Valid()
      ensures n == |Members()|
    {
      hide Flat, Start, Total, Sorted, Index, Indices, Covered, ChunksOk, CountBelow;
      n := 0;
      var it := Begin();
      NonePassed();
      while it != End()
        invariant Here(it) && n == Passed(it)
        decreases |Ranges()| - Rank(it)
      {
        PassedRange(it);
        n := n + (Get(it).second - Get(it).first);
        it := Next(it);
        RankDecides(it);
      }
      RankDecides(it);
      TotalIsSize(Ranges());
    }

    static lemma TotalIsSize(rs: seq<Range>)
      requires Sorted(rs)
      ensures Total(rs[..|rs|]) == |Indices(rs)|
    {
      hide Total, Indices, CountBelow;
      assert rs[..|rs|] == rs;
      var n := if rs == [] then 0 else rs[|rs| - 1].second;
      SplitRanges(rs, |rs|);
      BelowAll(rs, n);
      CountRanges(rs, n);
      CountBelowAll(Indices(rs), n);
    }

    /** Insert positions, each in the numbering that results. */
    method InsertAllAt(positions: IndexSet)
      requires Valid() && positions.Valid()
      modifies this
      ensures Valid() && Members() == InsertAll(old(Members()), old(positions.Members()))
    {
      hide Flat, Start, Total, Sorted, Index, Indices, Covered, ChunksOk, InsertAll, ShiftAll, EraseAll;
      Trivially(Members(), positions.Members());
      EmptyData();
      positions.EmptyData();
      if positions.data == [] {
        return;
      }
      if data == [] {
        data := positions.data;
        return;
      }
      data := Interleaved(positions);
    }

    /** As `Inserting`, when the positions themselves are not wanted. */
    ghost predicate Shifting(builder: IndexBuilding.ChunkedRangeVectorBuilder, c: Cursor,
                             positions: IndexSet, c2: Cursor, cut: nat, shift: nat)
      reads this, positions, builder
      requires On(c) && positions.On(c2)
    {
      && builder.Valid() && builder.CountsExact()
      && Weaving(Members(), Rest(c), positions.Members(), positions.Rest(c2), cut, shift)
      && builder.Members() == ShiftAll(Members() - Rest(c), positions.Members())
    }

    method ShiftOwn(builder: IndexBuilding.ChunkedRangeVectorBuilder, c: Cursor,
                    positions: IndexSet, c2: Cursor, ghost cut: nat, shift: nat) returns (next: Cursor)
      requires Valid() && positions.Valid() && On(c) && positions.On(c2) && c.pos != End()
      requires Shifting(builder, c, positions, c2, cut, shift)
      requires forall y <- positions.Rest(c2) :: Current(c) + shift < y
      modifies builder
      ensures On(next) && Rest(next) == Rest(c) - {Current(c)}
      ensures Shifting(builder, next, positions, c2, cut, shift)
    {
      hide Flat, Start, Total, Sorted, Index, Indices, Covered, ChunksOk, From, Weaving, Woven, ShiftAll;
      TakeFirst(Members(), Rest(c), positions.Members(), positions.Rest(c2), cut, shift, Current(c));
      builder.EndsBefore(Current(c) + shift);
      builder.PushIndex(Current(c) + shift);
      Stepped(c);
      next := Step(c);
    }

    method Spread(positions: IndexSet) returns (chunks: seq<Chunk>)
      requires Valid() && positions.Valid()
      ensures ChunksOk(chunks) && Sorted(Flat(chunks))
      ensures Indices(Flat(chunks)) == ShiftAll(Members(), positions.Members())
    {
      hide Flat, Start, Total, Sorted, Index, Indices, Covered, ChunksOk, From, On, Here, Rank, Get, Weaving, Woven,
           ShiftAll, Rest;
      var builder := new IndexBuilding.ChunkedRangeVectorBuilder(data, true);
      var begin1, begin2 := First(), positions.First();
      var shift: nat := 0;
      ghost var cut: nat := 0;
      WeavingStarts(Members(), positions.Members());
      ShiftNone(positions.Members());
      assert Members() - Members() == {};
      while begin1.pos != End() && begin2.pos != positions.End()
        invariant On(begin1) && positions.On(begin2)
        invariant Shifting(builder, begin1, positions, begin2, cut, shift)
        decreases Rest(begin1), positions.Rest(begin2)
      {
        if Current(begin1) + shift < positions.Current(begin2) {
          begin1 := ShiftOwn(builder, begin1, positions, begin2, cut, shift);
        } else {
          TakeSecond(Members(), Rest(begin1), positions.Members(), positions.Rest(begin2), cut, shift,
                     positions.Current(begin2));
          cut, shift := positions.Current(begin2) + 1, shift + 1;
          positions.Stepped(begin2);
          begin2 := positions.Step(begin2);
        }
      }
      RestDecides(begin1);
      positions.RestDecides(begin2);
      while begin1.pos != End()
        invariant On(begin1) && positions.On(begin2)
        invariant begin1.pos == End() || positions.Rest(begin2) == {}
        invariant Shifting(builder, begin1, positions, begin2, cut, shift)
        decreases Rest(begin1)
      {
        begin1 := ShiftOwn(builder, begin1, positions, begin2, cut, shift);
      }
      RestDecides(begin1);
      assert Members() - {} == Members();
      chunks := builder.Finalize();
    }

    /** Make room for positions, each in the numbering that results. */
    method ShiftForInsertAllAt(values: IndexSet)
      requires Valid() && values.Valid()
      modifies this
      ensures Valid() && Members() == ShiftAll(old(Members()), old(values.Members()))
    {
      hide Flat, Start, Total, Sorted, Index, Indices, Covered, ChunksOk, InsertAll, ShiftAll, EraseAll;
      Trivially(Members(), values.Members());
      EmptyData();
      values.EmptyData();
      if data == [] || values.data == [] {
        return;
      }
      if values.data[0].begin >= data[|data| - 1].end {
        NoneBeyond(values);
        return;
      }
      data := Spread(values);
    }

    lemma NoneBeyond(values: IndexSet)
      requires Valid() && values.Valid() && data != [] && values.data != []
      requires values.data[0].begin >= data[|data| - 1].end
      ensures ShiftAll(Members(), values.Members()) == Members()
    {
      hide Flat, Start, Total, Index, Indices, Covered, ChunkOk, ShiftAll;
      InChunk(|data| - 1);
      values.InChunk(0);
      RankDecides(End());
      values.RankDecides(values.Begin());
      Below(Ranges(), values.data[0].begin);
      Above(values.Ranges(), values.data[0].begin);
      ShiftBeyond(Members(), values.Members());
    }

    /** As `Inserting`, when the positions are erased. */
    ghost predicate Erasing(builder: IndexBuilding.ChunkedRangeVectorBuilder, c: Cursor,
                            positions: IndexSet, c2: Cursor, cut: nat, shift: nat)
      reads this, positions, builder
      requires On(c) && positions.On(c2)
    {
      && builder.Valid() && builder.CountsExact()
      && Sieving(Members(), Rest(c), positions.Members(), positions.Rest(c2), cut, shift)
      && builder.Members() == EraseAll(Members() - Rest(c), positions.Members())
    }

    method EraseOwn(builder: IndexBuilding.ChunkedRangeVectorBuilder, c: Cursor,
                    positions: IndexSet, c2: Cursor, ghost cut: nat, shift: nat) returns (next: Cursor)
      requires Valid() && positions.Valid() && On(c) && positions.On(c2) && c.pos != End()
      requires Erasing(builder, c, positions, c2, cut, shift)
      requires forall y <- positions.Rest(c2) :: Current(c) < y
      modifies builder
      ensures On(next) && Rest(next) == Rest(c) - {Current(c)}
      ensures Erasing(builder, next, positions, c2, cut, shift)
    {
      hide Flat, Start, Total, Sorted, Index, Indices, Covered, ChunksOk, From, Sieving, EraseAll;
      KeepFirst(Members(), Rest(c), positions.Members(), positions.Rest(c2), cut, shift, Current(c));
      builder.EndsBefore(Current(c) - shift);
      builder.PushIndex(Current(c) - shift);
      Stepped(c);
      next := Step(c);
    }

    method Sieved(positions: IndexSet) returns (chunks: seq<Chunk>)
      requires Valid() && positions.Valid()
      ensures ChunksOk(chunks) && Sorted(Flat(chunks))
      ensures Indices(Flat(chunks)) == EraseAll(Members(), positions.Members())
    {
      hide Flat, Start, Total, Sorted, Index, Indices, Covered, ChunksOk, From, On, Here, Rank, Get, Sieving, EraseAll,
           Rest;
      ghost var a, b := Members(), positions.Members();
      var builder := new IndexBuilding.ChunkedRangeVectorBuilder(data, true);
      var begin1, begin2 := First(), positions.First();
      var shift: nat := 0;
      ghost var cut: nat := 0;
      SievingStarts(a, b);
      while begin1.pos != End() && begin2.pos != positions.End()
        invariant On(begin1) && positions.On(begin2)
        invariant Erasing(builder, begin1, positions, begin2, cut, shift)
        decreases Rest(begin1), positions.Rest(begin2)
      {
        var x, y := Current(begin1), positions.Current(begin2);
        if x < y {
          begin1 := EraseOwn(builder, begin1, positions, begin2, cut, shift);
        } else if x == y {
          DropFirst(a, Rest(begin1), b, positions.Rest(begin2), cut, shift, x);
          cut, shift := y + 1, shift + 1;
          Stepped(begin1);
          positions.Stepped(begin2);
          begin1, begin2 := Step(begin1), positions.Step(begin2);
        } else {
          PassSecond(a, Rest(begin1), b, positions.Rest(begin2), cut, shift, y);
          cut, shift := y + 1, shift + 1;
          positions.Stepped(begin2);
          begin2 := positions.Step(begin2);
        }
      }
      RestDecides(begin1);
      positions.RestDecides(begin2);
      while begin1.pos != End()
        invariant On(begin1) && positions.On(begin2)
        invariant begin1.pos == End() || positions.Rest(begin2) == {}
        invariant Erasing(builder, begin1, positions, begin2, cut, shift)
        decreases Rest(begin1)
      {
        begin1 := EraseOwn(builder, begin1, positions, begin2, cut, shift);
      }
      RestDecides(begin1);
      assert a - {} == a;
      chunks := builder.Finalize();
    }

    /** Erase positions and close the gaps. */
    method EraseAllAt(positions: IndexSet)
      requires Valid() && positions.Valid()
      modifies this
      ensures Valid() && Members() == EraseAll(old(Members()), old(positions.Members()))
    {
      hide Flat, Start, Total, Sorted, Index, Indices, Covered, ChunksOk, InsertAll, ShiftAll, EraseAll;
      Trivially(Members(), positions.Members());
      EmptyData();
      positions.EmptyData();
      if data == [] || positions.data == [] {
        return;
      }
      data := Sieved(positions);
    }

    // -------------------------------------------------------------------------
    // Adding what another change deletes

    /** The ranges up to a position have been passed, the last of which begins by `index`. */
    ghost predicate Skipped(p: Pos, shift: int, until: nat, index: nat)
      reads this
      requires Kept() && Here(p)
    {
      RankDecides(p);
      && shift == Passed(p)
      && if Rank(p) == 0 then until == 0
         else Ranges()[Rank(p) - 1].first <= index && until == Ranges()[Rank(p) - 1].second
    }

    /** Pass the ranges that begin by `index`, which is then a member or has its unshifted position. */
    method Skip(from: Pos, shift0: int, until0: nat, index: nat) returns (p: Pos, shift: int, until: nat)
      requires Valid() && Here(from) && Skipped(from, shift0, until0, index)
      ensures Here(p) && Skipped(p, shift, until, index)
      ensures index < until <==> index in Members()
      ensures index >= until ==> index - shift == IndexAlgebra.Unshift(Members(), index)
    {
      hide Flat, Start, Total, Sorted, Index, Indices, Covered, ChunksOk, CountBelow;
      p, shift, until := from, shift0, until0;
      while p != End() && Get(p).first <= index
        invariant Here(p) && Skipped(p, shift, until, index)
        decreases |Ranges()| - Rank(p)
      {
        PassedRange(p);
        shift := shift + (Get(p).second - Get(p).first);
        until := Get(p).second;
        p := Next(p);
        RankDecides(p);
      }
      RankDecides(p);
      SkippedDecides(p, until, index);
      if index >= until {
        CountPrefix(Ranges(), Rank(p), index);
      }
    }

    lemma SkippedDecides(p: Pos, until: nat, index: nat)
      requires Valid() && Here(p) && Skipped(p, Passed(p), until, index)
      requires p == End() || index < Get(p).first
      ensures index < until <==> index in Members()
    {
      hide Flat, Start, Total, Index, Indices, ChunksOk;
      RankDecides(p);
      var rs, k := Ranges(), Rank(p);
      if index < until {
        assert rs[k - 1].first <= index < rs[k - 1].second;
      } else {
        NotCovered(rs, k, index);
      }
    }

    /** Built so far: the ranges up to a position, and `extra`. */
    ghost predicate Bringing(builder: IndexBuilding.ChunkedRangeVectorBuilder, p: Pos, extra: set<nat>)
      reads this, builder
      requires Kept() && Here(p)
    {
      RankDecides(p);
      && builder.Valid()
      && builder.Members() == Indices(Ranges()[..Rank(p)]) + extra
      && forall m <- builder.Members() :: Rank(p) < |Ranges()| ==> m < Ranges()[Rank(p)].first
    }

    /** Index by index. */
    method CopyRange(builder: IndexBuilding.ChunkedRangeVectorBuilder, p: Pos, ghost extra: set<nat>)
      requires Valid() && Here(p) && p != End() && Bringing(builder, p, extra)
      modifies builder
      ensures Bringing(builder, Next(p), extra) && (builder.CountsExact() <==> old(builder.CountsExact()))
    {
      hide Flat, Start, Total, Sorted, Index, Indices, Covered, ChunksOk;
      ghost var was := builder.Members();
      var r := Get(p);
      OrderAt(Ranges(), Rank(p));
      builder.EndsBefore(r.first);
      for i := r.first to r.second
        invariant builder.Valid() && builder.Members() == was + Interval(r.first, i) && EndsBy(builder.Built(), i)
        invariant builder.CountsExact() <==> old(builder.CountsExact())
      {
        builder.PushIndex(i);
      }
      Brings(p, was, extra);
    }

    /** One more range. */
    lemma Brings(p: Pos, was: set<nat>, extra: set<nat>)
      requires Valid() && Here(p) && p != End() && Rank(p) < |Ranges()|
      requires was == Indices(Ranges()[..Rank(p)]) + extra && forall m <- was :: m < Get(p).first
      ensures var now, q := was + Interval(Get(p).first, Get(p).second), Next(p);
              && Rank(q) <= |Ranges()|
              && now == Indices(Ranges()[..Rank(q)]) + extra
              && forall m <- now :: Rank(q) < |Ranges()| ==> m < Ranges()[Rank(q)].first
    {
      hide Flat, Start, Total, Sorted, Index, Indices, Covered, ChunksOk;
      RankDecides(Next(p));
      PrefixIndices(Ranges(), Rank(p));
      OrderAt(Ranges(), Rank(p));
      OrderAt(Ranges(), Rank(p) + 1);
    }

    /** The ranges up to a position, `shift` indices in all, end before an index so shifted. */
    ghost predicate Reached(p: Pos, shift: int, index: nat)
      reads this
    {
      && Kept() && Here(p)
      && shift == Passed(p) && index + shift >= 0 && Past(p, index + shift)
    }

    /** Copy the ranges that an index, already unshifted, has to pass. */
    method CopyUpTo(builder: IndexBuilding.ChunkedRangeVectorBuilder, from: Pos, shift0: int, index: nat,
                    ghost extra: set<nat>)
      returns (p: Pos, shift: int)
      requires Valid() && Reached(from, shift0, index) && Bringing(builder, from, extra)
      modifies builder
      ensures Reached(p, shift, index) && Bringing(builder, p, extra)
      ensures builder.CountsExact() <==> old(builder.CountsExact())
      ensures index + shift == IndexAlgebra.Shift(Members(), index)
      ensures p != End() ==> index + shift < Get(p).first
    {
      hide Flat, Start, Total, Sorted, Index, Indices, Covered, ChunksOk, Bringing, IndexAlgebra.Shift;
      p, shift := from, shift0;
      while p != End() && Get(p).first <= index + shift
        invariant Reached(p, shift, index) && Bringing(builder, p, extra)
        invariant builder.CountsExact() <==> old(builder.CountsExact())
        decreases |Ranges()| - Rank(p)
      {
        PassedRange(p);
        OrderAt(Ranges(), Rank(p));
        CopyRange(builder, p, extra);
        shift := shift + (Get(p).second - Get(p).first);
        p := Next(p);
        RankDecides(p);
      }
      RankDecides(p);
      ShiftIs(Ranges(), Rank(p), index, index + shift);
    }

    /** Something brought in comes last, if anything has been built. */
    ghost predicate Capped(builder: IndexBuilding.ChunkedRangeVectorBuilder, extra: set<nat>)
      reads builder
      requires builder.Valid()
    {
      builder.Members() == {} || exists y <- extra :: Caps(y, builder.Members())
    }

    /** Where the loop over the values stands. */
    ghost predicate BroughtUpTo(builder: IndexBuilding.ChunkedRangeVectorBuilder, p: Pos, shift: int,
                                shiftedBy: IndexSet, values: IndexSet, c: Cursor, reach: nat)
      reads this, builder, shiftedBy, values
      requires Kept() && Here(p) && values.On(c)
    {
      var extra := Brought(Members(), shiftedBy.Members(), values.Members() - values.Rest(c));
      && Upper(values.Members(), values.Rest(c))
      && Bringing(builder, p, extra) && builder.CountsExact() && Capped(builder, extra)
      && Reached(p, shift, reach)
      && forall x <- values.Rest(c) :: reach <= IndexAlgebra.Unshift(shiftedBy.Members(), x)
    }

    /** Push an index that belongs between what is built and what is left. */
    method PushBrought(builder: IndexBuilding.ChunkedRangeVectorBuilder, p: Pos, x: nat, ghost extra: set<nat>)
      requires Valid() && Here(p) && Bringing(builder, p, extra) && builder.CountsExact()
      requires Past(p, x) && (p != End() ==> x < Get(p).first) && forall m <- extra :: m < x
      modifies builder
      ensures Bringing(builder, p, extra + {x}) && builder.CountsExact() && Capped(builder, extra + {x})
    {
      hide Flat, Start, Total, Sorted, Index, Indices, Covered, ChunksOk;
      PrefixBelow(p, x);
      builder.EndsBefore(x);
      builder.PushIndex(x);
      assert Caps(x, builder.Members());
    }

    /** The current value comes last of those brought so far, and before those still to come. */
    lemma NextToBring(shiftedBy: IndexSet, values: IndexSet, c: Cursor)
      requires values.Valid() && values.On(c) && c.pos != values.End() && Upper(values.Members(), values.Rest(c))
      requires values.Current(c) !in shiftedBy.Members()
      ensures values.On(values.Step(c)) && Upper(values.Members(), values.Rest(values.Step(c)))
      ensures var x, was := values.Current(c), values.Members() - values.Rest(c);
              var extra, y := Brought(Members(), shiftedBy.Members(), was), Survive(shiftedBy.Members(), Members(), x);
              && (forall m <- extra :: m < y)
              && Brought(Members(), shiftedBy.Members(), values.Members() - values.Rest(values.Step(c))) == extra + {y}
              && forall z <- values.Rest(values.Step(c)) ::
                   IndexAlgebra.Unshift(shiftedBy.Members(), x) <= IndexAlgebra.Unshift(shiftedBy.Members(), z)
    {
      hide Flat, Start, Total, Sorted, Index, Indices, Covered, ChunksOk, Brought, Survive, IndexAlgebra.Unshift, Upper,
           From;
      var x, rest := values.Current(c), values.Rest(c);
      AddShiftedNext(Members(), shiftedBy.Members(), values.Members(), rest, x);
      UpperNext(values.Members(), rest, x);
      values.Stepped(c);
      forall z | z in rest
        ensures IndexAlgebra.Unshift(shiftedBy.Members(), x) <= IndexAlgebra.Unshift(shiftedBy.Members(), z)
      {
        UnshiftMonotone(shiftedBy.Members(), x, z);
      }
    }

    /** Bring one value over. */
    method Bring(builder: IndexBuilding.ChunkedRangeVectorBuilder, from: Pos, shift0: int,
                 shiftedBy: IndexSet, values: IndexSet, c: Cursor, ghost reach: nat, unshifted: nat)
      returns (p: Pos, shift: int)
      requires Valid() && shiftedBy.Valid() && values.Valid() && Here(from) && values.On(c) && c.pos != values.End()
      requires BroughtUpTo(builder, from, shift0, shiftedBy, values, c, reach)
      requires values.Current(c) !in shiftedBy.Members()
      requires unshifted == IndexAlgebra.Unshift(shiftedBy.Members(), values.Current(c))
      modifies builder
      ensures Here(p) && values.On(values.Step(c))
      ensures BroughtUpTo(builder, p, shift, shiftedBy, values, values.Step(c), unshifted)
    {
      hide Flat, Start, Total, Sorted, Index, Indices, Covered, ChunksOk, Brought, IndexAlgebra.Shift,
           IndexAlgebra.Unshift, Upper, From, Bringing, Capped, Rest, On, Step;
      ghost var extra := Brought(Members(), shiftedBy.Members(), values.Members() - values.Rest(c));
      NextToBring(shiftedBy, values, c);
      p, shift := CopyUpTo(builder, from, shift0, unshifted, extra);
      PushBrought(builder, p, unshifted + shift, extra);
    }

    lemma PrefixBelow(p: Pos, x: nat)
      requires Valid() && Here(p) && Past(p, x)
      ensures Rank(p) <= |Ranges()| && forall m <- Indices(Ranges()[..Rank(p)]) :: m < x
    {
      hide Flat, Start, Total, Index, Indices, Covered, ChunksOk;
      RankDecides(p);
      SplitRanges(Ranges(), Rank(p));
      Below(Ranges()[..Rank(p)], x);
    }

    /** What is left once all values have been brought over. */
    method FinishBringing(builder: IndexBuilding.ChunkedRangeVectorBuilder, from: Pos, shift: int,
                          shiftedBy: IndexSet, values: IndexSet, c: Cursor, ghost reach: nat)
      returns (chunks: seq<Chunk>)
      requires Valid() && Here(from) && values.On(c) && values.Rest(c) == {}
      requires BroughtUpTo(builder, from, shift, shiftedBy, values, c, reach)
      requires builder.planned == |Ranges()| / MAX_SIZE + 1
      modifies builder
      ensures Sorted(Flat(chunks)) && forall i :: 0 <= i < |chunks| ==> IndexBuilding.Closed(chunks[i])
      ensures Indices(Flat(chunks)) == IndexAlgebra.AddShiftedBy(Members(), shiftedBy.Members(), values.Members())
      ensures ChunksOk(chunks) <==>
                !builder.asWritten || CountsSurvive(Members(), shiftedBy.Members(), values.Members())
    {
      hide Flat, Start, Total, Sorted, Index, Indices, Covered, ChunksOk, Brought, BroughtUpTo, OpensLong,
           CountsSurvive, Capped, IndexAlgebra.AddShiftedBy;
      ghost var extra := Brought(Members(), shiftedBy.Members(), values.Members());
      BringingEnds(builder, from, shift, shiftedBy, values, c, reach);
      var end := CopyTail(builder, from, extra);
      AllBrought(shiftedBy, values);
      chunks := builder.Finalize();
      CountsSurviveIff(Ranges(), Flat(chunks), shiftedBy.Members(), values.Members());
    }

    /** The counts of the result are exact if and only if they survive as the source is written. */
    method BroughtOver(shiftedBy: IndexSet, values: IndexSet, asWritten: bool) returns (chunks: seq<Chunk>)
      requires Valid() && shiftedBy.Valid() && values.Valid()
      ensures Sorted(Flat(chunks)) && forall i :: 0 <= i < |chunks| ==> IndexBuilding.Closed(chunks[i])
      ensures Indices(Flat(chunks)) == IndexAlgebra.AddShiftedBy(Members(), shiftedBy.Members(), values.Members())
      ensures ChunksOk(chunks) <==>
                !asWritten || CountsSurvive(Members(), shiftedBy.Members(), values.Members())
    {
      hide Flat, Start, Total, Sorted, Index, Indices, Covered, ChunksOk, Brought, IndexAlgebra.Unshift, BroughtUpTo;
      hide Rest, Skipped, OpensLong, CountsSurvive, Capped, On, Step, IndexAlgebra.AddShiftedBy;
      var builder := new IndexBuilding.ChunkedRangeVectorBuilder(data, asWritten);
      var oldIt, shiftIt := Begin(), shiftedBy.Begin();
      var skipUntil: nat, oldShift: int, newShift: int := 0, 0, 0;
      var c := values.First();
      ghost var reach: nat := 0;
      BringingStarts(builder, shiftedBy, values);
      while c.pos != values.End()
        invariant Here(oldIt) && shiftedBy.Here(shiftIt) && values.On(c)
        invariant BroughtUpTo(builder, oldIt, oldShift, shiftedBy, values, c, reach)
        invariant forall x <- values.Rest(c) :: shiftedBy.Skipped(shiftIt, newShift, skipUntil, x)
        decreases values.Rest(c)
      {
        var index := values.Current(c);
        shiftIt, newShift, skipUntil := shiftedBy.Skip(shiftIt, newShift, skipUntil, index);
        shiftedBy.SkippedLater(shiftIt, newShift, skipUntil, index);
        if index < skipUntil {
          BringNothing(builder, oldIt, oldShift, shiftedBy, values, c, reach);
        } else {
          oldIt, oldShift := Bring(builder, oldIt, oldShift, shiftedBy, values, c, reach, index - newShift);
          reach := index - newShift;
        }
        values.Stepped(c);
        c := values.Step(c);
      }
      values.RestDecides(c);
      chunks := FinishBringing(builder, oldIt, oldShift, shiftedBy, values, c, reach);
    }

    /** All values have been brought over. */
    ghost predicate AtTail(builder: IndexBuilding.ChunkedRangeVectorBuilder, p: Pos, extra: set<nat>)
      reads this, builder
    {
      Kept() && Here(p) && Bringing(builder, p, extra) && builder.CountsExact() && Capped(builder, extra)
    }

    ghost predicate InTail(builder: IndexBuilding.ChunkedRangeVectorBuilder, p: Pos, extra: set<nat>)
      reads this, builder
    {
      && Kept() && Here(p) && Bringing(builder, p, extra)
      && (builder.CountsExact() <==> !(builder.asWritten && OpensLong(builder.Built(), builder.planned, extra)))
    }

    /** The ranges that are left, each as a whole. */
    method CopyTail(builder: IndexBuilding.ChunkedRangeVectorBuilder, from: Pos, ghost extra: set<nat>) returns (p: Pos)
      requires Valid() && AtTail(builder, from, extra)
      modifies builder
      ensures p == End() && InTail(builder, p, extra)
    {
      hide Flat, Start, Total, Sorted, Index, Indices, Covered, ChunksOk, OpensLong;
      p := from;
      CappedRanges(builder, extra);
      NothingLate(builder.Built(), builder.planned, extra);
      while p != End()
        invariant InTail(builder, p, extra)
        decreases |Ranges()| - Rank(p)
      {
        RankDecides(p);
        OrderAt(Ranges(), Rank(p));
        builder.EndsBefore(Get(p).first);
        TailTouches(builder, p, extra);
        TailPush(builder.Built(), Get(p), builder.planned, extra);
        Brings(p, builder.Members(), extra);
        builder.PushBack(Get(p));
        p := Next(p);
        RankDecides(p);
      }
    }

    lemma CappedRanges(builder: IndexBuilding.ChunkedRangeVectorBuilder, extra: set<nat>)
      requires builder.Valid() && Capped(builder, extra)
      ensures builder.Built() == [] || exists y <- extra :: Caps(y, Indices(builder.Built()))
    {
      hide Flat, Indices;
      if builder.Members() == {} && builder.Built() != [] {
        FirstIsLeast(builder.Built());
      }
    }

    /** A range of the tail touches nothing but an index that was brought in. */
    lemma TailTouches(builder: IndexBuilding.ChunkedRangeVectorBuilder, p: Pos, extra: set<nat>)
      requires Valid() && Here(p) && p != End() && Bringing(builder, p, extra)
      ensures Late(Get(p), extra)
      ensures var rs := builder.Built();
              rs != [] && rs[|rs| - 1].second == Get(p).first ==> Get(p).first - 1 in extra
    {
      hide Flat, Start, Total, Index, Indices, ChunksOk;
      RankDecides(p);
      var rs, x := builder.Built(), Get(p).first;
      if rs != [] && rs[|rs| - 1].second == x {
        assert Covered(rs, x - 1);
        OrderAt(Ranges(), Rank(p));
        PrefixBelow(p, x - 1);
      }
    }

    lemma BringingStarts(builder: IndexBuilding.ChunkedRangeVectorBuilder, shiftedBy: IndexSet, values: IndexSet)
      requires Valid() && shiftedBy.Valid() && values.Valid()
      requires builder.Valid() && builder.Members() == {} && builder.CountsExact()
      ensures BroughtUpTo(builder, Begin(), 0, shiftedBy, values, values.First(), 0)
      ensures forall x <- values.Members() :: shiftedBy.Skipped(shiftedBy.Begin(), 0, 0, x)
    {
      hide Flat, Start, Total, Index, Indices, Covered, ChunksOk, Sorted, Brought, From, IndexAlgebra.Unshift;
      NonePassed();
      shiftedBy.NonePassed();
      NoIndices(Ranges());
      BroughtNone(Members(), shiftedBy.Members());
      assert values.Members() - values.Rest(values.First()) == {};
    }

    lemma SkippedLater(p: Pos, shift: int, until: nat, index: nat)
      requires Kept() && Here(p) && Skipped(p, shift, until, index)
      ensures forall x: nat :: x >= index ==> Skipped(p, shift, until, x)
    {
    }

    lemma BringNothing(builder: IndexBuilding.ChunkedRangeVectorBuilder, p: Pos, shift: int,
                       shiftedBy: IndexSet, values: IndexSet, c: Cursor, reach: nat)
      requires Valid() && values.Valid() && Here(p) && values.On(c) && c.pos != values.End()
      requires BroughtUpTo(builder, p, shift, shiftedBy, values, c, reach)
      requires values.Current(c) in shiftedBy.Members()
      ensures values.On(values.Step(c)) && BroughtUpTo(builder, p, shift, shiftedBy, values, values.Step(c), reach)
    {
      hide Flat, Start, Total, Sorted, Index, Indices, Covered, ChunksOk, Brought, IndexAlgebra.Unshift, Upper, From;
      values.Stepped(c);
      AddShiftedNext(Members(), shiftedBy.Members(), values.Members(), values.Rest(c), values.Current(c));
      UpperNext(values.Members(), values.Rest(c), values.Current(c));
    }

    lemma BringingEnds(builder: IndexBuilding.ChunkedRangeVectorBuilder, p: Pos, shift: int,
                       shiftedBy: IndexSet, values: IndexSet, c: Cursor, reach: nat)
      requires Kept() && Here(p) && values.On(c) && values.Rest(c) == {}
      requires BroughtUpTo(builder, p, shift, shiftedBy, values, c, reach)
      ensures AtTail(builder, p, Brought(Members(), shiftedBy.Members(), values.Members()))
    {
      hide Flat, Start, Total, Sorted, Index, Indices, Covered, ChunksOk, Brought, From, Rest, Bringing, Capped;
      assert values.Members() - {} == values.Members();
    }

    lemma AllBrought(shiftedBy: IndexSet, values: IndexSet)
      ensures Indices(Ranges()[..|Ranges()|]) + Brought(Members(), shiftedBy.Members(), values.Members())
           == IndexAlgebra.AddShiftedBy(Members(), shiftedBy.Members(), values.Members())
    {
      assert Ranges()[..|Ranges()|] == Ranges();
    }

    /** Add values given in a numbering with the members of `shiftedBy` and without those of this set.
        With `asWritten` the count of an unplanned chunk starts at 1, as the source has it, and the
        caches stay exact if and only if the counts survive that; otherwise it starts at the length
        of the range. */
    method AddShiftedBy(shiftedBy: IndexSet, values: IndexSet, asWritten: bool)
      requires Valid() && shiftedBy.Valid() && values.Valid()
      modifies this
      ensures Sorted(Ranges()) && forall i :: 0 <= i < |data| ==> IndexBuilding.Closed(data[i])
      ensures Members() == IndexAlgebra.AddShiftedBy(old(Members()), old(shiftedBy.Members()), old(values.Members()))
      ensures Valid() <==>
                !asWritten || CountsSurvive(old(Members()), old(shiftedBy.Members()), old(values.Members()))
      ensures old(|values.Members()| <= MAX_SIZE - |Ranges()| % MAX_SIZE) ==> Valid()
    {
      hide Flat, Start, Total, Sorted, Index, Indices, Covered, CountsSurvive, IndexAlgebra.AddShiftedBy;
      if |values.Members()| <= MAX_SIZE - |Ranges()| % MAX_SIZE {
        RangesAreStarts(Ranges());
        GuardSuffices(Members(), shiftedBy.Members(), values.Members());
      }
      values.EmptyData();
      if values.data == [] {
        NothingToAdd(Members(), shiftedBy.Members());
        return;
      }
      data := BroughtOver(shiftedBy, values, asWritten);
    }
  }

  lemma NothingToAdd(s: set<nat>, shiftedBy: set<nat>)
    ensures IndexAlgebra.AddShiftedBy(s, shiftedBy, {}) == s
  {
  }

  lemma TwoChunks(first: Range, second: Range)
    requires first.first < first.second < second.first < second.second
    ensures var d := [Chunk([first], first.first, first.second, Length(first)),
                      Chunk([second], second.first, second.second, Length(second))];
            && ChunksOk(d) && Flat(d) == [first, second] && Sorted(Flat(d))
            && Indices(Flat(d)) == Interval(first.first, first.second) + Interval(second.first, second.second)
  {
    var c := Chunk([first], first.first, first.second, Length(first));
    var c' := Chunk([second], second.first, second.second, Length(second));
    IndexBuilding.Units(first);
    IndexBuilding.Units(second);
    hide Flat, Total, Indices, Covered;
    FlatOne(c);
    Appended([c], c');
    assert [c] + [c'] == [c, c'] && [first] + [second] == [first, second];
    SortedConcat([first], [second]);
    IndicesConcat([first], [second]);
    IndicesOne(first);
    IndicesOne(second);
  }

  lemma CountTwo(first: Range, second: Range, lo: nat, hi: nat)
    requires Sorted([first, second]) && first.first <= lo <= first.second < second.first < hi <= second.second
    ensures CountBelow(Indices([first, second]), lo) == lo - first.first
    ensures CountBelow(Indices([first, second]), hi) == Length(first) + hi - second.first
  {
    hide Indices, Covered, CountBelow;
    CountAt([first, second], 0, lo);
    CountAt([first, second], 1, hi);
    assert [first, second][..1] == [first] && [first][..0] == [];
  }

  /** Of the ten members between 5 and 25, counting finds only the five of the first chunk. */
  method CountLeavesOutPart() returns (s: IndexSet, n: int)
    ensures fresh(s) && s.Valid() && s.Members() == Interval(0, 10) + Interval(20, 30)
    ensures CountBelow(s.Members(), 25) - CountBelow(s.Members(), 5) == 10 && n == 5
  {
    hide Flat, Total, Indices, Covered, CountBelow, Sorted, Interval;
    var first, second := Range(0, 10), Range(20, 30);
    s := new IndexSet();
    TwoChunks(first, second);
    s.data := [Chunk([first], 0, 10, 10), Chunk([second], 20, 30, 10)];
    CountTwo(first, second, 5, 25);
    assert s.Straddles(0, 5, 25);
    n := s.Count(5, 25);
  }

  /** Removing nothing from the middle of a range leaves two ranges that touch. */
  method RemoveNothingTouches() returns (s: IndexSet)
    ensures fresh(s) && s.Members() == Interval(0, 10) && s.Kept() && !s.Valid()
  {
    hide Flat, Total, Indices, Covered;
    s := new IndexSet();
    s.Set(10);
    ghost var rs := s.Ranges();
    OneRange(rs, 0, 10);
    s.Remove(5, 0);
    assert Interval(5, 5) == {};
  }

  /** An interval is stored as one range. */
  lemma OneRange(rs: seq<Range>, lo: nat, hi: nat)
    requires Sorted(rs) && lo < hi && Indices(rs) == Interval(lo, hi)
    ensures rs == [Range(lo, hi)] && forall x :: lo < x < hi ==> Inside(rs, x)
  {
    hide Indices, Covered;
    SortedOne(Range(lo, hi));
    IndicesOne(Range(lo, hi));
    SameRanges(rs, [Range(lo, hi)]);
    forall x | lo < x < hi ensures Inside(rs, x) {
      assert rs[0].first < x < rs[0].second;
    }
  }

  /** A set that is right and whose cached counts are not, after adding what is written above. */
  method AddShiftedByMiscounts() returns (own: IndexSet, values: IndexSet)
    ensures fresh(own) && fresh(values) && values.Valid() && values.Members() == Evens(MAX_SIZE)
    ensures own.Members() == Evens(MAX_SIZE) + Interval(1000, 1002) && Sorted(own.Ranges()) && !own.Valid()
  {
    hide Flat, Total, Indices, Covered, Sorted, Evens, CountsSurvive, IndexAlgebra.AddShiftedBy;
    own := new IndexSet();
    var nothing := new IndexSet();
    values := new IndexSet();
    own.InsertAt(1000, 2);
    assert own.Members() == Interval(1000, 1002);
    NoEvens();
    for k := 0 to MAX_SIZE
      invariant fresh(values) && values != own && values != nothing
      invariant values.Valid() && values.Members() == Evens(k)
      invariant own.Valid() && own.Members() == Interval(1000, 1002) && nothing.Valid() && nothing.Members() == {}
    {
      NextEven(k);
      values.Add(2 * k);
    }
    CountsNeedNotSurvive();
    own.AddShiftedBy(nothing, values, true);
  }

  lemma NoEvens()
    ensures Evens(0) == {}
  {
  }

  lemma NextEven(k: nat)
    ensures Evens(k + 1) == Evens(k) + {2 * k}
  {
  }
}
