/**
 Building a vector of chunks from ranges that arrive in order.
 */
module IndexBuilding {
  import opened IndexAlgebra
  import opened IndexRanges
  import opened RangeEdits

  const EMPTY_CHUNK: Chunk := Chunk([], 0, 0, 0)

  /** Everything about a finished chunk but its count. */
  ghost predicate Closed(c: Chunk) {
    && 0 < |c.data| <= MAX_SIZE
    && c.begin == c.data[0].first
    && c.end == c.data[|c.data| - 1].second
  }

  ghost predicate Counted(c: Chunk) {
    c.count == Total(c.data)
  }

  /** Appending to the ranges: joining the last one if they touch. */
  lemma Pushed(rs: seq<Range>, r: Range)
    requires Sorted(rs) && EndsBy(rs, r.first) && r.first < r.second
    ensures rs == [] || rs[|rs| - 1].second < r.first ==>
              Sorted(rs + [r]) && Indices(rs + [r]) == Indices(rs) + Interval(r.first, r.second)
    ensures rs != [] && rs[|rs| - 1].second == r.first ==>
              var rs' := rs[|rs| - 1 := Range(rs[|rs| - 1].first, r.second)];
              Sorted(rs') && Indices(rs') == Indices(rs) + Interval(r.first, r.second)
  {
    hide Sorted, Indices, Covered;
    SortedOne(r);
    SortedConcat(rs, [r]);
    IndicesConcat(rs, [r]);
    IndicesOne(r);
    if rs != [] {
      var k := |rs| - 1;
      Middle(rs, k);
      Update(rs, k, Range(rs[k].first, r.second));
      Parts(rs[..k], rs[k], rs[k + 1..]);
      Parts(rs[..k], Range(rs[k].first, r.second), rs[k + 1..]);
    }
  }

  lemma Units(r: Range)
    ensures Total([r]) == Length(r) && Total([]) == 0 && Flat([]) == []
  {
    TotalOne(r);
  }

  lemma SameCounted(c: Chunk, c': Chunk)
    requires c.data == c'.data && c.count == c'.count
    ensures Counted(c) <==> Counted(c')
  {
  }

  lemma CountedOne(c: Chunk, r: Range)
    requires c.data == [r]
    ensures Counted(c) <==> c.count == Length(r)
  {
    Units(r);
  }

  lemma LastOfPrefix(d: seq<Chunk>, o: nat)
    requires o < |d|
    ensures Flat(d[..o + 1]) == Flat(d[..o]) + d[o].data
  {
    assert d[..o + 1] == d[..o] + [d[o]];
    Appended(d[..o], d[o]);
  }

  /** Two chunks in place of the one at `o` and of the one after it, if there is one. */
  function Opened(d: seq<Chunk>, o: nat, closed: Chunk, next: Chunk): seq<Chunk>
    requires o < |d|
  {
    d[..o] + [closed, next] + if o + 1 < |d| then d[o + 2..] else []
  }

  lemma OpenedAt(d: seq<Chunk>, o: nat, closed: Chunk, next: Chunk)
    requires o < |d|
    ensures var now := Opened(d, o, closed, next);
            && |now| == (if o + 1 < |d| then |d| else o + 2)
            && now[..o] == d[..o] && now[o] == closed && now[o + 1] == next
            && (forall i :: 0 <= i < o ==> now[i] == d[i])
            && forall i :: o + 1 < i < |now| ==> now[i] == d[i]
  {
  }

  lemma TwoOfPrefix(was: seq<Chunk>, now: seq<Chunk>, o: nat, range: Range)
    requires o < |was| && o + 1 < |now| && now[..o] == was[..o]
    requires now[o].data == was[o].data && now[o + 1].data == [range]
    ensures Flat(now[..o + 2]) == Flat(was[..o + 1]) + [range]
  {
    hide Flat;
    LastOfPrefix(was, o);
    LastOfPrefix(now, o);
    LastOfPrefix(now, o + 1);
  }

  lemma {:induction false} FullChunks(d: seq<Chunk>, o: nat)
    requires o <= |d| && forall i :: 0 <= i < o ==> |d[i].data| == MAX_SIZE
    ensures |Flat(d[..o])| == MAX_SIZE * o
  {
    if o > 0 {
      FullChunks(d, o - 1);
      LastOfPrefix(d, o - 1);
    }
  }

  /** The ranges with one more, which joins the last one if they touch. */
  function Extended(rs: seq<Range>, r: Range): seq<Range> {
    if rs != [] && rs[|rs| - 1].second == r.first then rs[|rs| - 1 := Range(rs[|rs| - 1].first, r.second)]
    else rs + [r]
  }

  /** The next range opens a chunk that was not planned beforehand: chunks are filled one after another. */
  predicate OpensUnplanned(rs: seq<Range>, r: Range, planned: nat) {
    |Extended(rs, r)| > |rs| && |rs| % MAX_SIZE == 0 && |rs| / MAX_SIZE >= planned
  }

  /** With `asWritten` an unplanned chunk begins with the count 1, as the source has it; otherwise
      with the number of indices in its first range. */
  class ChunkedRangeVectorBuilder {
    var data: seq<Chunk>
    var outerPos: nat
    const asWritten: bool
    ghost const planned: nat  // the number of chunks there were to begin with

    ghost predicate Valid()
      reads this
    {
      && outerPos < |data|
      && (forall i :: 0 <= i < outerPos ==> Closed(data[i]) && |data[i].data| == MAX_SIZE)
      && (forall i :: outerPos < i < |data| ==> data[i] == EMPTY_CHUNK)
      && |data[outerPos].data| <= MAX_SIZE
      && (if data[outerPos].data == [] then outerPos == 0 && data[0] == EMPTY_CHUNK
          else data[outerPos].begin == data[outerPos].data[0].first)
      && Sorted(Built())
      && 0 < planned <= |data| && (|data| > planned ==> outerPos + 1 == |data|)
    }

    ghost function Built(): seq<Range>
      reads this
      requires outerPos < |data|
    {
      Flat(data[..outerPos + 1])
    }

    ghost function Members(): set<nat>
      reads this
      requires outerPos < |data|
    {
      Indices(Built())
    }

    ghost predicate CountsExact()
      reads this
    {
      forall i :: 0 <= i <= outerPos < |data| ==> Counted(data[i])
    }

    constructor (expected: seq<Chunk>, asWritten: bool)
      ensures Valid() && Built() == [] && Members() == {} && CountsExact()
      ensures planned == |Flat(expected)| / MAX_SIZE + 1 && this.asWritten == asWritten
    {
      var size := 0;
      for i := 0 to |expected|
        invariant size == |Flat(expected[..i])|
      {
        LastOfPrefix(expected, i);
        size := size + |expected[i].data|;
      }
      assert expected[..|expected|] == expected;
      data := seq(size / MAX_SIZE + 1, _ => EMPTY_CHUNK);
      planned := size / MAX_SIZE + 1;
      this.asWritten := asWritten;
      outerPos := 0;
      new;
      assert data[..1][..0] == [];
    }

    /** Replace the current chunk. */
    method Amend(c: Chunk)
      requires Valid() && 0 < |c.data| <= MAX_SIZE && c.begin == c.data[0].first
      requires Sorted(Flat(data[..outerPos]) + c.data)
      requires Counted(c) <==> Counted(data[outerPos])
      modifies this
      ensures Valid() && |data| == old(|data|) && Built() == old(Flat(data[..outerPos])) + c.data
      ensures CountsExact() <==> old(CountsExact())
    {
      hide Flat, Total, Sorted, Counted;
      ghost var was := data;
      data := data[outerPos := c];
      assert data[..outerPos] == was[..outerPos];
      LastOfPrefix(data, outerPos);
    }

    /** Close the current chunk and begin the next one. */
    method Open(range: Range)
      requires Valid() && |data[outerPos].data| == MAX_SIZE && Sorted(Built() + [range])
      modifies this
      ensures Valid() && Built() == old(Built()) + [range]
      ensures CountsExact() <==>
                old(CountsExact()) && (asWritten && old(outerPos + 1 >= |data|) ==> range.second == range.first + 1)
    {
      hide Flat, Total, Sorted, Counted, Opened;
      ghost var was := data;
      var c := data[outerPos];
      var closed := c.(end := c.data[|c.data| - 1].second);
      var next;
      if outerPos + 1 >= |data| {
        next := Chunk([range], range.first, 0, if asWritten then 1 else range.second - range.first);
      } else {
        next := Chunk([range], range.first, data[outerPos + 1].end, range.second - range.first);
      }
      OpenedAt(was, outerPos, closed, next);
      data := Opened(data, outerPos, closed, next);
      outerPos := outerPos + 1;
      SameCounted(closed, c);
      CountedOne(next, range);
      TwoOfPrefix(was, data, outerPos - 1, range);
    }

    /** Where the next chunk begins, and whether it was planned. */
    lemma Fill()
      requires Valid()
      ensures |Built()| == MAX_SIZE * outerPos + |data[outerPos].data|
      ensures Built() != [] ==>
                var last := data[outerPos].data;
                last != [] && Built()[|Built()| - 1] == last[|last| - 1]
      ensures |Built()| > 0 && |Built()| % MAX_SIZE == 0 <==> |data[outerPos].data| == MAX_SIZE
      ensures |data[outerPos].data| == MAX_SIZE ==>
                |Built()| / MAX_SIZE == outerPos + 1 && (outerPos + 1 >= |data| <==> outerPos + 1 >= planned)
    {
      hide Flat, Sorted, Total;
      FullChunks(data, outerPos);
      LastOfPrefix(data, outerPos);
    }

    /** Exact counts stay exact unless, as written, a range of several indices opens an unplanned chunk. */
    method PushBack(range: Range)
      requires Valid() && range.first < range.second && EndsBy(Built(), range.first)
      modifies this
      ensures Valid() && Built() == Extended(old(Built()), range)
      ensures Members() == old(Members()) + Interval(range.first, range.second)
      ensures EndsBy(Built(), range.second)
      ensures CountsExact() <==>
                && old(CountsExact())
                && (asWritten && OpensUnplanned(old(Built()), range, planned) ==> range.second == range.first + 1)
    {
      hide Flat, Total, Sorted, Indices, Covered, Closed;
      ghost var rs := Built();
      Fill();
      Pushed(rs, range);
      LastOfPrefix(data, outerPos);
      var c := data[outerPos];
      var len := range.second - range.first;
      TotalConcat(c.data, [range]);
      Units(range);
      ghost var front := Flat(data[..outerPos]);
      if c.data == [] {
        assert data[..outerPos] == [];
        Amend(Chunk([range], range.first, c.end, len));
      } else if range.first == c.data[|c.data| - 1].second {
        var last := |c.data| - 1;
        var joined := Range(c.data[last].first, range.second);
        TotalUpdate(c.data, last, joined);
        assert front + c.data[last := joined] == rs[|rs| - 1 := joined];
        Amend(c.(data := c.data[last := joined], count := c.count + len));
      } else if |c.data| < MAX_SIZE {
        assert front + (c.data + [range]) == rs + [range];
        Amend(c.(data := c.data + [range], count := c.count + len));
      } else {
        Open(range);
      }
    }

    lemma EndsBefore(x: nat)
      requires Valid() && forall m <- Members() :: m < x
      ensures EndsBy(Built(), x)
    {
      hide Flat, Indices;
      var rs := Built();
      if rs != [] {
        var last := rs[|rs| - 1];
        assert last.first <= last.second - 1 < last.second;
        assert last.second - 1 in Members();
      }
    }

    method PushIndex(index: nat)
      requires Valid() && EndsBy(Built(), index)
      modifies this
      ensures Valid() && Built() == Extended(old(Built()), Range(index, index + 1))
      ensures Members() == old(Members()) + {index} && EndsBy(Built(), index + 1)
      ensures CountsExact() <==> old(CountsExact())
    {
      PushBack(Range(index, index + 1));
      assert Interval(index, index + 1) == {index};
    }

    /** The chunks that were filled. */
    method Finalize() returns (chunks: seq<Chunk>)
      requires Valid()
      ensures Flat(chunks) == Built()
      ensures forall i :: 0 <= i < |chunks| ==> Closed(chunks[i])
      ensures forall i :: 0 <= i < |chunks| - 1 ==> |chunks[i].data| == MAX_SIZE
      ensures ChunksOk(chunks) <==> CountsExact()
    {
      hide Flat, Total, Sorted;
      chunks := data[..outerPos + 1];
      LastOfPrefix(data, outerPos);
      if data[outerPos].data == [] {
        chunks := chunks[..outerPos];
        assert chunks == data[..outerPos];
        Units(Range(0, 0));
        assert CountsExact();
      } else {
        var c := data[outerPos];
        var last := c.(end := c.data[|c.data| - 1].second);
        chunks := chunks[outerPos := last];
        assert chunks == data[..outerPos] + [last];
        Appended(data[..outerPos], last);
        assert Counted(last) <==> Counted(c);
      }
      assert forall i :: 0 <= i < |chunks| ==> (ChunkOk(chunks[i]) <==> Counted(chunks[i]));
      assert forall i :: 0 <= i < |chunks| ==> (Counted(data[i]) <==> Counted(chunks[i]));
    }
  }
}
