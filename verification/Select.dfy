/** Selection in dep/apps/antelope/relation.c: choosing an index from the derived ranges, and the
    per-row step that either scans the relation or follows the index; when both report the same rows. */
module Select {
  import Ranges
  import opened Buckets
  import opened HeapSearch
  import opened HeapTree
  import opened Lvm
  import opened MaxHeap
  import opened Wrappers

  // ----- select_index

  /** An attribute as select_index sees it: is it indexed, and which range was derived for it. */
  datatype Attribute = Attribute(indexed: bool, range: Option<Ranges.Range>)

  predicate Candidate(a: Attribute) { a.indexed && a.range.Some? }

  function RangeWidth(a: Attribute): nat
    requires Candidate(a)
  {
    Span(a.range.value.min, a.range.value.max)
  }

  const ULONG_MAX := 0xffff_ffff

  /** The loop of select_index. min_range is never updated, so the test always succeeds: the last
      candidate is chosen, which is the one with the smallest range, as the comment above the loop
      promises, exactly when no candidate before it has a smaller one. */
  method SelectIndex(attributes: seq<Attribute>) returns (chosen: int)
    ensures chosen == -1 <==> forall i :: 0 <= i < |attributes| ==> !Candidate(attributes[i])
    ensures chosen != -1 ==> IsLastCandidate(attributes, chosen)
    ensures chosen != -1 ==>
              (HasSmallestRange(attributes, chosen) <==>
               forall j :: 0 <= j < chosen && Candidate(attributes[j]) ==>
                 RangeWidth(attributes[chosen]) <= RangeWidth(attributes[j]))
  {
    chosen := -1;
    var minRange := ULONG_MAX;
    for i := 0 to |attributes|
      invariant chosen == -1 <==> forall j :: 0 <= j < i ==> !Candidate(attributes[j])
      invariant chosen != -1 ==> 0 <= chosen < i && Candidate(attributes[chosen])
                                 && forall j :: chosen < j < i ==> !Candidate(attributes[j])
    {
      if Candidate(attributes[i]) {
        var range := RangeWidth(attributes[i]);
        if range <= minRange {
          chosen := i;
        }
      }
    }
  }

  ghost predicate IsLastCandidate(attributes: seq<Attribute>, c: int) {
    0 <= c < |attributes| && Candidate(attributes[c]) && forall j :: c < j < |attributes| ==> !Candidate(attributes[j])
  }

  ghost predicate HasSmallestRange(attributes: seq<Attribute>, c: nat)
    requires c < |attributes| && Candidate(attributes[c])
  {
    forall j :: 0 <= j < |attributes| && Candidate(attributes[j]) ==>
      RangeWidth(attributes[c]) <= RangeWidth(attributes[j])
  }

  /** An input for which select_index does not pick the smallest range. */
  lemma WiderRangeChosen()
    ensures var attributes := [Attribute(true, Some(Ranges.Range(5, 5))), Attribute(true, Some(Ranges.Range(0, 9)))];
            IsLastCandidate(attributes, 1) && !HasSmallestRange(attributes, 1)
  {
    var attributes := [Attribute(true, Some(Ranges.Range(5, 5))), Attribute(true, Some(Ranges.Range(0, 9)))];
    assert Candidate(attributes[0]) && RangeWidth(attributes[0]) == 0 && RangeWidth(attributes[1]) == 9;
  }

  // ----- index_get_iterator

  const DB_INDEX_COST := 64

  predicate Granted(range: Ranges.Range, cardinality: nat) {
    Span(range.min, range.max) == 0 || Span(range.min, range.max) <= cardinality / DB_INDEX_COST
  }

  /** An index is used for a single value, and for ranges that span at most a 64th of the rows; a range whose minimum is
      above its maximum spans what is left of the type. */
  lemma GrantedIff(range: Ranges.Range, cardinality: nat)
    ensures Granted(range, cardinality) <==>
              || range.min == range.max
              || (range.min < range.max && 64 * (range.max - range.min) <= cardinality)
              || (range.min > range.max && 64 * (range.max - range.min + 0x1_0000_0000) <= cardinality)
  {
    SpanOfRange(range.min, range.max);
  }

  /** For an index without range queries an iterator is granted only over a narrow range; an empty
      range may be one. */
  method GetIterator(range: Ranges.Range, cardinality: nat) returns (it: Iterator?)
    ensures it != null <==> Granted(range, cardinality)
    ensures it != null ==> fresh(it) && it.minValue == range.min && it.maxValue == range.max && it.nextItemNo == 0
  {
    var span := Span(range.min, range.max);
    if span > 0 && span > cardinality / DB_INDEX_COST {
      return null;
    }
    it := new Iterator(range.min, range.max);
  }

  // ----- rows and the index over one of their attributes

  type Row = env: Env | |env| == VARIABLES witness seq(VARIABLES, _ => 0)

  /** What index_insert has stored for the first n rows: each tuple id under the row's value. */
  ghost function RowPairs(rows: seq<Row>, id: VarId, n: nat): multiset<Pair>
    requires n <= |rows| <= 65536
  {
    if n == 0 then multiset{} else RowPairs(rows, id, n - 1) + multiset{Pair(KeyOf(rows[n - 1][id]), n - 1)}
  }

  /** The index of attribute id holds every row once, and nothing else. */
  ghost predicate Indexes(contents: seq<seq<Pair>>, rows: seq<Row>, id: VarId) {
    |rows| <= 65536 && Stored(contents) == RowPairs(rows, id, |rows|)
  }

  lemma {:induction false} PairCount(rows: seq<Row>, id: VarId, n: nat, p: Pair)
    requires n <= |rows| <= 65536
    ensures RowPairs(rows, id, n)[p] == if p.value < n && p.key == KeyOf(rows[p.value][id]) then 1 else 0
    decreases n
  {
    hide KeyOf;
    if n > 0 {
      PairCount(rows, id, n - 1, p);
    }
  }

  ghost predicate Satisfies(condition: Logic, row: Row) { LogicMeaning(condition, row) == Decided(true) }

  datatype Outcome = GotRow(tuple: nat) | Continue | Finished | IndexError

  /** The part of a query handle that relation_process_select uses; code is the compiled condition,
      searchIndex is DB_HANDLE_FLAG_SEARCH_INDEX, unique the indexed attribute's ATTRIBUTE_FLAG_UNIQUE. */
  class Handle {
    const rows: seq<Row>
    const code: seq<Bytes.byte>
    const searchIndex: bool
    const heap: Heap
    const it: Iterator
    const cache: SearchCache
    const unique: bool
    var tupleId: nat
    var currentRow: nat

    constructor (rows: seq<Row>, code: seq<Bytes.byte>, searchIndex: bool, heap: Heap, it: Iterator, cache: SearchCache,
                 unique: bool)
      ensures this.rows == rows && this.code == code && this.searchIndex == searchIndex && this.heap == heap
              && this.it == it
      ensures this.cache == cache && this.unique == unique && tupleId == 0 && currentRow == 0
    {
      this.rows, this.code, this.searchIndex, this.heap := rows, code, searchIndex, heap;
      this.it, this.cache, this.unique := it, cache, unique;
      tupleId, currentRow := 0, 0;
    }

    /** The body of relation_process_select once the tuple id is known: fetch the row, run the
        condition on it, report it if that is true. */
    method ProcessTuple(ghost condition: Logic) returns (outcome: Outcome)
      requires Bytes.At(code, 0, EncodeLogic(condition))
      modifies this
      ensures tupleId == old(tupleId) + 1
      ensures old(tupleId) >= |rows| ==> outcome == Finished && currentRow == old(currentRow)
      ensures old(tupleId) < |rows| ==>
                if Satisfies(condition, rows[old(tupleId)])
                then outcome == GotRow(old(tupleId)) && currentRow == old(currentRow) + 1
                else outcome == Continue && currentRow == old(currentRow)
    {
      if tupleId >= |rows| {
        tupleId := tupleId + 1;
        return Finished;
      }
      var row := rows[tupleId];
      tupleId := tupleId + 1;
      ExecuteCorrect(code, condition, row);
      if Execute(code, row) == True {
        currentRow := currentRow + 1;
        return GotRow(tupleId - 1);
      }
      return Continue;
    }

    /** relation_process_select without aggregation; found is the tuple the index delivered. An
        exhausted index ends the selection with DB_INDEX_ERROR when nothing was found under the
        last key of the range, with DB_FINISHED otherwise. */
    method ProcessSelect(ghost condition: Logic) returns (outcome: Outcome, ghost found: Option<key>)
      requires Bytes.At(code, 0, EncodeLogic(condition))
      requires searchIndex ==> heap.Valid() && heap.Ready(it, cache)
      modifies this, it, cache
      ensures !searchIndex ==> tupleId == old(tupleId) + 1 && outcome == RowOutcome(condition, rows, old(tupleId))
      ensures searchIndex ==> it.maxValue == old(it.maxValue) && heap.Ready(it, cache)
      ensures searchIndex && found.Some? ==>
                && it.nextItemNo > 0 && heap.AtPosition(it, cache, found.value)
                && old(heap.Left(it, cache, unique)) == [LastPosition(cache)] + heap.Left(it, cache, unique)
                && outcome == RowOutcome(condition, rows, found.value)
      ensures searchIndex && found.None? ==>
                && old(heap.Left(it, cache, unique)) == [] && it.minValue == it.maxValue
                && outcome == if it.nextItemNo == 0 then IndexError else Finished
    {
      hide Heap.Valid, Heap.Ready, Heap.Left, Heap.AtPosition, Satisfies, EncodeLogic, Bytes.At;
      found := None;
      if searchIndex {
        var r := heap.IndexGetNext(it, cache, unique);
        found := r;
        if r.None? {
          outcome := if it.nextItemNo == 0 then IndexError else Finished;
          return;
        }
        tupleId := r.value;
      }
      outcome := ProcessTuple(condition);
    }
  }

  ghost function RowOutcome(condition: Logic, rows: seq<Row>, t: nat): Outcome {
    if t >= |rows| then Finished else if Satisfies(condition, rows[t]) then GotRow(t) else Continue
  }

  // ----- whole selections

  /** The tuple ids below n whose row satisfies the condition. */
  ghost function MatchesBelow(condition: Logic, rows: seq<Row>, n: nat): set<nat>
    requires n <= |rows|
  {
    set t: nat | t < n && Satisfies(condition, rows[t])
  }

  ghost function Matches(condition: Logic, rows: seq<Row>): set<nat> { MatchesBelow(condition, rows, |rows|) }

  /** reported enumerates the set without repetition. */
  ghost predicate Lists(reported: seq<nat>, target: set<nat>) {
    && (forall t :: t in reported <==> t in target)
    && (forall i, j :: 0 <= i < j < |reported| ==> reported[i] != reported[j])
  }

  lemma ListsMore(reported: seq<nat>, target: set<nat>, t: nat)
    requires Lists(reported, target) && t !in target
    ensures Lists(reported + [t], target + {t})
  {
  }

  /** Repeated processing without an index reports exactly the satisfying rows. */
  method Scan(handle: Handle, ghost condition: Logic) returns (reported: seq<nat>)
    requires Bytes.At(handle.code, 0, EncodeLogic(condition)) && !handle.searchIndex && handle.tupleId == 0
    modifies handle, handle.it, handle.cache
    ensures Lists(reported, Matches(condition, handle.rows))
  {
    reported := [];
    ghost var rows := handle.rows;
    hide Satisfies;
    while true
      invariant handle.tupleId <= |rows| && Lists(reported, MatchesBelow(condition, rows, handle.tupleId))
      decreases |rows| - handle.tupleId
    {
      ghost var t := handle.tupleId;
      ghost var found;
      var outcome;
      outcome, found := handle.ProcessSelect(condition);
      if outcome == Finished {
        break;
      }
      if outcome.GotRow? {
        ListsMore(reported, MatchesBelow(condition, rows, t), t);
        reported := reported + [outcome.tuple];
      }
      assert MatchesBelow(condition, rows, t + 1) ==
             MatchesBelow(condition, rows, t) + if Satisfies(condition, rows[t]) then {t} else {};
    }
  }

  // ----- following an index

  ghost function TupleAt(contents: seq<seq<Pair>>, at: Position): nat {
    if at.bucket < |contents| && at.slot < |contents[at.bucket]| then contents[at.bucket][at.slot].value else 0
  }

  /** One call's outcome, and what the calls after it report. */
  ghost function Then(outcome: Outcome, rest: seq<nat>): seq<nat> {
    if outcome.GotRow? then [outcome.tuple] + rest else if outcome.Continue? then rest else []
  }

  /** The rows reported when the index delivers the tuples at the given positions. */
  ghost function Reports(condition: Logic, rows: seq<Row>, contents: seq<seq<Pair>>, found: seq<Position>): seq<nat> {
    if found == [] then []
    else Then(RowOutcome(condition, rows, TupleAt(contents, found[0])), Reports(condition, rows, contents, found[1..]))
  }

  /** What one call reports comes before what is still to be reported. */
  lemma ReportsStep(condition: Logic, rows: seq<Row>, contents: seq<seq<Pair>>, at: Position, rest: seq<Position>,
                    outcome: Outcome)
    requires outcome == RowOutcome(condition, rows, TupleAt(contents, at))
    ensures Reports(condition, rows, contents, [at] + rest) == Then(outcome, Reports(condition, rows, contents, rest))
  {
    hide RowOutcome, TupleAt, Then;
    assert ([at] + rest)[1..] == rest;
  }

  lemma ThenAppend(before: seq<nat>, outcome: Outcome, rest: seq<nat>)
    ensures before + Then(outcome, rest) ==
            if outcome.GotRow? then before + [outcome.tuple] + rest else if outcome.Continue? then before + rest
            else before
  {
  }

  lemma TupleFound(heap: Heap, it: Iterator, cache: SearchCache, value: key)
    requires heap.AtPosition(it, cache, value)
    ensures 0 <= cache.position < |cache.visited| && cache.start > 0
            && TupleAt(heap.contents, LastPosition(cache)) == value
  {
  }

  method SearchOnce(handle: Handle, reported: seq<nat>, ghost condition: Logic, ghost all: seq<nat>)
    returns (reported': seq<nat>, done: bool)
    requires Bytes.At(handle.code, 0, EncodeLogic(condition)) && handle.searchIndex
    requires handle.heap.Valid() && handle.heap.Ready(handle.it, handle.cache)
    requires all == reported + Reports(condition, handle.rows, handle.heap.contents,
                                       handle.heap.Left(handle.it, handle.cache, handle.unique))
    modifies handle, handle.it, handle.cache
    ensures handle.heap.Ready(handle.it, handle.cache)
    ensures done ==> all == reported'
    ensures !done ==>
              && |handle.heap.Left(handle.it, handle.cache, handle.unique)| <
                 old(|handle.heap.Left(handle.it, handle.cache, handle.unique)|)
              && all == reported' + Reports(condition, handle.rows, handle.heap.contents,
                                            handle.heap.Left(handle.it, handle.cache, handle.unique))
  {
    hide Heap.Valid, Heap.Ready, Heap.Left, Heap.AtPosition, Satisfies, EncodeLogic, Bytes.At, Reports, RowOutcome,
      TupleAt, Then;
    ghost var found;
    var outcome;
    outcome, found := handle.ProcessSelect(condition);
    if found.None? {
      NoReports(condition, handle.rows, handle.heap.contents);
    } else {
      TupleFound(handle.heap, handle.it, handle.cache, found.value);
      ghost var left := handle.heap.Left(handle.it, handle.cache, handle.unique);
      ReportsStep(condition, handle.rows, handle.heap.contents, LastPosition(handle.cache), left, outcome);
      ThenAppend(reported, outcome, Reports(condition, handle.rows, handle.heap.contents, left));
    }
    reported', done := reported, outcome == Finished || outcome == IndexError;
    if outcome.GotRow? {
      reported' := reported + [outcome.tuple];
    }
  }

  lemma NoReports(condition: Logic, rows: seq<Row>, contents: seq<seq<Pair>>)
    ensures Reports(condition, rows, contents, []) == []
  {
  }

  /** Repeated processing along an index reports the rows that its results lead to. */
  method IndexSearch(handle: Handle, ghost condition: Logic) returns (reported: seq<nat>)
    requires Bytes.At(handle.code, 0, EncodeLogic(condition)) && handle.searchIndex
    requires handle.heap.Valid() && handle.it.nextItemNo == 0
    modifies handle, handle.it, handle.cache
    ensures reported == Reports(condition, handle.rows, handle.heap.contents,
                                handle.heap.Abstract().Results(old(handle.it.minValue), old(handle.it.maxValue),
                                                               handle.unique))
  {
    hide Heap.Valid, Heap.Ready, Heap.Left, Heap.AtPosition, Satisfies, EncodeLogic, Bytes.At, Reports, RowOutcome,
      TupleAt, Index.Results;
    ghost var heap, it, cache, contents := handle.heap, handle.it, handle.cache, handle.heap.contents;
    ghost var all := Reports(condition, handle.rows, contents,
                             heap.Abstract().Results(it.minValue, it.maxValue, handle.unique));
    heap.FreshLeft(it, cache, handle.unique);
    reported := [];
    var done := false;
    while !done
      invariant heap.Valid() && heap.contents == contents && heap.Ready(it, cache)
      invariant !done ==>
                  all == reported + Reports(condition, handle.rows, contents, heap.Left(it, cache, handle.unique))
      invariant done ==> all == reported
      decreases !done, |heap.Left(it, cache, handle.unique)|
    {
      reported, done := SearchOnce(handle, reported, condition, all);
    }
  }

  // ----- which rows an index search reports

  /** The index delivers tuple t. */
  ghost predicate Delivers(contents: seq<seq<Pair>>, found: seq<Position>, t: nat) {
    exists at :: at in found && TupleAt(contents, at) == t
  }

  /** The satisfying rows among those delivered. */
  ghost function Delivered(condition: Logic, rows: seq<Row>, contents: seq<seq<Pair>>, found: seq<Position>): set<nat> {
    set t: nat | t < |rows| && Satisfies(condition, rows[t]) && Delivers(contents, found, t)
  }

  /** The tuples at the positions are those of different rows. */
  ghost predicate DistinctRows(rows: seq<Row>, contents: seq<seq<Pair>>, found: seq<Position>) {
    && (forall n :: 0 <= n < |found| ==> TupleAt(contents, found[n]) < |rows|)
    && forall m, n :: 0 <= m < n < |found| ==> TupleAt(contents, found[m]) != TupleAt(contents, found[n])
  }

  lemma DeliversFirst(contents: seq<seq<Pair>>, at: Position, rest: seq<Position>, t: nat)
    ensures Delivers(contents, [at] + rest, t) <==> TupleAt(contents, at) == t || Delivers(contents, rest, t)
  {
    hide TupleAt;
    if Delivers(contents, rest, t) {
      var found :| found in rest && TupleAt(contents, found) == t;
      assert found in [at] + rest;
    }
    assert at in [at] + rest;
  }

  lemma ListsFirst(t: nat, reported: seq<nat>, target: set<nat>)
    requires Lists(reported, target) && t !in target
    ensures Lists([t] + reported, target + {t})
  {
  }

  lemma {:induction false} ReportsAreDelivered(condition: Logic, rows: seq<Row>, contents: seq<seq<Pair>>,
                                               found: seq<Position>)
    requires DistinctRows(rows, contents, found)
    ensures Lists(Reports(condition, rows, contents, found), Delivered(condition, rows, contents, found))
    decreases |found|
  {
    hide TupleAt, Satisfies, Delivers, Lists;
    if found == [] {
      NothingDelivered(condition, rows, contents);
    } else {
      var rest, t := found[1..], TupleAt(contents, found[0]);
      ReportsAreDelivered(condition, rows, contents, rest);
      assert found == [found[0]] + rest;
      forall u: nat ensures Delivers(contents, found, u) <==> u == t || Delivers(contents, rest, u) {
        DeliversFirst(contents, found[0], rest, u);
      }
      assert !Delivers(contents, rest, t) by { DeliversAt(contents, rest, t); }
      var others := Delivered(condition, rows, contents, rest);
      ListsFirst(t, Reports(condition, rows, contents, rest), others);
      if Satisfies(condition, rows[t]) {
        assert Delivered(condition, rows, contents, found) == others + {t};
      } else {
        assert Delivered(condition, rows, contents, found) == others;
      }
    }
  }

  lemma DeliversAt(contents: seq<seq<Pair>>, found: seq<Position>, t: nat)
    requires forall n :: 0 <= n < |found| ==> TupleAt(contents, found[n]) != t
    ensures !Delivers(contents, found, t)
  {
    hide TupleAt;
  }

  lemma NothingDelivered(condition: Logic, rows: seq<Row>, contents: seq<seq<Pair>>)
    ensures Lists(Reports(condition, rows, contents, []), Delivered(condition, rows, contents, []))
  {
  }

  /** Every position in the range holds the key and the tuple of one row. */
  lemma RowAt(contents: seq<seq<Pair>>, rows: seq<Row>, id: VarId, at: Position, min: long, max: long)
    requires Indexes(contents, rows, id) && Wanted(contents, at, min, max)
    ensures var t := TupleAt(contents, at);
            t < |rows| && contents[at.bucket][at.slot] == Pair(KeyOf(rows[t][id]), t)
              && InKeyRange(KeyOf(rows[t][id]), min, max)
  {
    hide KeyOf, InKeyRange, Stored, RowPairs;
    var p := contents[at.bucket][at.slot];
    InBucketIsStored(contents, at.bucket, p);
    PairCount(rows, id, |rows|, p);
  }

  /** Every row whose key lies in the range has a position there. */
  lemma PositionOf(contents: seq<seq<Pair>>, rows: seq<Row>, id: VarId, t: nat, min: long, max: long)
    requires Indexes(contents, rows, id) && t < |rows| && InKeyRange(KeyOf(rows[t][id]), min, max)
    ensures exists at :: Wanted(contents, at, min, max) && TupleAt(contents, at) == t
  {
    hide KeyOf, InKeyRange, Stored, RowPairs;
    var p := Pair(KeyOf(rows[t][id]), t);
    PairCount(rows, id, |rows|, p);
    StoredSomewhere(contents, p);
    var i :| 0 <= i < |contents| && p in contents[i];
    var j :| 0 <= j < |contents[i]| && contents[i][j] == p;
    assert Wanted(contents, Position(i, j), min, max) && TupleAt(contents, Position(i, j)) == t;
  }

  lemma OneRowEach(contents: seq<seq<Pair>>, rows: seq<Row>, id: VarId, found: seq<Position>, min: long, max: long)
    requires Indexes(contents, rows, id) && Distinct(found)
             && forall at :: at in found ==> Wanted(contents, at, min, max)
    ensures DistinctRows(rows, contents, found)
  {
    hide KeyOf, InKeyRange, Stored, RowPairs, TupleAt;
    forall n | 0 <= n < |found| ensures TupleAt(contents, found[n]) < |rows| {
      RowAt(contents, rows, id, found[n], min, max);
    }
    forall m, n | 0 <= m < n < |found| ensures TupleAt(contents, found[m]) != TupleAt(contents, found[n]) {
      RowAt(contents, rows, id, found[m], min, max);
      RowAt(contents, rows, id, found[n], min, max);
      var a, b := found[m], found[n];
      if TupleAt(contents, a) == TupleAt(contents, b) {
        var p := contents[a.bucket][a.slot];
        TwoPlaces(contents, a.bucket, a.slot, b.bucket, b.slot, p);
        PairCount(rows, id, |rows|, p);
      }
    }
  }

  /** The satisfying rows whose key is that of a value in the range. */
  ghost function MatchesInRange(condition: Logic, rows: seq<Row>, id: VarId, min: long, max: long): set<nat> {
    set t: nat | t < |rows| && Satisfies(condition, rows[t]) && InKeyRange(KeyOf(rows[t][id]), min, max)
  }

  /** Without any assumption on condition and range an index search reports satisfying rows whose key
      lies in the range, each once; and if the keys of the range can be read, all of them. */
  lemma IndexReports(index: Index, rows: seq<Row>, id: VarId, condition: Logic, min: long, max: long, unique: bool)
    requires index.Valid() && Indexes(index.contents, rows, id) && Span(min, max) < 65536
    ensures var found := index.Results(min, max, unique);
            var reported := Reports(condition, rows, index.contents, found);
            && Lists(reported, Delivered(condition, rows, index.contents, found))
            && Delivered(condition, rows, index.contents, found) <= MatchesInRange(condition, rows, id, min, max)
            && (Searchable(index, min, max, unique) ==> Lists(reported, MatchesInRange(condition, rows, id, min, max)))
  {
    hide Index.Valid, Index.Results, Indexes, Wanted, TupleAt, Satisfies, KeyOf, InKeyRange, Span, Reports, Lists,
      Searchable;
    var found, contents := index.Results(min, max, unique), index.contents;
    ResultsSound(index, min, max, unique);
    ResultsCompleteIff(index, min, max, unique);
    OneRowEach(contents, rows, id, found, min, max);
    ReportsAreDelivered(condition, rows, contents, found);
    var delivered, wanted := Delivered(condition, rows, contents, found), MatchesInRange(condition, rows, id, min, max);
    forall t | t in delivered ensures t in wanted {
      var at :| at in found && TupleAt(contents, at) == t;
      RowAt(contents, rows, id, at, min, max);
    }
    if Searchable(index, min, max, unique) {
      forall t | t in wanted ensures t in delivered {
        PositionOf(contents, rows, id, t, min, max);
      }
      assert delivered == wanted;
    }
  }

  /** The rows reported along an index are those a scan would report exactly when every satisfying
      row is delivered; and if the keys of the range can be read, exactly when the key of every
      satisfying row is that of a value in the range. */
  lemma SearchIsScanIff(index: Index, rows: seq<Row>, id: VarId, condition: Logic, min: long, max: long, unique: bool)
    requires index.Valid() && Indexes(index.contents, rows, id) && Span(min, max) < 65536
    ensures var found := index.Results(min, max, unique);
            var same := Lists(Reports(condition, rows, index.contents, found), Matches(condition, rows));
            && (same <==> forall t :: t in Matches(condition, rows) ==> Delivers(index.contents, found, t))
            && (Searchable(index, min, max, unique) ==>
                  (same <==> forall t :: t in Matches(condition, rows) ==> InKeyRange(KeyOf(rows[t][id]), min, max)))
  {
    hide Index.Valid, Index.Results, Indexes, Satisfies, KeyOf, InKeyRange, Span, Reports, Searchable, Delivers;
    IndexReports(index, rows, id, condition, min, max, unique);
    var found := index.Results(min, max, unique);
    SameLists(Reports(condition, rows, index.contents, found), Delivered(condition, rows, index.contents, found),
              Matches(condition, rows));
    SameLists(Reports(condition, rows, index.contents, found), MatchesInRange(condition, rows, id, min, max),
              Matches(condition, rows));
    DeliveredAll(condition, rows, index.contents, found);
    InRangeAll(condition, rows, id, min, max);
  }

  lemma SameLists(reported: seq<nat>, a: set<nat>, b: set<nat>)
    requires a <= b
    ensures Lists(reported, a) ==> (Lists(reported, b) <==> b <= a)
  {
  }

  lemma DeliveredAll(condition: Logic, rows: seq<Row>, contents: seq<seq<Pair>>, found: seq<Position>)
    ensures var delivered, all := Delivered(condition, rows, contents, found), Matches(condition, rows);
            delivered <= all && (all <= delivered <==> forall t :: t in all ==> Delivers(contents, found, t))
  {
    hide Delivers, Satisfies;
  }

  lemma InRangeAll(condition: Logic, rows: seq<Row>, id: VarId, min: long, max: long)
    ensures var matches, all := MatchesInRange(condition, rows, id, min, max), Matches(condition, rows);
            matches <= all && (all <= matches <==> forall t :: t in all ==> InKeyRange(KeyOf(rows[t][id]), min, max))
  {
    hide Satisfies, InKeyRange, KeyOf;
  }

  // ----- the whole of a SELECT over one relation

  ghost predicate SoundlyDerived(condition: Logic) {
    Ranges.Derive(condition).Some? ==> Ranges.Sound(condition, Ranges.Derive(condition).value)
  }

  /** A sound range contains the key of every satisfying row. */
  lemma DerivedRangeCovers(condition: Logic, rows: seq<Row>, id: VarId)
    requires Ranges.Derive(condition).Some? && SoundlyDerived(condition) && Ranges.Derive(condition).value[id].Some?
    ensures var range := Ranges.Derive(condition).value[id].value;
            forall t :: t in Matches(condition, rows) ==> InKeyRange(KeyOf(rows[t][id]), range.min, range.max)
  {
    hide Ranges.Derive, KeyOf, InKeyRange;
    var ranges := Ranges.Derive(condition).value;
    var range := ranges[id].value;
    forall t | t in Matches(condition, rows) ensures InKeyRange(KeyOf(rows[t][id]), range.min, range.max) {
      assert Ranges.InBox(ranges, rows[t]);
      KeyRangeIff(KeyOf(rows[t][id]), range.min, range.max);
    }
  }

  ghost predicate Derived(condition: Logic, id: VarId) {
    Ranges.Derive(condition).Some? && Ranges.Derive(condition).value[id].Some?
  }

  ghost function RangeOf(condition: Logic, id: VarId): Ranges.Range
    requires Derived(condition, id)
  {
    Ranges.Derive(condition).value[id].value
  }

  /** The selection follows the index of the last indexed attribute for which a range is derived, if
      that range is narrow. */
  ghost predicate Follows(condition: Logic, indexed: set<VarId>, cardinality: nat, id: VarId) {
    && id in indexed && Derived(condition, id) && Granted(RangeOf(condition, id), cardinality)
    && forall j: VarId :: id < j ==> !(j in indexed && Derived(condition, j))
  }

  /** The ranges inferred from the code, the index chosen, and its iterator. */
  method ChooseIndex(code: seq<Bytes.byte>, indexed: set<VarId>, cardinality: nat, ghost condition: Logic)
    returns (used: Option<VarId>, it: Iterator?)
    requires Bytes.At(code, 0, EncodeLogic(condition))
    ensures used.None? ==> forall id: VarId :: !Follows(condition, indexed, cardinality, id)
    ensures used.Some? ==>
              && Follows(condition, indexed, cardinality, used.value) && it != null && fresh(it) && it.nextItemNo == 0
              && it.minValue == RangeOf(condition, used.value).min && it.maxValue == RangeOf(condition, used.value).max
  {
    hide Ranges.Derive, Ranges.DeriveAt, EncodeLogic, Bytes.At, Span;
    Ranges.DeriveCorrect(code, 0, condition);
    var ranges := Ranges.DeriveAt(code, 0).ranges;
    if ranges.None? {
      return None, null;
    }
    var attributes := seq(VARIABLES, i requires 0 <= i < VARIABLES => Attribute(i in indexed, ranges.value[i]));
    assert forall j: VarId :: Candidate(attributes[j]) <==> j in indexed && Derived(condition, j);
    var chosen := SelectIndex(attributes);
    if chosen < 0 {
      return None, null;
    }
    var id: VarId := chosen;
    it := GetIterator(ranges.value[id].value, cardinality);
    used := if it == null then None else Some(id);
  }

  /** The index of one attribute, searched over the range derived for it. */
  ghost function RowsAlong(condition: Logic, rows: seq<Row>, index: Index, id: VarId, unique: bool): seq<nat>
    requires index.Valid() && Derived(condition, id)
  {
    var range := RangeOf(condition, id);
    Reports(condition, rows, index.contents, index.Results(range.min, range.max, unique))
  }

  /** All keys of the derived range can be read completely. */
  ghost predicate Readable(condition: Logic, index: Index, id: VarId, unique: bool)
    requires Derived(condition, id)
  {
    Searchable(index, RangeOf(condition, id).min, RangeOf(condition, id).max, unique)
  }

  /** A selection along an index reports exactly the rows on which the condition holds if the derived
      ranges are sound and the keys of the range can be read; without sound ranges, exactly when the
      key of every such row is that of a value in the range. */
  lemma SelectionIff(condition: Logic, rows: seq<Row>, index: Index, indexed: set<VarId>, id: VarId, unique: bool)
    requires index.Valid() && Indexes(index.contents, rows, id) && Follows(condition, indexed, |rows|, id)
    requires Readable(condition, index, id, unique)
    ensures Lists(RowsAlong(condition, rows, index, id, unique), Matches(condition, rows)) <==>
            forall t :: t in Matches(condition, rows) ==>
              InKeyRange(KeyOf(rows[t][id]), RangeOf(condition, id).min, RangeOf(condition, id).max)
    ensures SoundlyDerived(condition) ==> Lists(RowsAlong(condition, rows, index, id, unique), Matches(condition, rows))
  {
    var range := RangeOf(condition, id);
    SearchIsScanIff(index, rows, id, condition, range.min, range.max, unique);
    if SoundlyDerived(condition) {
      DerivedRangeCovers(condition, rows, id);
    }
  }

  /** So they are for every condition whose comparisons have the variable on the left and whose ORs
      constrain the same variables on both sides. */
  lemma AlignedSelection(condition: Logic, rows: seq<Row>, index: Index, indexed: set<VarId>, id: VarId, unique: bool)
    requires Ranges.VariablesLeft(condition) && Ranges.Aligned(condition)
    requires index.Valid() && Indexes(index.contents, rows, id) && Follows(condition, indexed, |rows|, id)
    requires Readable(condition, index, id, unique)
    ensures Lists(RowsAlong(condition, rows, index, id, unique), Matches(condition, rows))
  {
    hide Index.Valid, Indexes, Readable, RowsAlong, Matches, Lists, Ranges.Sound;
    Ranges.AlignedIsSound(condition);
    SelectionIff(condition, rows, index, indexed, id, unique);
  }

  lemma AlongIndex(rows: seq<Row>, heap: Heap, indexed: set<VarId>, id: VarId, unique: bool, condition: Logic,
                   reported: seq<nat>)
    requires heap.Valid() && Follows(condition, indexed, |rows|, id)
    requires reported == Reports(condition, rows, heap.contents,
                                 heap.Abstract().Results(RangeOf(condition, id).min, RangeOf(condition, id).max,
                                                         unique))
    ensures reported == RowsAlong(condition, rows, heap.Abstract(), id, unique)
    ensures SoundlyDerived(condition) && Indexes(heap.contents, rows, id)
            && Readable(condition, heap.Abstract(), id, unique) ==>
              Lists(reported, Matches(condition, rows))
  {
    hide SoundlyDerived, Readable, Indexes, Heap.Valid, Reports, Matches, Lists, RangeOf, Index.Results;
    if Indexes(heap.contents, rows, id) && Readable(condition, heap.Abstract(), id, unique) {
      SelectionIff(condition, rows, heap.Abstract(), indexed, id, unique);
    }
  }

  /** generate_selection_result and the calls of relation_process_select that follow it: infer
      ranges, choose an index, search it or scan. unique holds the attributes with unique values.
      Whatever is chosen, the rows on which the condition holds are reported, each once, provided that
      the derived ranges are sound and an index that is followed can be read over its range. */
  method Run(rows: seq<Row>, code: seq<Bytes.byte>, heaps: map<VarId, Heap>, spare: Heap, unique: set<VarId>,
             ghost condition: Logic)
    returns (reported: seq<nat>, used: Option<VarId>)
    requires Bytes.At(code, 0, EncodeLogic(condition))
    requires forall id :: id in heaps ==> heaps[id].Valid()
    ensures used.None? ==>
              && (forall id: VarId :: !Follows(condition, heaps.Keys, |rows|, id))
              && Lists(reported, Matches(condition, rows))
    ensures used.Some? ==>
              && used.value in heaps && Follows(condition, heaps.Keys, |rows|, used.value)
              && reported == RowsAlong(condition, rows, heaps[used.value].Abstract(), used.value, used.value in unique)
    ensures
      && SoundlyDerived(condition)
      && (used.Some? ==>
            && Indexes(heaps[used.value].contents, rows, used.value)
            && Readable(condition, heaps[used.value].Abstract(), used.value, used.value in unique))
      ==> Lists(reported, Matches(condition, rows))
  {
    hide SoundlyDerived, Readable, RowsAlong, Indexes, Heap.Valid, Heap.Abstract, Reports, EncodeLogic, Bytes.At,
      Matches, Lists, Granted, RangeOf;
    var cache := new SearchCache();
    var it;
    used, it := ChooseIndex(code, heaps.Keys, |rows|, condition);
    if used.Some? {
      var handle := new Handle(rows, code, true, heaps[used.value], it, cache, used.value in unique);
      reported := IndexSearch(handle, condition);
      AlongIndex(rows, heaps[used.value], heaps.Keys, used.value, used.value in unique, condition, reported);
    } else {
      var none := new Iterator(0, 0);
      var handle := new Handle(rows, code, false, spare, none, cache, false);
      reported := Scan(handle, condition);
    }
  }

  /** a = 5 OR b = 7. */
  const ONE_SIDED_OR := Connect(Or, Compare(Equal, Leaf(Variable(0)), Leaf(Long(5))),
                                Compare(Equal, Leaf(Variable(1)), Leaf(Long(7))))

  /** With an index on a, WHERE a = 5 OR b = 7 follows it over the range [5, 5], and every row that
      holds because of b only is lost. */
  lemma OneSidedOrLosesRows(rows: seq<Row>, index: Index, t: nat, unique: bool)
    requires index.Valid() && Indexes(index.contents, rows, 0)
    requires t < |rows| && rows[t][1] == 7 && KeyOf(rows[t][0]) != 5
    ensures Follows(ONE_SIDED_OR, {0}, |rows|, 0) && RangeOf(ONE_SIDED_OR, 0) == Ranges.Range(5, 5)
    ensures t in Matches(ONE_SIDED_OR, rows) && t !in RowsAlong(ONE_SIDED_OR, rows, index, 0, unique)
  {
    hide Index.Valid, Indexes, Reports, Index.Results, Ranges.Derive, Satisfies, KeyOf, InKeyRange, Span;
    OneSidedOrRange();
    OneSidedOrHolds(rows[t]);
    PointRange(KeyOf(rows[t][0]), 5);
    IndexReports(index, rows, 0, ONE_SIDED_OR, 5, 5, unique);
  }

  lemma PointRange(k: key, v: long)
    ensures Span(v, v) == 0 && (InKeyRange(k, v, v) <==> k == KeyOf(v)) && (0 <= v <= KEY_MAX ==> KeyOf(v) == v)
  {
    SpanStep(v, v);
    KeyRangeStep(k, v, v);
  }

  lemma OneSidedOrRange()
    ensures Derived(ONE_SIDED_OR, 0) && RangeOf(ONE_SIDED_OR, 0) == Ranges.Range(5, 5)
  {
  }

  lemma OneSidedOrHolds(row: Row)
    requires row[1] == 7
    ensures Satisfies(ONE_SIDED_OR, row)
  {
  }

  /** On an attribute with unique values two rows whose values differ by a multiple of 65536 have the
      same key: a search that ends there does not read both. */
  lemma TwinKeysAreNotReadable(rows: seq<Row>, index: Index, id: VarId, t: nat, u: nat, min: long, max: long)
    requires index.Valid() && Indexes(index.contents, rows, id) && t < u < |rows| && Span(min, max) < 65536
    requires KeyOf(rows[t][id]) == KeyOf(rows[u][id]) == KeyOf(max)
    ensures !Searchable(index, min, max, true)
  {
    hide KeyOf, Index.Valid, Span, InKeyRange, Indexes;
    LastInRange(min, max);
    PositionOf(index.contents, rows, id, t, min, max);
    PositionOf(index.contents, rows, id, u, min, max);
    var a :| Wanted(index.contents, a, min, max) && TupleAt(index.contents, a) == t;
    var b :| Wanted(index.contents, b, min, max) && TupleAt(index.contents, b) == u;
    RowAt(index.contents, rows, id, a, min, max);
    RowAt(index.contents, rows, id, b, min, max);
    assert HitAt(index.contents, a, KeyOf(max)) && HitAt(index.contents, b, KeyOf(max));
  }
}
