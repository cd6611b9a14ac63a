/** crates/aevum-db/src/merge.rs: the k-way merging iterator of the LSM engine. */
module Merge {
  import opened Integers
  import opened Bytes
  import opened Sorting

  type Value = Bytes

  /** What an input iterator yields: an entry, or an error. */
  datatype Item = Good(key: Bytes, seqNo: u64, value: Value) | Bad

  datatype HeapEntry = HeapEntry(key: Bytes, value: Value, seqNo: u64, source: nat)

  // ---------- HeapEntry::cmp ----------

  datatype Ordering = Less | Equal | Greater {
    function Then(other: Ordering): Ordering { if Equal? then other else this }
  }

  function CompareBytes(a: Bytes, b: Bytes): Ordering {
    if a == b then Equal else if LexLeq(a, b) then Less else Greater
  }

  function CompareInt(a: int, b: int): Ordering {
    if a < b then Less else if a == b then Equal else Greater
  }

  /** Reversed on keys, so that the maximum of the heap is the smallest key, newest first. */
  function Cmp(a: HeapEntry, b: HeapEntry): Ordering {
    CompareBytes(b.key, a.key).Then(CompareInt(a.seqNo, b.seqNo)).Then(CompareInt(a.source, b.source))
  }

  /** `a` leaves the heap no later than `b`. */
  predicate Precedes(a: HeapEntry, b: HeapEntry) { Cmp(a, b) != Less }

  /** Key ascending, then sequence number descending, then source index descending. */
  lemma PrecedesMeaning(a: HeapEntry, b: HeapEntry)
    ensures Precedes(a, b) <==>
            if a.key != b.key then LexLeq(a.key, b.key)
            else if a.seqNo != b.seqNo then a.seqNo > b.seqNo
            else a.source >= b.source
  {
    LexTotal(a.key, b.key);
    if LexLeq(a.key, b.key) && LexLeq(b.key, a.key) {
      LexAntisymmetric(a.key, b.key);
    }
  }

  lemma PrecedesOrder()
    ensures TotalPreorder(Precedes)
  {
    forall a: HeapEntry, b: HeapEntry ensures Precedes(a, b) || Precedes(b, a) {
      PrecedesMeaning(a, b);
      PrecedesMeaning(b, a);
      LexTotal(a.key, b.key);
    }
    forall a: HeapEntry, b: HeapEntry, c: HeapEntry | Precedes(a, b) && Precedes(b, c) ensures Precedes(a, c) {
      PrecedesTransitive(a, b, c);
    }
  }

  lemma PrecedesTransitive(a: HeapEntry, b: HeapEntry, c: HeapEntry)
    requires Precedes(a, b) && Precedes(b, c)
    ensures Precedes(a, c)
  {
    PrecedesMeaning(a, b);
    PrecedesMeaning(b, c);
    PrecedesMeaning(a, c);
    KeyOrder(a, b);
    KeyOrder(b, c);
    LexTransitive(a.key, b.key, c.key);
    if a.key == c.key && a.key != b.key {
      LexAntisymmetric(a.key, b.key);
    }
  }

  lemma KeyOrder(a: HeapEntry, b: HeapEntry)
    requires Precedes(a, b)
    ensures LexLeq(a.key, b.key)
  {
    PrecedesMeaning(a, b);
    LexTotal(a.key, b.key);
  }

  // ---------- the specification: queues, one per source ----------

  type Queues = seq<seq<HeapEntry>>

  /** Every entry of queue i carries source index i. */
  ghost predicate Tagged(q: Queues) {
    forall i, k :: 0 <= i < |q| && 0 <= k < |q[i]| ==> q[i][k].source == i
  }

  function Total(q: Queues): nat {
    if q == [] then 0 else Total(q[..|q| - 1]) + |q[|q| - 1]|
  }

  lemma {:induction false} TotalUpdate(q: Queues, i: nat, s: seq<HeapEntry>)
    requires i < |q|
    ensures Total(q[i := s]) == Total(q) - |q[i]| + |s|
  {
    var n := |q| - 1;
    if i < n {
      TotalUpdate(q[..n], i, s);
      assert q[i := s][..n] == q[..n][i := s];
    } else {
      assert q[i := s][..n] == q[..n];
    }
  }

  /** Queue b has the head that leaves first. */
  ghost predicate IsBest(q: Queues, b: nat) {
    && b < |q| && q[b] != []
    && forall i :: 0 <= i < |q| && q[i] != [] ==> Precedes(q[b][0], q[i][0])
  }

  ghost predicate AllEmpty(q: Queues) { forall i :: 0 <= i < |q| ==> q[i] == [] }

  lemma BestUnique(q: Queues, a: nat, b: nat)
    requires Tagged(q) && IsBest(q, a) && IsBest(q, b)
    ensures a == b
  {
    PrecedesMeaning(q[a][0], q[b][0]);
    PrecedesMeaning(q[b][0], q[a][0]);
    KeyOrder(q[a][0], q[b][0]);
    KeyOrder(q[b][0], q[a][0]);
    LexAntisymmetric(q[a][0].key, q[b][0].key);
  }

  lemma {:induction false} BestExists(q: Queues)
    requires !AllEmpty(q)
    ensures exists b: nat :: IsBest(q, b)
  {
    var n := |q| - 1;
    var init := q[..n];
    PrecedesOrder();
    if AllEmpty(init) {
      forall i | 0 <= i < n ensures q[i] == [] { assert init[i] == []; }
      assert IsBest(q, n);
    } else {
      BestExists(init);
      var b: nat :| IsBest(init, b);
      forall i | 0 <= i < n && q[i] != [] ensures Precedes(q[b][0], q[i][0]) { assert init[i] == q[i]; }
      if q[n] == [] || Precedes(q[b][0], q[n][0]) {
        assert IsBest(q, b);
      } else {
        assert IsBest(q, n);
      }
    }
  }

  ghost function Best(q: Queues): (b: nat)
    requires !AllEmpty(q)
    ensures IsBest(q, b)
  {
    BestExists(q);
    var b: nat :| IsBest(q, b);
    b
  }

  lemma PopSmaller(q: Queues)
    requires !AllEmpty(q)
    ensures var b := Best(q); Total(q[b := q[b][1..]]) < Total(q) && Total(q[b := []]) < Total(q)
  {
    TotalUpdate(q, Best(q), q[Best(q)][1..]);
    TotalUpdate(q, Best(q), []);
  }

  /** The merge as a plain function: take the best head until every queue is empty. */
  ghost function Merged(q: Queues): seq<HeapEntry>
    decreases Total(q)
  {
    if AllEmpty(q) then []
    else
      PopSmaller(q);
      var b := Best(q);
      [q[b][0]] + Merged(q[b := q[b][1..]])
  }

  /** All results of `next_entry` up to the first `None`. An entry whose key is below the last one
      returned is reported as an error; its source is then never read again. */
  ghost function Run(q: Queues, last: Option<Bytes>): seq<Option<HeapEntry>>
    decreases Total(q)
  {
    if AllEmpty(q) then []
    else
      PopSmaller(q);
      var b := Best(q);
      var e := q[b][0];
      if Regresses(last, e.key) then [None] + Run(q[b := []], last)
      else [Some(e)] + Run(q[b := q[b][1..]], Some(e.key))
  }

  lemma RunStep(q: Queues, last: Option<Bytes>)
    ensures AllEmpty(q) <==> Run(q, last) == []
    ensures !AllEmpty(q) ==>
            var b := Best(q);
            && Total(q[b := q[b][1..]]) < Total(q) && Total(q[b := []]) < Total(q)
            && if Regresses(last, q[b][0].key)
               then Run(q, last) == [None] + Run(q[b := []], last)
               else Run(q, last) == [Some(q[b][0])] + Run(q[b := q[b][1..]], Some(q[b][0].key))
  {
    if !AllEmpty(q) { PopSmaller(q); }
  }

  predicate Regresses(last: Option<Bytes>, key: Bytes) {
    last.Some? && last.value != key && LexLeq(key, last.value)
  }

  // ---------- what the merge yields ----------

  ghost function AllItems(q: Queues): multiset<HeapEntry> {
    if q == [] then multiset{} else AllItems(q[..|q| - 1]) + multiset(q[|q| - 1])
  }

  lemma {:induction false} AllItemsPop(q: Queues, i: nat)
    requires i < |q| && q[i] != []
    ensures AllItems(q) == multiset{q[i][0]} + AllItems(q[i := q[i][1..]])
  {
    var n := |q| - 1;
    HeadTail(q[i]);
    if i < n {
      AllItemsPop(q[..n], i);
      assert q[i := q[i][1..]][..n] == q[..n][i := q[i][1..]];
    } else {
      assert q[i := q[i][1..]][..n] == q[..n];
    }
  }

  lemma {:induction false} AllItemsMember(q: Queues, i: nat, k: nat)
    requires i < |q| && k < |q[i]|
    ensures q[i][k] in AllItems(q)
  {
    var n := |q| - 1;
    if i < n {
      AllItemsMember(q[..n], i, k);
    } else {
      assert q[i][k] in multiset(q[i]);
    }
  }

  lemma {:induction false} AllItemsFrom(q: Queues, e: HeapEntry) returns (i: nat, k: nat)
    requires e in AllItems(q)
    ensures i < |q| && k < |q[i]| && q[i][k] == e
  {
    var n := |q| - 1;
    if e in multiset(q[n]) {
      i := n;
      k :| 0 <= k < |q[n]| && q[n][k] == e;
    } else {
      i, k := AllItemsFrom(q[..n], e);
    }
  }

  lemma {:induction false} AllItemsEmpty(q: Queues)
    requires AllEmpty(q)
    ensures AllItems(q) == multiset{}
  {
    if q != [] {
      assert q[|q| - 1] == [];
      AllItemsEmpty(q[..|q| - 1]);
    }
  }

  /** Nothing is lost, invented or repeated. */
  lemma {:induction false} MergedIsPermutation(q: Queues)
    ensures multiset(Merged(q)) == AllItems(q)
    decreases Total(q)
  {
    if AllEmpty(q) {
      AllItemsEmpty(q);
    } else {
      PopSmaller(q);
      var b := Best(q);
      var q' := q[b := q[b][1..]];
      MergedIsPermutation(q');
      AllItemsPop(q, b);
      assert multiset([q[b][0]] + Merged(q')) == multiset{q[b][0]} + multiset(Merged(q'));
    }
  }

  ghost predicate SortedQueues(q: Queues) {
    forall i :: 0 <= i < |q| ==> Sorted(q[i], Precedes)
  }

  lemma BestPrecedesAll(q: Queues, e: HeapEntry)
    requires SortedQueues(q) && !AllEmpty(q) && e in AllItems(q)
    ensures Precedes(q[Best(q)][0], e)
  {
    var i, k := AllItemsFrom(q, e);
    assert Sorted(q[i], Precedes);
    if k > 0 {
      PrecedesTransitive(q[Best(q)][0], q[i][0], q[i][k]);
    }
  }

  lemma SortedTail(q: Queues, b: nat)
    requires SortedQueues(q) && b < |q| && q[b] != []
    ensures SortedQueues(q[b := q[b][1..]])
  {
    assert Sorted(q[b], Precedes);
    assert Sorted(q[b][1..], Precedes);
  }

  /** Sorted inputs merge into sorted output. */
  lemma {:induction false} MergedIsSorted(q: Queues)
    requires SortedQueues(q)
    ensures Sorted(Merged(q), Precedes)
    decreases Total(q)
  {
    hide Cmp;
    if !AllEmpty(q) {
      PopSmaller(q);
      var b := Best(q);
      var e, q' := q[b][0], q[b := q[b][1..]];
      SortedTail(q, b);
      MergedIsSorted(q');
      MergedIsPermutation(q');
      AllItemsPop(q, b);
      forall k | 0 <= k < |Merged(q')| ensures Precedes(e, Merged(q')[k]) {
        assert Merged(q')[k] in multiset(Merged(q'));
        BestPrecedesAll(q, Merged(q')[k]);
      }
    }
  }

  /** The first entry returned for a key is the newest one any source holds for it. */
  lemma FirstEntryIsNewest(q: Queues, k: nat, i: nat, j: nat)
    requires SortedQueues(q) && k < |Merged(q)| && i < |q| && j < |q[i]|
    requires q[i][j].key == Merged(q)[k].key
    requires forall m :: 0 <= m < k ==> Merged(q)[m].key != Merged(q)[k].key
    ensures q[i][j].seqNo <= Merged(q)[k].seqNo
  {
    var out := Merged(q);
    MergedIsSorted(q);
    MergedIsPermutation(q);
    AllItemsMember(q, i, j);
    assert q[i][j] in multiset(out);
    var m :| 0 <= m < |out| && out[m] == q[i][j];
    if m != k {
      assert Precedes(out[k], out[m]);
    }
    PrecedesMeaning(out[k], out[m]);
  }

  // ---------- the ordering error ----------

  ghost predicate KeysAscending(s: seq<HeapEntry>) {
    forall i, j :: 0 <= i < j < |s| ==> LexLeq(s[i].key, s[j].key)
  }

  ghost predicate AtLeast(last: Option<Bytes>, s: seq<HeapEntry>) {
    last.Some? ==> forall k :: 0 <= k < |s| ==> LexLeq(last.value, s[k].key)
  }

  /** Every queue has ascending keys, none below the last key returned. */
  ghost predicate Orderly(q: Queues, last: Option<Bytes>) {
    forall i :: 0 <= i < |q| ==> KeysAscending(q[i]) && AtLeast(last, q[i])
  }

  ghost predicate ErrorFree(run: seq<Option<HeapEntry>>) {
    forall k :: 0 <= k < |run| ==> run[k].Some?
  }

  /** After the best head is returned an orderly state stays orderly, and nothing regressed. */
  lemma OrderlyStep(q: Queues, last: Option<Bytes>)
    requires Orderly(q, last) && !AllEmpty(q)
    ensures var b := Best(q);
            !Regresses(last, q[b][0].key) && Orderly(q[b := q[b][1..]], Some(q[b][0].key))
  {
    var b := Best(q);
    var e, q' := q[b][0], q[b := q[b][1..]];
    assert KeysAscending(q[b]) && AtLeast(last, q[b]);
    if last.Some? && LexLeq(e.key, last.value) {
      LexAntisymmetric(e.key, last.value);
    }
    forall i | 0 <= i < |q'| ensures KeysAscending(q'[i]) && AtLeast(Some(e.key), q'[i]) {
      assert KeysAscending(q[i]);
      forall k | 0 <= k < |q'[i]| ensures LexLeq(e.key, q'[i][k].key) {
        if i != b {
          KeyOrder(e, q[i][0]);
          if k > 0 {
            LexTransitive(e.key, q[i][0].key, q[i][k].key);
          }
        }
      }
    }
  }

  /** Conversely, what the rest of the run needs was already true before the step. */
  lemma OrderlyBack(q: Queues, last: Option<Bytes>)
    requires !AllEmpty(q) && !Regresses(last, q[Best(q)][0].key)
    requires Orderly(q[Best(q) := q[Best(q)][1..]], Some(q[Best(q)][0].key))
    ensures Orderly(q, last)
  {
    var b := Best(q);
    var e, q' := q[b][0], q[b := q[b][1..]];
    if last.Some? {
      LexTotal(last.value, e.key);
    }
    forall i | 0 <= i < |q| ensures KeysAscending(q[i]) && AtLeast(last, q[i]) {
      assert KeysAscending(q'[i]) && AtLeast(Some(e.key), q'[i]);
      if i == b {
        assert q[b] == [e] + q'[b];
        LexTotal(e.key, e.key);
      }
      forall k | 0 <= k < |q[i]| ensures LexLeq(e.key, q[i][k].key) {
        assert i == b && k > 0 ==> q[i][k] == q'[i][k - 1];
      }
      if last.Some? {
        forall k | 0 <= k < |q[i]| ensures LexLeq(last.value, q[i][k].key) {
          LexTransitive(last.value, e.key, q[i][k].key);
        }
      }
    }
  }

  /** The ordering error is raised if and only if some source's keys are out of order. */
  lemma {:induction false} ErrorFreeIffOrderly(q: Queues, last: Option<Bytes>)
    ensures ErrorFree(Run(q, last)) <==> Orderly(q, last)
    decreases Total(q)
  {
    if !AllEmpty(q) {
      PopSmaller(q);
      var b := Best(q);
      var e, q' := q[b][0], q[b := q[b][1..]];
      if Regresses(last, e.key) {
        assert Run(q, last)[0].None?;
        if Orderly(q, last) { OrderlyStep(q, last); }
      } else {
        ErrorFreeIffOrderly(q', Some(e.key));
        var rest := Run(q', Some(e.key));
        assert Run(q, last) == [Some(e)] + rest;
        if ErrorFree(Run(q, last)) {
          forall k | 0 <= k < |rest| ensures rest[k].Some? { assert Run(q, last)[k + 1].Some?; }
          OrderlyBack(q, last);
        }
        if Orderly(q, last) { OrderlyStep(q, last); }
      }
    }
  }

  /** Without an error the run is exactly the merge. */
  lemma {:induction false} ErrorFreeRunIsMerge(q: Queues, last: Option<Bytes>)
    requires ErrorFree(Run(q, last))
    ensures |Run(q, last)| == |Merged(q)|
    ensures forall k :: 0 <= k < |Merged(q)| ==> Run(q, last)[k] == Some(Merged(q)[k])
    decreases Total(q)
  {
    if !AllEmpty(q) {
      PopSmaller(q);
      var b := Best(q);
      var e, q' := q[b][0], q[b := q[b][1..]];
      assert Run(q, last)[0].Some?;
      var rest := Run(q', Some(e.key));
      assert Run(q, last) == [Some(e)] + rest;
      forall k | 0 <= k < |rest| ensures rest[k].Some? { assert Run(q, last)[k + 1].Some?; }
      ErrorFreeRunIsMerge(q', Some(e.key));
    }
  }

  /** The returned keys of a run ascend from `last`. */
  ghost predicate Ascends(run: seq<Option<HeapEntry>>, last: Option<Bytes>) {
    && (last.Some? ==> forall k :: 0 <= k < |run| && run[k].Some? ==> LexLeq(last.value, run[k].value.key))
    && (forall i, j :: 0 <= i < j < |run| && run[i].Some? && run[j].Some? ==>
            LexLeq(run[i].value.key, run[j].value.key))
  }

  /** Even on inputs in no order at all, the keys that are returned never go backwards. */
  lemma {:induction false} ReturnedKeysAscend(q: Queues, last: Option<Bytes>)
    ensures Ascends(Run(q, last), last)
    decreases Total(q)
  {
    if !AllEmpty(q) {
      RunStep(q, last);
      var b := Best(q);
      var e := q[b][0];
      if Regresses(last, e.key) {
        ReturnedKeysAscend(q[b := []], last);
        AscendsCons(None, Run(q[b := []], last), last);
      } else {
        ReturnedKeysAscend(q[b := q[b][1..]], Some(e.key));
        AscendsCons(Some(e), Run(q[b := q[b][1..]], Some(e.key)), last);
      }
    }
  }

  lemma AscendsCons(first: Option<HeapEntry>, rest: seq<Option<HeapEntry>>, last: Option<Bytes>)
    requires first.None? ==> Ascends(rest, last)
    requires first.Some? ==> Ascends(rest, Some(first.value.key)) && !Regresses(last, first.value.key)
    ensures Ascends([first] + rest, last)
  {
    var run := [first] + rest;
    if first.Some? && last.Some? {
      LexTotal(last.value, first.value.key);
      forall k | 0 <= k < |run| && run[k].Some? ensures LexLeq(last.value, run[k].value.key) {
        if k > 0 {
          LexTransitive(last.value, first.value.key, rest[k - 1].value.key);
        }
      }
    }
  }

  function Errors(run: seq<Option<HeapEntry>>): nat {
    if run == [] then 0 else (if run[0].None? then 1 else 0) + Errors(run[1..])
  }

  function Sources(q: Queues): nat {
    if q == [] then 0 else Sources(q[..|q| - 1]) + (if q[|q| - 1] == [] then 0 else 1)
  }

  lemma {:induction false} SourcesUpdate(q: Queues, i: nat, s: seq<HeapEntry>)
    requires i < |q| && q[i] != []
    ensures Sources(q[i := s]) == Sources(q) - (if s == [] then 1 else 0)
  {
    var n := |q| - 1;
    if i < n {
      SourcesUpdate(q[..n], i, s);
      assert q[i := s][..n] == q[..n][i := s];
    } else {
      assert q[i := s][..n] == q[..n];
    }
  }

  /** A source that caused an error is never read again, so there is at most one error a source. */
  lemma {:induction false} AtMostOneErrorPerSource(q: Queues, last: Option<Bytes>)
    ensures Errors(Run(q, last)) <= Sources(q)
    decreases Total(q)
  {
    hide Run, Total;
    RunStep(q, last);
    if !AllEmpty(q) {
      var b := Best(q);
      if Regresses(last, q[b][0].key) {
        AtMostOneErrorPerSource(q[b := []], last);
        SourcesUpdate(q, b, []);
      } else {
        AtMostOneErrorPerSource(q[b := q[b][1..]], Some(q[b][0].key));
        SourcesUpdate(q, b, q[b][1..]);
      }
      assert Run(q, last) == [Run(q, last)[0]] + Run(q, last)[1..];
    }
  }

  /** The whole promise for inputs sorted by key and, within a key, newest first. */
  lemma MergeOfSortedInputs(q: Queues)
    requires SortedQueues(q)
    ensures |Run(q, None)| == |Merged(q)|
    ensures forall k :: 0 <= k < |Merged(q)| ==> Run(q, None)[k] == Some(Merged(q)[k])
    ensures Sorted(Merged(q), Precedes) && multiset(Merged(q)) == AllItems(q)
  {
    forall i | 0 <= i < |q| ensures KeysAscending(q[i]) {
      assert Sorted(q[i], Precedes);
      forall a, b | 0 <= a < b < |q[i]| ensures LexLeq(q[i][a].key, q[i][b].key) { KeyOrder(q[i][a], q[i][b]); }
    }
    assert Orderly(q, None);
    ErrorFreeIffOrderly(q, None);
    ErrorFreeRunIsMerge(q, None);
    MergedIsSorted(q);
    MergedIsPermutation(q);
  }

  // ---------- the iterator itself ----------

  /** The entries of one input before its first error. */
  function Usable(items: seq<Item>, source: nat): seq<HeapEntry> {
    if items == [] || items[0].Bad? then []
    else [HeapEntry(items[0].key, items[0].value, items[0].seqNo, source)] + Usable(items[1..], source)
  }

  ghost function InputQueues(inputs: seq<seq<Item>>): (q: Queues)
    ensures |q| == |inputs|
  {
    seq(|inputs|, i requires 0 <= i < |inputs| => Usable(inputs[i], i))
  }

  /** How many items an input yields before its first error. */
  function GoodCount(items: seq<Item>): (n: nat)
    ensures n <= |items| && (n < |items| ==> items[n].Bad?)
    ensures forall k :: 0 <= k < n ==> items[k].Good?
  {
    if items == [] || items[0].Bad? then 0 else 1 + GoodCount(items[1..])
  }

  /** The heap entry for one item of one input. */
  function EntryOf(item: Item, source: nat): HeapEntry
    requires item.Good?
  {
    HeapEntry(item.key, item.value, item.seqNo, source)
  }

  /** What is usable of an input is every item before its first error, in place. */
  lemma {:induction false} UsableExact(items: seq<Item>, source: nat)
    ensures |Usable(items, source)| == GoodCount(items)
    ensures forall k :: 0 <= k < GoodCount(items) ==> Usable(items, source)[k] == EntryOf(items[k], source)
  {
    if items != [] && items[0].Good? {
      UsableExact(items[1..], source);
    }
  }

  /** The queues of a fresh iterator, item by item of its inputs. */
  lemma InputQueuesExact(inputs: seq<seq<Item>>, i: nat)
    requires i < |inputs|
    ensures var q := InputQueues(inputs)[i];
            && |q| == GoodCount(inputs[i])
            && forall k :: 0 <= k < |q| ==> q[k] == EntryOf(inputs[i][k], i)
  {
    UsableExact(inputs[i], i);
  }

  /** All items before the errors, as a multiset. */
  ghost function InputItems(inputs: seq<seq<Item>>): multiset<HeapEntry> {
    if inputs == [] then multiset{}
    else
      var n := |inputs| - 1;
      var last := inputs[n];
      InputItems(inputs[..n])
      + multiset(seq(GoodCount(last), k requires 0 <= k < GoodCount(last) => EntryOf(last[k], n)))
  }

  lemma {:induction false} AllItemsAreInputItems(inputs: seq<seq<Item>>)
    ensures AllItems(InputQueues(inputs)) == InputItems(inputs)
  {
    if inputs != [] {
      var n := |inputs| - 1;
      var last := inputs[n];
      AllItemsAreInputItems(inputs[..n]);
      assert InputQueues(inputs)[..n] == InputQueues(inputs[..n]);
      UsableExact(last, n);
      assert Usable(last, n) == seq(GoodCount(last), k requires 0 <= k < GoodCount(last) => EntryOf(last[k], n));
    }
  }

  /** Every input is sorted by key and, within a key, newest first, up to its first error. */
  ghost predicate SortedInputs(inputs: seq<seq<Item>>) {
    forall i, j, k :: 0 <= i < |inputs| && 0 <= j < k < GoodCount(inputs[i]) ==> InOrder(inputs[i][j], inputs[i][k])
  }

  predicate InOrder(a: Item, b: Item)
    requires a.Good? && b.Good?
  {
    LexLeq(a.key, b.key) && (a.key == b.key ==> a.seqNo >= b.seqNo)
  }

  lemma SortedInputsQueues(inputs: seq<seq<Item>>)
    requires SortedInputs(inputs)
    ensures SortedQueues(InputQueues(inputs))
  {
    var q := InputQueues(inputs);
    forall i | 0 <= i < |q| ensures Sorted(q[i], Precedes) {
      InputQueuesExact(inputs, i);
      forall j, k | 0 <= j < k < |q[i]| ensures Precedes(q[i][j], q[i][k]) {
        assert InOrder(inputs[i][j], inputs[i][k]);
        PrecedesMeaning(q[i][j], q[i][k]);
      }
    }
  }

  /** The heap's entries of one source. */
  ghost function OfSource(heap: seq<HeapEntry>, i: nat): seq<HeapEntry> {
    if heap == [] then []
    else if heap[0].source == i then [heap[0]] + OfSource(heap[1..], i)
    else OfSource(heap[1..], i)
  }

  lemma {:induction false} OfSourceRemove(heap: seq<HeapEntry>, k: nat, i: nat)
    requires k < |heap|
    ensures heap[k].source != i ==> OfSource(heap[..k] + heap[k + 1..], i) == OfSource(heap, i)
    ensures heap[k].source == i && |OfSource(heap, i)| <= 1 ==>
            OfSource(heap, i) == [heap[k]] && OfSource(heap[..k] + heap[k + 1..], i) == []
  {
    var rest := heap[..k] + heap[k + 1..];
    if k == 0 {
      assert rest == heap[1..];
    } else {
      OfSourceRemove(heap[1..], k - 1, i);
      assert rest == [heap[0]] + (heap[1..][..k - 1] + heap[1..][k..]);
      assert rest[1..] == heap[1..][..k - 1] + heap[1..][k..];
    }
  }

  lemma {:induction false} OfSourceAppend(heap: seq<HeapEntry>, e: HeapEntry, i: nat)
    ensures OfSource(heap + [e], i) == OfSource(heap, i) + (if e.source == i then [e] else [])
  {
    if heap != [] {
      assert (heap + [e])[1..] == heap[1..] + [e];
      OfSourceAppend(heap[1..], e, i);
    }
  }

  lemma {:induction false} OfSourceMember(heap: seq<HeapEntry>, i: nat)
    ensures forall e :: e in OfSource(heap, i) <==> e in heap && e.source == i
  {
    if heap != [] {
      OfSourceMember(heap[1..], i);
      assert heap == [heap[0]] + heap[1..];
    }
  }

  lemma {:induction false} UsableTagged(items: seq<Item>, source: nat, k: nat)
    requires k < |Usable(items, source)|
    ensures Usable(items, source)[k].source == source
  {
    if k > 0 { UsableTagged(items[1..], source, k - 1); }
  }

  /** The queue of source i: its heap entry, then what its iterator will still yield. A source
      without a heap entry is never asked again. */
  ghost function QueueOf(heap: seq<HeapEntry>, iters: seq<seq<Item>>, exhausted: seq<bool>, i: nat): seq<HeapEntry>
    requires i < |iters| == |exhausted|
  {
    var head := OfSource(heap, i);
    if head == [] then [] else head + (if exhausted[i] then [] else Usable(iters[i], i))
  }

  ghost function QueuesOf(heap: seq<HeapEntry>, iters: seq<seq<Item>>, exhausted: seq<bool>): (q: Queues)
    requires |iters| == |exhausted|
    ensures |q| == |iters|
  {
    seq(|iters|, i requires 0 <= i < |iters| => QueueOf(heap, iters, exhausted, i))
  }

  /** At most one heap entry per source, every entry from a real source. */
  ghost predicate HeapOk(heap: seq<HeapEntry>, n: nat) {
    && (forall e :: e in heap ==> e.source < n)
    && (forall i: nat :: i < n ==> |OfSource(heap, i)| <= 1)
  }

  lemma QueueAt(heap: seq<HeapEntry>, iters: seq<seq<Item>>, exhausted: seq<bool>)
    requires |iters| == |exhausted|
    ensures forall i :: 0 <= i < |iters| ==>
            QueuesOf(heap, iters, exhausted)[i] == QueueOf(heap, iters, exhausted, i)
  {
  }

  /** A change that touches one source replaces one queue. */
  lemma QueuesAfter(heap: seq<HeapEntry>, iters: seq<seq<Item>>, exhausted: seq<bool>,
                    heap': seq<HeapEntry>, iters': seq<seq<Item>>, exhausted': seq<bool>, s: nat, queue: seq<HeapEntry>)
    requires s < |iters| == |exhausted| == |iters'| == |exhausted'|
    requires QueueOf(heap', iters', exhausted', s) == queue
    requires forall j: nat :: j < |iters| && j != s ==>
        OfSource(heap', j) == OfSource(heap, j) && iters'[j] == iters[j] && exhausted'[j] == exhausted[j]
    ensures QueuesOf(heap', iters', exhausted') == QueuesOf(heap, iters, exhausted)[s := queue]
  {
    var q, q' := QueuesOf(heap, iters, exhausted), QueuesOf(heap', iters', exhausted');
    forall j | 0 <= j < |q| ensures q'[j] == q[s := queue][j] {
    }
  }

  class MergingIterator {
    var heap: seq<HeapEntry>
    var iters: seq<seq<Item>>
    var exhausted: seq<bool>
    var lastKey: Option<Bytes>

    ghost predicate Valid()
      reads this
    {
      |iters| == |exhausted| && HeapOk(heap, |iters|)
    }

    ghost function Pending(): Queues
      reads this
      requires Valid()
    {
      QueuesOf(heap, iters, exhausted)
    }

    constructor (inputs: seq<seq<Item>>)
      ensures Valid() && lastKey == None
      ensures Pending() == InputQueues(inputs)
    {
      heap, iters, lastKey := [], inputs, None;
      exhausted := seq(|inputs|, _ => false);
      new;
      for i := 0 to |inputs|
        invariant Valid() && |iters| == |inputs| && lastKey == None
        invariant forall j :: 0 <= j < i ==> QueueOf(heap, iters, exhausted, j) == Usable(inputs[j], j)
        invariant forall j: nat :: i <= j < |inputs| ==>
            OfSource(heap, j) == [] && iters[j] == inputs[j] && !exhausted[j]
      {
        PushNext(i);
      }
    }

    /** Moves the next usable entry of source `i` into the heap. */
    method PushNext(i: nat)
      requires Valid() && i < |iters| && OfSource(heap, i) == []
      modifies this
      ensures Valid() && |iters| == old(|iters|) && lastKey == old(lastKey)
      ensures QueueOf(heap, iters, exhausted, i) == if old(exhausted[i]) then [] else Usable(old(iters[i]), i)
      ensures forall j: nat :: j < |iters| && j != i ==>
          OfSource(heap, j) == old(OfSource(heap, j)) && iters[j] == old(iters[j]) && exhausted[j] == old(exhausted[j])
    {
      if exhausted[i] {
        return;
      }
      if iters[i] == [] {
        exhausted := exhausted[i := true];
        return;
      }
      var item := iters[i][0];
      iters := iters[i := iters[i][1..]];
      match item {
        case Good(key, seqNo, value) =>
          var e := HeapEntry(key, value, seqNo, i);
          forall j: nat ensures OfSource(heap + [e], j) == OfSource(heap, j) + (if i == j then [e] else []) {
            OfSourceAppend(heap, e, j);
          }
          heap := heap + [e];
        case Bad =>
          exhausted := exhausted[i := true];
      }
    }

    /** `BinaryHeap::pop`: takes out the maximum of `Cmp`. */
    method PopMax() returns (e: HeapEntry)
      requires Valid() && heap != []
      modifies this`heap
      ensures Valid() && e in old(heap) && e.source < |iters|
      ensures forall x :: x in old(heap) ==> Precedes(e, x)
      ensures old(OfSource(heap, e.source)) == [e] && OfSource(heap, e.source) == []
      ensures forall j: nat :: j != e.source ==> OfSource(heap, j) == old(OfSource(heap, j))
    {
      PrecedesOrder();
      var k := 0;
      for i := 1 to |heap|
        invariant 0 <= k < i <= |heap|
        invariant forall j :: 0 <= j < i ==> Precedes(heap[k], heap[j])
      {
        if Cmp(heap[k], heap[i]) == Less {
          k := i;
        }
      }
      e := heap[k];
      ghost var before := heap;
      var rest := heap[..k] + heap[k + 1..];
      forall j: nat
        ensures e.source != j ==> OfSource(rest, j) == OfSource(before, j)
        ensures e.source == j ==> OfSource(before, j) == [e] && OfSource(rest, j) == []
      {
        OfSourceRemove(before, k, j);
      }
      heap := rest;
      forall i: nat | i < |iters| ensures |OfSource(heap, i)| <= 1 {
        assert |OfSource(before, i)| <= 1;
      }
    }

    /** One call: `None` when everything is delivered, the best pending entry, or the ordering
        error, after which the offending source is abandoned. */
    method NextEntry() returns (r: Result<Option<HeapEntry>, ()>)
      requires Valid()
      modifies this
      ensures Valid()
      ensures Tagged(old(Pending()))
      ensures AllEmpty(old(Pending())) ==> r == Ok(None) && Pending() == old(Pending()) && lastKey == old(lastKey)
      ensures !AllEmpty(old(Pending())) ==>
          var q, b := old(Pending()), Best(old(Pending()));
          var e := q[b][0];
          if Regresses(old(lastKey), e.key)
          then r == Err(()) && lastKey == old(lastKey) && Pending() == q[b := []]
          else r == Ok(Some(e)) && lastKey == Some(e.key) && Pending() == q[b := q[b][1..]]
    {
      hide Cmp, Usable, OfSource, IsBest, QueuesOf;
      ghost var q := Pending();
      PendingFacts();
      QueueAt(heap, iters, exhausted);
      if heap == [] {
        return Ok(None);
      }
      var e := PopMax();
      PoppedIsBest(q, old(heap), e);
      QueuesAfter(old(heap), iters, exhausted, heap, iters, exhausted, e.source, []);
      if lastKey.Some? && lastKey.value != e.key && LexLeq(e.key, lastKey.value) {
        return Err(());
      }
      lastKey := Some(e.key);
      PushNext(e.source);
      QueuesAfter(old(heap), old(iters), old(exhausted), heap, iters, exhausted, e.source, q[e.source][1..]);
      return Ok(Some(e));
    }

    lemma PendingFacts()
      requires Valid()
      ensures Tagged(Pending()) && (AllEmpty(Pending()) <==> heap == [])
      ensures forall i :: 0 <= i < |iters| && Pending()[i] != []
                ==> Pending()[i][0] in heap && Pending()[i][0].source == i
    {
      forall i, k | 0 <= i < |iters| && 0 <= k < |Pending()[i]| ensures Pending()[i][k].source == i {
        OfSourceMember(heap, i);
        var head := OfSource(heap, i);
        if k < |head| {
          assert head[k] in head;
        } else {
          UsableTagged(iters[i], i, k - |head|);
        }
      }
      forall i | 0 <= i < |iters| && Pending()[i] != [] ensures Pending()[i][0] in heap && Pending()[i][0].source == i {
        OfSourceMember(heap, i);
        assert OfSource(heap, i)[0] in OfSource(heap, i);
      }
      if heap != [] {
        OfSourceMember(heap, heap[0].source);
        assert heap[0] in OfSource(heap, heap[0].source);
        assert Pending()[heap[0].source] != [];
      }
    }

    /** Drains the iterator: everything `next_entry` returns, errors as `None`. */
    method Drain() returns (out: seq<Option<HeapEntry>>)
      requires Valid()
      modifies this
      ensures Valid() && AllEmpty(Pending())
      ensures out == old(Run(Pending(), lastKey))
    {
      hide Run, QueuesOf, Total, IsBest, Tagged;
      out := [];
      var done := false;
      while !done
        invariant Valid()
        invariant out + Run(Pending(), lastKey) == old(Run(Pending(), lastKey))
        invariant done ==> AllEmpty(Pending())
        decreases Total(Pending()), !done
      {
        ghost var q, last, given := Pending(), lastKey, out;
        RunStep(q, last);
        var r := NextEntry();
        match r {
          case Ok(None) => done := true;
          case Ok(Some(e)) => out := out + [Some(e)];
          case Err(_) => out := out + [None];
        }
        assert !done ==> out == given + [Run(q, last)[0]] && Run(Pending(), lastKey) == Run(q, last)[1..];
      }
      RunStep(Pending(), lastKey);
    }
  }

  lemma PoppedIsBest(q: Queues, heap: seq<HeapEntry>, e: HeapEntry)
    requires Tagged(q) && e in heap && (forall x :: x in heap ==> Precedes(e, x))
    requires e.source < |q| && q[e.source] != [] && q[e.source][0] == e
    requires forall i :: 0 <= i < |q| && q[i] != [] ==> q[i][0] in heap
    ensures !AllEmpty(q) && Best(q) == e.source
  {
    assert IsBest(q, e.source);
    BestUnique(q, Best(q), e.source);
  }

  /** The entries of a run without errors. */
  ghost function Entries(run: seq<Option<HeapEntry>>): seq<HeapEntry>
    requires ErrorFree(run)
  {
    seq(|run|, k requires 0 <= k < |run| => run[k].value)
  }

  /** End to end: draining a fresh iterator over sorted inputs yields every item before each input's
      first error exactly once, in key order, newest first, with no error. */
  method MergeAll(inputs: seq<seq<Item>>) returns (out: seq<Option<HeapEntry>>)
    requires SortedInputs(inputs)
    ensures ErrorFree(out) && multiset(Entries(out)) == InputItems(inputs)
    ensures Sorted(Entries(out), Precedes)
    ensures forall k :: 0 <= k < |out| && FirstOfKey(Entries(out), k) ==> NewestIn(inputs, Entries(out)[k])
  {
    var it := new MergingIterator(inputs);
    out := it.Drain();
    SortedInputsQueues(inputs);
    var q := InputQueues(inputs);
    MergeOfSortedInputs(q);
    AllItemsAreInputItems(inputs);
    assert Entries(out) == Merged(q);
    forall k | 0 <= k < |out| && FirstOfKey(Merged(q), k) ensures NewestIn(inputs, Merged(q)[k]) {
      NewestOfInputs(inputs, k);
    }
  }

  /** No earlier entry has the same key. */
  ghost predicate FirstOfKey(s: seq<HeapEntry>, k: nat)
    requires k < |s|
  {
    forall m :: 0 <= m < k ==> s[m].key != s[k].key
  }

  /** No item of that key, in any input, is newer. */
  ghost predicate NewestIn(inputs: seq<seq<Item>>, e: HeapEntry) {
    forall i, j :: 0 <= i < |inputs| && 0 <= j < GoodCount(inputs[i]) && inputs[i][j].key == e.key
      ==> inputs[i][j].seqNo <= e.seqNo
  }

  lemma NewestOfInputs(inputs: seq<seq<Item>>, k: nat)
    requires SortedQueues(InputQueues(inputs))
    requires k < |Merged(InputQueues(inputs))| && FirstOfKey(Merged(InputQueues(inputs)), k)
    ensures NewestIn(inputs, Merged(InputQueues(inputs))[k])
  {
    var q := InputQueues(inputs);
    forall i, j | 0 <= i < |inputs| && 0 <= j < GoodCount(inputs[i]) && inputs[i][j].key == Merged(q)[k].key
      ensures inputs[i][j].seqNo <= Merged(q)[k].seqNo {
      InputQueuesExact(inputs, i);
      FirstEntryIsNewest(q, k, i, j);
    }
  }
}
