/** crates/aevum-core/src/presence.rs: presence records, their parent graph and its cycle check. */
module Presence {
  import opened Integers
  import opened Collections
  import opened Bytes
  import opened Sorting

  const MAX_TRANSACTIONS_PER_RECORD: nat := 10_000
  const MAX_PARENT_RECORDS: nat := 64
  const MAX_RECORD_FUTURE_DRIFT_SECS: nat := 30
  const RECORD: Bytes := Tag("AEVUM_PRESENCE_RECORD_V2")

  datatype RecordType = PresenceHeartbeat | TransactionBatch | StateUpdate

  /** A record, with its transactions reduced to their hashes. */
  datatype PresenceRecord = PresenceRecord(
    version: u32, chainId: u32, epochId: u64, epochAnchorHash: Hash, sequence: u64, nodeId: Hash,
    recordType: RecordType, timestamp: u64, txHashes: seq<Hash>, parentRecords: seq<Hash>,
    recordHash: Hash, signature: Bytes)

  type Records = map<Hash, PresenceRecord>

  // ---------- the parent graph ----------

  predicate Edge(m: Records, x: Hash, y: Hash) { x in m && y in m[x].parentRecords }

  /** A path of parent edges with at least one edge. */
  ghost predicate IsPath(m: Records, p: seq<Hash>) {
    |p| >= 2 && forall i :: 0 <= i < |p| - 1 ==> Edge(m, p[i], p[i + 1])
  }

  ghost predicate PathFromTo(m: Records, p: seq<Hash>, x: Hash, y: Hash) {
    IsPath(m, p) && p[0] == x && p[|p| - 1] == y
  }

  ghost predicate OnCycle(m: Records, x: Hash) { exists p :: PathFromTo(m, p, x, x) }

  ghost predicate Acyclic(m: Records) { forall x :: !OnCycle(m, x) }

  /** Reachable by zero or more parent edges. */
  ghost predicate Reaches(m: Records, x: Hash, y: Hash) {
    x == y || exists p :: PathFromTo(m, p, x, y)
  }

  lemma ReachStep(m: Records, x: Hash, y: Hash, z: Hash)
    requires Reaches(m, x, y) && Edge(m, y, z)
    ensures exists p :: PathFromTo(m, p, x, z)
  {
    if x == y {
      assert PathFromTo(m, [x, z], x, z);
    } else {
      var p :| PathFromTo(m, p, x, y);
      var q := p + [z];
      forall i | 0 <= i < |q| - 1 ensures Edge(m, q[i], q[i + 1]) {
        if i < |p| - 1 { assert Edge(m, p[i], p[i + 1]); }
      }
      assert PathFromTo(m, q, x, z);
    }
  }

  /** A set closed under parents that holds `x`, with no edge back to `x`, has no cycle through `x`. */
  lemma ClosedMeansNoCycle(m: Records, x: Hash, visited: set<Hash>)
    requires x in visited
    requires forall u, v :: u in visited && Edge(m, u, v) ==> v in visited && v != x
    ensures !OnCycle(m, x)
  {
    forall p | IsPath(m, p) && p[0] == x ensures p[|p| - 1] != x {
      StaysInside(m, p, visited, x, |p| - 2);
      assert Edge(m, p[|p| - 2], p[|p| - 1]);
    }
  }

  lemma {:induction false} StaysInside(m: Records, p: seq<Hash>, visited: set<Hash>, x: Hash, i: nat)
    requires IsPath(m, p) && p[0] in visited && i < |p|
    requires forall u, v :: u in visited && Edge(m, u, v) ==> v in visited && v != x
    ensures p[i] in visited
  {
    if i > 0 {
      StaysInside(m, p, visited, x, i - 1);
      assert Edge(m, p[i - 1], p[i]);
    }
  }

  /** Every hash a search from `x` can meet. */
  ghost function Universe(m: Records, x: Hash): set<Hash> {
    {x} + m.Keys + set k, y | k in m && y in m[k].parentRecords :: y
  }

  /** What holds of the search between two iterations, `todo` being the stack. */
  ghost predicate SearchInv(m: Records, x: Hash, visited: set<Hash>, todo: seq<Hash>) {
    && (forall y :: y in visited || y in todo ==> y in Universe(m, x) && Reaches(m, x, y))
    && (forall u, v :: u in visited && Edge(m, u, v) ==> v != x && (v in visited || v in todo))
    && (x in todo ==> visited == {} && todo == [x])
    && (x in visited || todo == [x])
  }

  /** The depth-first search. It ends on every finite map, cyclic or not, and answers `false`
      exactly when parent edges lead from the record back to itself. */
  method VerifyDagAcyclic(record: PresenceRecord, m: Records) returns (ok: bool)
    ensures ok <==> !OnCycle(m, record.recordHash)
  {
    var x := record.recordHash;
    var visited: set<Hash> := {};
    var stack := [x];
    while stack != []
      invariant SearchInv(m, x, visited, stack)
      decreases Universe(m, x) - visited, |stack|
    {
      var current := stack[|stack| - 1];
      ghost var before := stack;
      stack := stack[..|stack| - 1];
      assert before == stack + [current];
      assert current in before;
      if current in visited {
        continue;
      }
      ghost var seen := visited;
      visited := visited + {current};
      if current == x && stack != [] {
        assert false;
      } else if current in m {
        var parents := m[current].parentRecords;
        var i := 0;
        ghost var rest := stack;
        while i < |parents|
          invariant 0 <= i <= |parents|
          invariant stack == rest + parents[..i]
          invariant forall k :: 0 <= k < i ==> parents[k] != x
        {
          assert Edge(m, current, parents[i]);
          if parents[i] == x {
            ReachStep(m, x, current, x);
            return false;
          }
          stack := stack + [parents[i]];
          i := i + 1;
        }
        assert parents[..i] == parents;
        Expanded(m, x, seen, rest, current);
      } else {
        NothingToExpand(m, x, seen, stack, current);
      }
    }
    ClosedMeansNoCycle(m, x, visited);
    return true;
  }

  lemma Expanded(m: Records, x: Hash, visited: set<Hash>, rest: seq<Hash>, current: Hash)
    requires SearchInv(m, x, visited, rest + [current]) && current !in visited && current in m
    requires x !in m[current].parentRecords && x !in rest
    ensures SearchInv(m, x, visited + {current}, rest + m[current].parentRecords)
  {
    var parents := m[current].parentRecords;
    var todo := rest + parents;
    assert current in rest + [current];
    forall y | y in parents ensures y in Universe(m, x) && Reaches(m, x, y) {
      assert Edge(m, current, y);
      ReachStep(m, x, current, y);
    }
    forall y | y in visited + {current} || y in todo ensures y in Universe(m, x) && Reaches(m, x, y) {
      if y in rest { assert y in rest + [current]; }
    }
    forall u, v | u in visited + {current} && Edge(m, u, v)
      ensures v != x && (v in visited + {current} || v in todo)
    {
      if u in visited && v in rest + [current] && v != current { assert v in rest; }
    }
  }

  lemma NothingToExpand(m: Records, x: Hash, visited: set<Hash>, rest: seq<Hash>, current: Hash)
    requires SearchInv(m, x, visited, rest + [current]) && current !in visited && current !in m
    requires x !in rest
    ensures SearchInv(m, x, visited + {current}, rest)
  {
    assert current in rest + [current];
    forall y | y in visited + {current} || y in rest ensures y in Universe(m, x) && Reaches(m, x, y) {
      if y in rest { assert y in rest + [current]; }
    }
    forall u, v | u in visited + {current} && Edge(m, u, v) ensures v != x && (v in visited + {current} || v in rest) {
      if v in rest + [current] && v != current { assert v in rest; }
    }
  }

  // ---------- growing the graph ----------

  function Insert(m: Records, r: PresenceRecord): Records { m[r.recordHash := r] }

  lemma Rotate(m: Records, p: seq<Hash>, x: Hash, i: nat)
    requires PathFromTo(m, p, x, x) && i < |p|
    ensures OnCycle(m, p[i])
  {
    if i == 0 || i == |p| - 1 {
    } else {
      var q := p[i..] + p[1..i + 1];
      forall k | 0 <= k < |q| - 1 ensures Edge(m, q[k], q[k + 1]) {
        if i + k < |p| - 1 {
          assert Edge(m, p[i + k], p[i + k + 1]);
        } else {
          var k' := i + k - (|p| - 1);
          assert Edge(m, p[k'], p[k' + 1]);
        }
      }
      assert PathFromTo(m, q, p[i], p[i]);
    }
  }

  /** A record whose check passes once it is in the map closes no cycle anywhere. */
  lemma CheckedInsertKeepsAcyclic(m: Records, r: PresenceRecord)
    requires Acyclic(m) && !OnCycle(Insert(m, r), r.recordHash)
    ensures Acyclic(Insert(m, r))
  {
    var m' := Insert(m, r);
    forall x ensures !OnCycle(m', x) {
      if OnCycle(m', x) {
        var p :| PathFromTo(m', p, x, x);
        if r.recordHash in p {
          var i :| 0 <= i < |p| && p[i] == r.recordHash;
          Rotate(m', p, x, i);
        } else {
          forall i | 0 <= i < |p| - 1 ensures Edge(m, p[i], p[i + 1]) {
            assert Edge(m', p[i], p[i + 1]);
          }
          assert PathFromTo(m, p, x, x);
          assert OnCycle(m, x);
        }
      }
    }
  }

  /** The map after offering records one by one, keeping each that passes the check. */
  ghost function Grown(rs: seq<PresenceRecord>): Records {
    if rs == [] then map[]
    else
      var m := Grown(rs[..|rs| - 1]);
      var m' := Insert(m, rs[|rs| - 1]);
      if OnCycle(m', rs[|rs| - 1].recordHash) then m else m'
  }

  /** However records arrive, a map grown through the check never contains a cycle. */
  lemma {:induction false} GrownIsAcyclic(rs: seq<PresenceRecord>)
    ensures Acyclic(Grown(rs))
  {
    if rs == [] {
      forall x ensures !OnCycle(Grown(rs), x) { AbsentRecordAlwaysPasses(map[], x); }
    } else {
      var n := |rs| - 1;
      GrownIsAcyclic(rs[..n]);
      var m' := Insert(Grown(rs[..n]), rs[n]);
      if !OnCycle(m', rs[n].recordHash) {
        CheckedInsertKeepsAcyclic(Grown(rs[..n]), rs[n]);
      }
    }
  }

  /** The check reads the record's own parents from the map: asked about a record that is not in
      the map yet it always passes, whatever the parents are. */
  lemma AbsentRecordAlwaysPasses(m: Records, x: Hash)
    requires x !in m
    ensures !OnCycle(m, x)
  {
    forall p | IsPath(m, p) ensures p[0] != x {
      assert Edge(m, p[0], p[1]);
    }
  }

  /** So checking before inserting can miss a cycle: a record that lists itself as parent. */
  lemma CheckBeforeInsertMissesCycle(r: PresenceRecord)
    requires r.parentRecords == [r.recordHash]
    ensures !OnCycle(map[], r.recordHash) && OnCycle(Insert(map[], r), r.recordHash)
  {
    AbsentRecordAlwaysPasses(map[], r.recordHash);
    var m := Insert(map[], r);
    assert Edge(m, r.recordHash, r.recordHash);
    assert PathFromTo(m, [r.recordHash, r.recordHash], r.recordHash, r.recordHash);
  }

  lemma {:induction false} FirstVisit(p: seq<Hash>, h: Hash, from: nat) returns (j: nat)
    requires from < |p| && p[|p| - 1] == h
    ensures from <= j < |p| && p[j] == h && forall k :: from <= k < j ==> p[k] != h
    decreases |p| - from
  {
    if p[from] == h {
      j := from;
    } else {
      j := FirstVisit(p, h, from + 1);
    }
  }

  /** A cycle through the inserted record leaves it by a parent and comes back through the old map. */
  lemma CycleEntersByParent(m: Records, r: PresenceRecord)
    requires OnCycle(Insert(m, r), r.recordHash)
    ensures exists q :: q in r.parentRecords && Reaches(m, q, r.recordHash)
  {
    var m', h := Insert(m, r), r.recordHash;
    var p :| PathFromTo(m', p, h, h);
    assert Edge(m', p[0], p[1]);
    var j := FirstVisit(p, h, 1);
    if j > 1 {
      var back := p[1..j + 1];
      forall i | 0 <= i < |back| - 1 ensures Edge(m, back[i], back[i + 1]) {
        assert Edge(m', p[i + 1], p[i + 2]) && p[i + 1] != h;
      }
      assert PathFromTo(m, back, p[1], h);
    }
    assert Reaches(m, p[1], h);
  }

  lemma ParentClosesCycle(m: Records, r: PresenceRecord, q: Hash)
    requires q in r.parentRecords && Reaches(m, q, r.recordHash)
    ensures OnCycle(Insert(m, r), r.recordHash)
  {
    var m', h := Insert(m, r), r.recordHash;
    if q == h {
      assert Edge(m', h, h);
      assert PathFromTo(m', [h, h], h, h);
    } else {
      var p :| PathFromTo(m, p, q, h);
      var j := FirstVisit(p, h, 0);
      var loop := [h] + p[..j + 1];
      forall i | 0 <= i < |loop| - 1 ensures Edge(m', loop[i], loop[i + 1]) {
        if i > 0 { assert Edge(m, p[i - 1], p[i]); }
      }
      assert PathFromTo(m', loop, h, h);
    }
  }

  /** For every map, whether or not it holds an older record of that hash: inserting a record puts
      it on a cycle if and only if one of its parents already reaches it. */
  lemma InsertClosesCycleIff(m: Records, r: PresenceRecord)
    ensures OnCycle(Insert(m, r), r.recordHash)
            <==> exists q :: q in r.parentRecords && Reaches(m, q, r.recordHash)
  {
    hide OnCycle, Reaches, Insert;
    if OnCycle(Insert(m, r), r.recordHash) {
      CycleEntersByParent(m, r);
    }
    if q :| q in r.parentRecords && Reaches(m, q, r.recordHash) {
      ParentClosesCycle(m, r, q);
    }
  }

  /** Asked before the insertion of an absent record, the check gives the answer it would give
      afterwards if and only if no parent reaches the record. */
  lemma EarlyCheckRightIff(m: Records, r: PresenceRecord)
    requires r.recordHash !in m
    ensures (OnCycle(m, r.recordHash) <==> OnCycle(Insert(m, r), r.recordHash))
            <==> !exists q :: q in r.parentRecords && Reaches(m, q, r.recordHash)
  {
    hide OnCycle, Reaches, Insert;
    AbsentRecordAlwaysPasses(m, r.recordHash);
    InsertClosesCycleIff(m, r);
  }

  /** In particular it is right for a hash that neither the record nor any record of the map names
      as a parent. */
  lemma UnnamedHashIsSafe(m: Records, r: PresenceRecord)
    requires r.recordHash !in r.parentRecords
    requires forall x :: x in m ==> r.recordHash !in m[x].parentRecords
    ensures !OnCycle(Insert(m, r), r.recordHash)
  {
    InsertClosesCycleIff(m, r);
    forall p | IsPath(m, p) ensures p[|p| - 1] != r.recordHash {
      assert Edge(m, p[|p| - 2], p[|p| - 1]);
    }
  }

  // ---------- canonical parents ----------

  predicate HashLeq(a: Hash, b: Hash) { LexLeq(a, b) }

  /** `Vec::dedup`: drops every element equal to the one before it. */
  function Dedup(s: seq<Hash>): seq<Hash> {
    if |s| < 2 then s
    else if s[0] == s[1] then Dedup(s[1..])
    else [s[0]] + Dedup(s[1..])
  }

  function Canonical(parents: seq<Hash>): seq<Hash> { Dedup(Sort(parents, HashLeq)) }

  lemma HashOrder()
    ensures TotalPreorder(HashLeq)
  {
    forall a: Hash, b: Hash ensures HashLeq(a, b) || HashLeq(b, a) { LexTotal(a, b); }
    forall a: Hash, b: Hash, c: Hash | HashLeq(a, b) && HashLeq(b, c) ensures HashLeq(a, c) { LexTransitive(a, b, c); }
  }

  lemma {:induction false} DedupSorted(s: seq<Hash>)
    requires Sorted(s, HashLeq)
    ensures Sorted(Dedup(s), HashLeq) && Distinct(Dedup(s))
    ensures Elements(Dedup(s)) == Elements(s) && |Dedup(s)| <= |s|
    ensures s != [] ==> Dedup(s) != [] && Dedup(s)[0] == s[0]
  {
    if |s| >= 2 {
      var t := s[1..];
      assert s == [s[0]] + t;
      DedupSorted(t);
      if s[0] != s[1] {
        var d := Dedup(t);
        forall x | x in d ensures HashLeq(s[0], x) && s[0] != x {
          assert x in Elements(t);
          FirstIsLeast(s, x);
        }
        hide HashLeq;
        assert Dedup(s) == [s[0]] + d;
        assert Elements(Dedup(s)) == {s[0]} + Elements(d) && Elements(s) == {s[0]} + Elements(t);
      } else {
        assert Elements(s) == Elements(t);
      }
    }
  }

  lemma FirstIsLeast(s: seq<Hash>, x: Hash)
    requires Sorted(s, HashLeq) && |s| >= 2 && s[0] != s[1] && x in s[1..]
    ensures HashLeq(s[0], x) && s[0] != x
  {
    var k :| 1 <= k < |s| && s[k] == x;
    if s[0] == x {
      assert HashLeq(s[1], s[k]) || k == 1;
      assert HashLeq(s[0], s[1]);
      LexAntisymmetric(s[0], s[1]);
    }
  }

  /** The canonical list is sorted, has no repeats and names the same parents. */
  lemma CanonicalProps(parents: seq<Hash>)
    ensures Sorted(Canonical(parents), HashLeq) && Distinct(Canonical(parents))
    ensures Elements(Canonical(parents)) == Elements(parents)
  {
    HashOrder();
    SortProps(parents, HashLeq);
    var s := Sort(parents, HashLeq);
    DedupSorted(s);
    forall x ensures x in Elements(s) <==> x in Elements(parents) {
      assert x in multiset(s) <==> x in multiset(parents);
    }
  }

  /** It depends on the set of parents only. */
  lemma CanonicalUnique(a: seq<Hash>, b: seq<Hash>)
    requires Elements(a) == Elements(b)
    ensures Canonical(a) == Canonical(b)
  {
    CanonicalProps(a);
    CanonicalProps(b);
    SortedDistinctUnique(Canonical(a), Canonical(b));
  }

  lemma SortedDistinctUnique(a: seq<Hash>, b: seq<Hash>)
    requires Sorted(a, HashLeq) && Sorted(b, HashLeq) && Distinct(a) && Distinct(b) && Elements(a) == Elements(b)
    ensures a == b
  {
    DistinctMultiset(a, b);
    forall i, j | 0 <= i < |a| && 0 <= j < |a| && HashLeq(a[i], a[j]) && HashLeq(a[j], a[i]) ensures a[i] == a[j] {
      LexAntisymmetric(a[i], a[j]);
    }
    SortedUnique(a, b, HashLeq);
  }

  // ---------- finalize ----------

  function TypeByte(t: RecordType): byte {
    match t case PresenceHeartbeat => 0 case TransactionBatch => 1 case StateUpdate => 2
  }

  function HeaderParts(r: PresenceRecord): seq<Bytes> {
    [RECORD, LE(r.version, 4), LE(r.chainId, 4), LE(r.epochId, 8), r.epochAnchorHash, LE(r.sequence, 8),
     r.nodeId, [TypeByte(r.recordType)], LE(r.timestamp, 8)]
  }

  function RecordBytes(r: PresenceRecord): Bytes {
    Concat(HeaderParts(r)) + Concat(r.txHashes) + Concat(r.parentRecords)
  }

  datatype FinalizeError = TooManyTransactions | NoParents | TooManyParents | TimestampTooFarInFuture

  function Finalized(H: Hasher, r: PresenceRecord, now: u64): Result<PresenceRecord, FinalizeError> {
    if |r.txHashes| > MAX_TRANSACTIONS_PER_RECORD then Err(TooManyTransactions)
    else if r.parentRecords == [] then Err(NoParents)
    else if |r.parentRecords| > MAX_PARENT_RECORDS then Err(TooManyParents)
    else if r.timestamp > SatAdd(now, MAX_RECORD_FUTURE_DRIFT_SECS) then Err(TimestampTooFarInFuture)
    else
      var c := r.(parentRecords := Canonical(r.parentRecords));
      Ok(c.(recordHash := H(RecordBytes(c))))
  }

  class RecordCell {
    var record: PresenceRecord

    constructor (r: PresenceRecord)
      ensures record == r
    {
      record := r;
    }

    /** A rejected record is left untouched; an accepted one is canonical and hashed. */
    method Finalize(H: Hasher, now: u64) returns (r: Result<(), FinalizeError>)
      modifies this
      ensures match Finalized(H, old(record), now)
              case Ok(done) => r == Ok(()) && record == done
              case Err(e) => r == Err(e) && record == old(record)
    {
      if |record.txHashes| > MAX_TRANSACTIONS_PER_RECORD {
        return Err(TooManyTransactions);
      }
      if record.parentRecords == [] {
        return Err(NoParents);
      }
      if |record.parentRecords| > MAX_PARENT_RECORDS {
        return Err(TooManyParents);
      }
      if record.timestamp > SatAdd(now, MAX_RECORD_FUTURE_DRIFT_SECS) {
        return Err(TimestampTooFarInFuture);
      }
      record := record.(parentRecords := Sort(record.parentRecords, HashLeq));
      record := record.(parentRecords := Dedup(record.parentRecords));
      record := record.(recordHash := H(RecordBytes(record)));
      return Ok(());
    }
  }

  /** Which records are accepted, and what becomes of them: the parents sorted without repeats, the
      record hash that of the new content, everything else kept. */
  lemma FinalizeExactly(H: Hasher, r: PresenceRecord, now: u64)
    ensures Finalized(H, r, now).Ok? <==>
            && |r.txHashes| <= 10_000 && 1 <= |r.parentRecords| <= 64
            && (r.timestamp <= now + 30 || now + 30 >= U64)
    ensures Finalized(H, r, now).Ok? ==>
              var f := Finalized(H, r, now).value;
              && f.recordHash == H(RecordBytes(f))
              && Elements(f.parentRecords) == Elements(r.parentRecords)
              && Sorted(f.parentRecords, HashLeq) && Distinct(f.parentRecords)
              && f == r.(parentRecords := f.parentRecords, recordHash := f.recordHash)
  {
    hide RecordBytes, Canonical;
    CanonicalProps(r.parentRecords);
    if Finalized(H, r, now).Ok? {
      HashIgnoresItself(r.(parentRecords := Canonical(r.parentRecords)), H);
    }
  }

  /** The stored hash is not among the hashed bytes. */
  lemma HashIgnoresItself(r: PresenceRecord, H: Hasher)
    ensures RecordBytes(r.(recordHash := H(RecordBytes(r)))) == RecordBytes(r)
  {
    hide Concat;
  }

  /** Two records that list the same parents in any order or multiplicity finalize to one record. */
  lemma FinalizeOrderFree(H: Hasher, r: PresenceRecord, s: PresenceRecord, now: u64)
    requires s == r.(parentRecords := s.parentRecords) && Elements(r.parentRecords) == Elements(s.parentRecords)
    requires Finalized(H, r, now).Ok? && Finalized(H, s, now).Ok?
    ensures Finalized(H, r, now) == Finalized(H, s, now)
  {
    CanonicalUnique(r.parentRecords, s.parentRecords);
  }

  /** Finalizing a finalized record changes nothing. */
  lemma FinalizeIdempotent(H: Hasher, r: PresenceRecord, now: u64)
    requires Finalized(H, r, now).Ok?
    ensures Finalized(H, Finalized(H, r, now).value, now) == Finalized(H, r, now)
  {
    var c := Finalized(H, r, now).value;
    CanonicalProps(r.parentRecords);
    CanonicalUnique(c.parentRecords, r.parentRecords);
    HashOrder();
    SortProps(r.parentRecords, HashLeq);
    DedupSorted(Sort(r.parentRecords, HashLeq));
  }

  // ---------- what the record hash commits to ----------

  lemma {:induction false} ConcatSameWidths(a: seq<Bytes>, b: seq<Bytes>)
    requires |a| == |b| && (forall i :: 0 <= i < |a| ==> |a[i]| == |b[i]|)
    ensures |Concat(a)| == |Concat(b)|
  {
    if a != [] { ConcatSameWidths(a[1..], b[1..]); }
  }

  ghost predicate SameHeader(r: PresenceRecord, s: PresenceRecord) {
    && r.version == s.version && r.chainId == s.chainId && r.epochId == s.epochId
    && r.epochAnchorHash == s.epochAnchorHash && r.sequence == s.sequence && r.nodeId == s.nodeId
    && r.recordType == s.recordType && r.timestamp == s.timestamp
  }

  lemma HeaderDetermined(r: PresenceRecord, s: PresenceRecord)
    ensures |Concat(HeaderParts(r))| == |Concat(HeaderParts(s))|
    ensures Concat(HeaderParts(r)) == Concat(HeaderParts(s)) <==> SameHeader(r, s)
  {
    ConcatSameWidths(HeaderParts(r), HeaderParts(s));
    if Concat(HeaderParts(r)) == Concat(HeaderParts(s)) {
      HeaderFields(r, s);
    }
  }

  lemma HeaderFields(r: PresenceRecord, s: PresenceRecord)
    requires Concat(HeaderParts(r)) == Concat(HeaderParts(s))
    ensures SameHeader(r, s)
  {
    var p, q := HeaderParts(r), HeaderParts(s);
    ConcatInjective(p, q);
    assert p[1] == q[1] && p[2] == q[2] && p[3] == q[3] && p[4] == q[4];
    assert p[5] == q[5] && p[6] == q[6] && p[7] == q[7] && p[8] == q[8];
    U32LEInjective(r.version, s.version);
    U32LEInjective(r.chainId, s.chainId);
    U64LEInjective(r.epochId, s.epochId);
    U64LEInjective(r.sequence, s.sequence);
    U64LEInjective(r.timestamp, s.timestamp);
    assert p[7][0] == q[7][0];
  }

  /** The hashed bytes fix the header and the list of transaction hashes followed by parents;
      where one ends and the other begins is not hashed. */
  lemma RecordBytesDetermine(r: PresenceRecord, s: PresenceRecord)
    ensures RecordBytes(r) == RecordBytes(s) <==>
            SameHeader(r, s) && r.txHashes + r.parentRecords == s.txHashes + s.parentRecords
  {
    hide HeaderParts, Concat, SameHeader;
    var hr, hs := Concat(HeaderParts(r)), Concat(HeaderParts(s));
    HeaderDetermined(r, s);
    ConcatAppend(r.txHashes, r.parentRecords);
    ConcatAppend(s.txHashes, s.parentRecords);
    assert RecordBytes(r) == hr + Concat(r.txHashes + r.parentRecords);
    assert RecordBytes(s) == hs + Concat(s.txHashes + s.parentRecords);
    if RecordBytes(r) == RecordBytes(s) {
      SplitEqual(hr, Concat(r.txHashes + r.parentRecords), hs, Concat(s.txHashes + s.parentRecords));
      ConcatHashes(r.txHashes + r.parentRecords, s.txHashes + s.parentRecords);
    }
  }

  /** Hence equal hashes mean equal parents exactly when the transaction counts agree. */
  lemma HashFixesParentsIffSameCount(H: Hasher, r: PresenceRecord, s: PresenceRecord, hashed: set<Bytes>)
    requires CollisionFree(H, hashed) && RecordBytes(r) in hashed && RecordBytes(s) in hashed
    requires H(RecordBytes(r)) == H(RecordBytes(s))
    ensures r.txHashes == s.txHashes && r.parentRecords == s.parentRecords <==> |r.txHashes| == |s.txHashes|
  {
    SameHash(H, hashed, RecordBytes(r), RecordBytes(s));
    RecordBytesDetermine(r, s);
    var a, b := r.txHashes + r.parentRecords, s.txHashes + s.parentRecords;
    if |r.txHashes| == |s.txHashes| {
      var n := |r.txHashes|;
      assert a[..n] == r.txHashes && b[..n] == s.txHashes;
      assert a[n..] == r.parentRecords && b[n..] == s.parentRecords;
    }
  }

  lemma CanonicalPair(b: Hash, c: Hash)
    requires b != c && HashLeq(b, c)
    ensures Canonical([b, c]) == [b, c] && Canonical([c]) == [c]
  {
    var one: seq<Hash> := [c];
    assert one[1..] == [];
    assert Sort(one, HashLeq) == one;
    var two := [b, c];
    assert two[1..] == one;
    assert Sort(two, HashLeq) == two;
    assert Dedup(one) == one;
  }

  /** The counts do differ on records that `finalize` accepts: moving the first parent to the end of
      the transactions gives another accepted record with the same hash, whatever the hash function. */
  lemma AcceptedRecordsShareAHash(H: Hasher, base: PresenceRecord, a: Hash, b: Hash, c: Hash, now: u64)
    requires b != c && HashLeq(b, c)
    requires base.timestamp <= SatAdd(now, MAX_RECORD_FUTURE_DRIFT_SECS)
    ensures var r, s := Finalized(H, base.(txHashes := [a], parentRecords := [b, c]), now),
                        Finalized(H, base.(txHashes := [a, b], parentRecords := [c]), now);
            && r.Ok? && s.Ok? && r.value.recordHash == s.value.recordHash
            && r.value.parentRecords != s.value.parentRecords
  {
    hide RecordBytes, HashLeq, Canonical;
    CanonicalPair(b, c);
    var r, s := base.(txHashes := [a], parentRecords := [b, c]), base.(txHashes := [a, b], parentRecords := [c]);
    assert r.txHashes + r.parentRecords == [a, b, c] == s.txHashes + s.parentRecords;
    RecordBytesDetermine(r, s);
    assert |r.parentRecords| != |s.parentRecords|;
  }
}
