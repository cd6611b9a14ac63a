/** crates/aevum-core/src/wire_zero_copy.rs: the cursor-based transaction decoder, proved against
    the wire grammar it reads. */
module Wire {
  import opened Integers
  import opened Bytes

  const WIRE_VERSION: u16 := 5
  const BLOCK_HEADER_SIZE: nat := 126

  // ---------- the grammar ----------

  /** Inputs, outputs and witnesses share one shape: a fixed head, a u32 length, that many bytes,
      and a fixed tail. */
  datatype Shape = Shape(head: nat, tail: nat)
  datatype Record = Record(head: Bytes, body: Bytes, tail: Bytes)

  const INPUT: Shape := Shape(68, 72)      // tx hash, index, nullifier | signature | key, signed hash, nonce
  const OUTPUT: Shape := Shape(144, 92)    // amount .. serial | proof | tx hash .. output index
  const WITNESS: Shape := Shape(0, 0)

  ghost predicate WellFormedRecord(s: Shape, r: Record) {
    |r.head| == s.head && |r.tail| == s.tail && |r.body| < U32
  }

  ghost predicate WellFormedRecords(s: Shape, rs: seq<Record>) {
    |rs| < U32 && forall i :: 0 <= i < |rs| ==> WellFormedRecord(s, rs[i])
  }

  function EncodeRecord(r: Record): Bytes { r.head + LE(|r.body|, 4) + r.body + r.tail }

  function EncodeRecords(rs: seq<Record>): Bytes {
    if rs == [] then [] else EncodeRecord(rs[0]) + EncodeRecords(rs[1..])
  }

  datatype WireTx = WireTx(
    txVersion: u32, chainId: u32, txType: u8, inputs: seq<Record>, outputs: seq<Record>,
    fee: u64, txHash: Hash, pohTick: u64, locktime: u64, witnesses: seq<Record>)

  ghost predicate WellFormed(tx: WireTx) {
    && WellFormedRecords(INPUT, tx.inputs)
    && WellFormedRecords(OUTPUT, tx.outputs)
    && WellFormedRecords(WITNESS, tx.witnesses)
  }

  function EncodeStart(tx: WireTx): (s: Bytes)
    requires |tx.inputs| < U32
    ensures |s| == 15
  {
    LE(WIRE_VERSION, 2) + LE(tx.txVersion, 4) + LE(tx.chainId, 4) + [tx.txType] + LE(|tx.inputs|, 4)
  }

  function EncodeEnd(tx: WireTx): (s: Bytes)
    ensures |s| == 60
  {
    LE(tx.fee, 8) + tx.txHash + LE(tx.pohTick, 8) + LE(tx.locktime, 8) + LE(|tx.witnesses|, 4)
  }

  function Encode(tx: WireTx): Bytes
    requires |tx.inputs| < U32
  {
    EncodeStart(tx) + EncodeRecords(tx.inputs) + LE(|tx.outputs|, 4) + EncodeRecords(tx.outputs)
    + EncodeEnd(tx) + EncodeRecords(tx.witnesses)
  }

  // ---------- what the decoder computes, as functions of the buffer ----------

  function UInt(d: Bytes, p: nat, k: nat): nat
    requires p + k <= |d|
  {
    FromLE(d[p..p + k])
  }

  function SkipRecord(d: Bytes, p: nat, s: Shape): Option<nat> {
    if p + s.head + 4 > |d| then None
    else
      var q := p + s.head + 4 + UInt(d, p + s.head, 4) + s.tail;
      if q > |d| then None else Some(q)
  }

  function SkipRecords(d: Bytes, p: nat, count: nat, s: Shape): Option<nat>
    decreases count
  {
    if count == 0 then Some(p)
    else match SkipRecord(d, p, s)
      case None => None
      case Some(q) => SkipRecords(d, q, count - 1, s)
  }

  /** The part of a transaction up to and including the fee. */
  datatype Start = Start(txType: u8, inputCount: u32, outputCount: u32, feeAt: nat, fee: u64)

  function ParseStart(d: Bytes): Option<Start> {
    if |d| < 15 || UInt(d, 0, 2) != WIRE_VERSION then None
    else match SkipRecords(d, 15, UInt(d, 11, 4), INPUT)
      case None => None
      case Some(p) =>
        if p + 4 > |d| then None
        else match SkipRecords(d, p + 4, UInt(d, p, 4), OUTPUT)
          case None => None
          case Some(q) =>
            if q + 8 > |d| then None
            else
              UIntBound(d, 11, 4); UIntBound(d, p, 4); UIntBound(d, q, 8); WidthFacts();
              Some(Start(d[10], UInt(d, 11, 4), UInt(d, p, 4), q, UInt(d, q, 8)))
  }

  datatype TxView = TxView(
    txHash: Hash, fee: u64, pohTick: u64, locktime: u64, txType: u8,
    inputCount: u32, outputCount: u32, parsedLen: nat, raw: Bytes)

  function Parse(d: Bytes): (v: Option<TxView>)
    ensures v.Some? ==> v.value.parsedLen <= |d|
  {
    match ParseStart(d)
    case None => None
    case Some(st) =>
      var q := st.feeAt;
      if q + 60 > |d| then None
      else match SkipRecords(d, q + 60, UInt(d, q + 56, 4), WITNESS)
        case None => None
        case Some(end) =>
          UIntBound(d, q + 40, 8); UIntBound(d, q + 48, 8); WidthFacts();
          SkipRecordsAdvances(d, q + 60, UInt(d, q + 56, 4), WITNESS);
          Some(TxView(d[q + 8..q + 40], st.fee, UInt(d, q + 40, 8), UInt(d, q + 48, 8), st.txType,
                      st.inputCount, st.outputCount, end, d[..end]))
  }

  lemma UIntBound(d: Bytes, p: nat, k: nat)
    requires p + k <= |d|
    ensures UInt(d, p, k) < Pow256(k)
  {
    LEOfFromLE(d[p..p + k]);
  }

  /** Skipping moves forward by at least the fixed part of every record, and stays in the buffer. */
  lemma {:induction false} SkipRecordsAdvances(d: Bytes, p: nat, count: nat, s: Shape)
    requires p <= |d|
    ensures var r := SkipRecords(d, p, count, s);
            r.Some? ==> p + count * (s.head + 4 + s.tail) <= r.value <= |d|
    decreases count
  {
    if count > 0 {
      var q := SkipRecord(d, p, s);
      if q.Some? {
        SkipRecordsAdvances(d, q.value, count - 1, s);
        assert count * (s.head + 4 + s.tail) == (s.head + 4 + s.tail) + (count - 1) * (s.head + 4 + s.tail);
      }
    }
  }

  // ---------- byte strings at positions ----------

  predicate At(d: Bytes, p: nat, s: Bytes) {
    p + |s| <= |d| && d[p..p + |s|] == s
  }

  lemma AtAppend(d: Bytes, p: nat, a: Bytes, b: Bytes)
    ensures At(d, p, a + b) <==> At(d, p, a) && At(d, p + |a|, b)
  {
    if p + |a| + |b| <= |d| {
      var w := d[p..p + |a| + |b|];
      assert w[..|a|] == d[p..p + |a|] && w[|a|..] == d[p + |a|..p + |a| + |b|];
      assert (a + b)[..|a|] == a && (a + b)[|a|..] == b;
      assert w == w[..|a|] + w[|a|..];
    }
  }

  lemma UIntAt(d: Bytes, p: nat, n: nat, k: nat)
    requires At(d, p, LE(n, k)) && n < Pow256(k)
    ensures p + k <= |d| && UInt(d, p, k) == n
  {
    FromLEOfLE(n, k);
  }

  lemma AtUInt(d: Bytes, p: nat, k: nat)
    requires p + k <= |d|
    ensures At(d, p, LE(UInt(d, p, k), k))
  {
    LEOfFromLE(d[p..p + k]);
  }

  // ---------- records: encoding then skipping, and back ----------

  lemma RecordAt(d: Bytes, p: nat, r: Record)
    ensures At(d, p, EncodeRecord(r)) <==>
            && At(d, p, r.head)
            && At(d, p + |r.head|, LE(|r.body|, 4))
            && At(d, p + |r.head| + 4, r.body)
            && At(d, p + |r.head| + 4 + |r.body|, r.tail)
  {
    AtAppend(d, p, r.head + LE(|r.body|, 4) + r.body, r.tail);
    AtAppend(d, p, r.head + LE(|r.body|, 4), r.body);
    AtAppend(d, p, r.head, LE(|r.body|, 4));
  }

  lemma SkipEncodedRecord(d: Bytes, p: nat, s: Shape, r: Record)
    requires WellFormedRecord(s, r) && At(d, p, EncodeRecord(r))
    ensures SkipRecord(d, p, s) == Some(p + |EncodeRecord(r)|)
  {
    RecordAt(d, p, r);
    WidthFacts();
    UIntAt(d, p + s.head, |r.body|, 4);
  }

  lemma {:induction false} SkipEncodedRecords(d: Bytes, p: nat, s: Shape, rs: seq<Record>)
    requires (forall i :: 0 <= i < |rs| ==> WellFormedRecord(s, rs[i])) && At(d, p, EncodeRecords(rs))
    ensures SkipRecords(d, p, |rs|, s) == Some(p + |EncodeRecords(rs)|)
    decreases |rs|
  {
    if rs != [] {
      AtAppend(d, p, EncodeRecord(rs[0]), EncodeRecords(rs[1..]));
      SkipEncodedRecord(d, p, s, rs[0]);
      SkipEncodedRecords(d, p + |EncodeRecord(rs[0])|, s, rs[1..]);
    }
  }

  /** Reads back the record that a successful skip stepped over. */
  lemma SkippedRecord(d: Bytes, p: nat, s: Shape) returns (r: Record)
    requires SkipRecord(d, p, s).Some?
    ensures WellFormedRecord(s, r) && At(d, p, EncodeRecord(r))
    ensures SkipRecord(d, p, s).value == p + |EncodeRecord(r)|
  {
    var n := UInt(d, p + s.head, 4);
    var b := p + s.head + 4;
    UIntBound(d, p + s.head, 4);
    WidthFacts();
    AtUInt(d, p + s.head, 4);
    r := Record(d[p..p + s.head], d[b..b + n], d[b + n..b + n + s.tail]);
    RecordAt(d, p, r);
  }

  lemma {:induction false} SkippedRecords(d: Bytes, p: nat, count: nat, s: Shape) returns (rs: seq<Record>)
    requires SkipRecords(d, p, count, s).Some? && p <= |d|
    ensures |rs| == count && (forall i :: 0 <= i < |rs| ==> WellFormedRecord(s, rs[i]))
    ensures At(d, p, EncodeRecords(rs)) && SkipRecords(d, p, count, s).value == p + |EncodeRecords(rs)|
    decreases count
  {
    if count == 0 {
      rs := [];
    } else {
      var r := SkippedRecord(d, p, s);
      var q := SkipRecord(d, p, s).value;
      var rest := SkippedRecords(d, q, count - 1, s);
      rs := [r] + rest;
      assert rs[1..] == rest;
      AtAppend(d, p, EncodeRecord(r), EncodeRecords(rest));
    }
  }

  // ---------- transactions: encoding then parsing, and back ----------

  /** Where the pieces of an encoded transaction start. */
  ghost function OutputsAt(tx: WireTx): nat { 15 + |EncodeRecords(tx.inputs)| }
  ghost function FeeAt(tx: WireTx): nat { OutputsAt(tx) + 4 + |EncodeRecords(tx.outputs)| }
  ghost function EndAt(tx: WireTx): nat { FeeAt(tx) + 60 + |EncodeRecords(tx.witnesses)| }

  lemma EncodeAt(d: Bytes, tx: WireTx)
    requires |tx.inputs| < U32
    ensures |Encode(tx)| == EndAt(tx)
    ensures At(d, 0, Encode(tx)) <==>
            && At(d, 0, EncodeStart(tx)) && At(d, 15, EncodeRecords(tx.inputs))
            && At(d, OutputsAt(tx), LE(|tx.outputs|, 4)) && At(d, OutputsAt(tx) + 4, EncodeRecords(tx.outputs))
            && At(d, FeeAt(tx), EncodeEnd(tx)) && At(d, FeeAt(tx) + 60, EncodeRecords(tx.witnesses))
  {
    hide EncodeStart, EncodeEnd, EncodeRecords, At, LE;
    var a := EncodeStart(tx);
    var b := a + EncodeRecords(tx.inputs);
    var c := b + LE(|tx.outputs|, 4);
    var e := c + EncodeRecords(tx.outputs);
    var f := e + EncodeEnd(tx);
    AtAppend(d, 0, a, EncodeRecords(tx.inputs));
    AtAppend(d, 0, b, LE(|tx.outputs|, 4));
    AtAppend(d, 0, c, EncodeRecords(tx.outputs));
    AtAppend(d, 0, e, EncodeEnd(tx));
    AtAppend(d, 0, f, EncodeRecords(tx.witnesses));
  }

  lemma StartAt(d: Bytes, tx: WireTx)
    requires |tx.inputs| < U32
    ensures At(d, 0, EncodeStart(tx)) <==>
            |d| >= 15 && UInt(d, 0, 2) == WIRE_VERSION && UInt(d, 2, 4) == tx.txVersion
            && UInt(d, 6, 4) == tx.chainId && d[10] == tx.txType && UInt(d, 11, 4) == |tx.inputs|
  {
    var v, t, c, y, n := LE(WIRE_VERSION, 2), LE(tx.txVersion, 4), LE(tx.chainId, 4), [tx.txType], LE(|tx.inputs|, 4);
    AtAppend(d, 0, v, t);
    AtAppend(d, 0, v + t, c);
    AtAppend(d, 0, v + t + c, y);
    AtAppend(d, 0, v + t + c + y, n);
    WidthFacts();
    if At(d, 0, EncodeStart(tx)) {
      UIntAt(d, 0, WIRE_VERSION, 2);
      UIntAt(d, 2, tx.txVersion, 4);
      UIntAt(d, 6, tx.chainId, 4);
      UIntAt(d, 11, |tx.inputs|, 4);
      assert d[10..11] == [tx.txType];
    } else if |d| >= 15 {
      AtUInt(d, 0, 2);
      AtUInt(d, 2, 4);
      AtUInt(d, 6, 4);
      AtUInt(d, 11, 4);
      assert d[10..11] == [d[10]];
    }
  }

  lemma FixedEndAt(d: Bytes, q: nat, tx: WireTx)
    requires |tx.witnesses| < U32
    ensures At(d, q, EncodeEnd(tx)) <==>
            q + 60 <= |d| && UInt(d, q, 8) == tx.fee && d[q + 8..q + 40] == tx.txHash
            && UInt(d, q + 40, 8) == tx.pohTick && UInt(d, q + 48, 8) == tx.locktime
            && UInt(d, q + 56, 4) == |tx.witnesses|
  {
    var f, h, p, l, n := LE(tx.fee, 8), tx.txHash, LE(tx.pohTick, 8), LE(tx.locktime, 8), LE(|tx.witnesses|, 4);
    AtAppend(d, q, f, h);
    AtAppend(d, q, f + h, p);
    AtAppend(d, q, f + h + p, l);
    AtAppend(d, q, f + h + p + l, n);
    WidthFacts();
    if At(d, q, EncodeEnd(tx)) {
      UIntAt(d, q, tx.fee, 8);
      UIntAt(d, q + 40, tx.pohTick, 8);
      UIntAt(d, q + 48, tx.locktime, 8);
      UIntAt(d, q + 56, |tx.witnesses|, 4);
    } else if q + 60 <= |d| {
      AtUInt(d, q, 8);
      AtUInt(d, q + 40, 8);
      AtUInt(d, q + 48, 8);
      AtUInt(d, q + 56, 4);
    }
  }

  function ViewOf(tx: WireTx): TxView
    requires |tx.inputs| < U32 && |tx.outputs| < U32
  {
    TxView(tx.txHash, tx.fee, tx.pohTick, tx.locktime, tx.txType, |tx.inputs|, |tx.outputs|,
           |Encode(tx)|, Encode(tx))
  }

  /** A buffer that begins with an encoded transaction, whatever follows, parses to that
      transaction's fields and exact length. */
  lemma ParseEncoded(d: Bytes, tx: WireTx)
    requires WellFormed(tx) && Encode(tx) <= d
    ensures Parse(d) == Some(ViewOf(tx))
  {
    hide Encode, EncodeStart, EncodeEnd, EncodeRecords, LE, FromLE, SkipRecords, ParseStart;
    assert At(d, 0, Encode(tx)) && d[..|Encode(tx)|] == Encode(tx);
    EncodeAt(d, tx);
    FixedEndAt(d, FeeAt(tx), tx);
    ParseStartEncoded(d, tx);
    SkipEncodedRecords(d, FeeAt(tx) + 60, WITNESS, tx.witnesses);
  }

  lemma ParseStartEncoded(d: Bytes, tx: WireTx)
    requires WellFormed(tx) && At(d, 0, EncodeStart(tx)) && At(d, 15, EncodeRecords(tx.inputs))
    requires At(d, OutputsAt(tx), LE(|tx.outputs|, 4)) && At(d, OutputsAt(tx) + 4, EncodeRecords(tx.outputs))
    requires FeeAt(tx) + 8 <= |d| && UInt(d, FeeAt(tx), 8) == tx.fee
    ensures ParseStart(d) == Some(Start(tx.txType, |tx.inputs|, |tx.outputs|, FeeAt(tx), tx.fee))
  {
    hide EncodeStart, EncodeEnd, EncodeRecords, FromLE, SkipRecords;
    StartAt(d, tx);
    SkipEncodedRecords(d, 15, INPUT, tx.inputs);
    WidthFacts();
    UIntAt(d, OutputsAt(tx), |tx.outputs|, 4);
    SkipEncodedRecords(d, OutputsAt(tx) + 4, OUTPUT, tx.outputs);
  }

  /** What parsed is an encoded transaction: the bytes up to `parsed_len` are its encoding. */
  lemma ParsedIsEncoded(d: Bytes) returns (tx: WireTx)
    requires Parse(d).Some?
    ensures WellFormed(tx) && Encode(tx) <= d && Parse(d).value == ViewOf(tx)
  {
    hide Encode, EncodeStart, EncodeEnd, EncodeRecords, LE, FromLE, SkipRecords, ParseStart;
    var st := ParseStart(d).value;
    var q := st.feeAt;
    tx := StartedWith(d);
    StartAt(d, tx);
    UIntBound(d, q + 56, 4);
    WidthFacts();
    var ws := SkippedRecords(d, q + 60, UInt(d, q + 56, 4), WITNESS);
    tx := tx.(txHash := Parse(d).value.txHash, pohTick := Parse(d).value.pohTick,
              locktime := Parse(d).value.locktime, witnesses := ws);
    FixedEndAt(d, q, tx);
    StartAt(d, tx);
    EncodeAt(d, tx);
    assert d[..|Encode(tx)|] == Encode(tx);
  }

  /** A transaction that agrees with the buffer up to the fee. */
  lemma StartedWith(d: Bytes) returns (tx: WireTx)
    requires ParseStart(d).Some?
    ensures WellFormed(tx) && At(d, 0, EncodeStart(tx)) && At(d, 15, EncodeRecords(tx.inputs))
    ensures At(d, OutputsAt(tx), LE(|tx.outputs|, 4)) && At(d, OutputsAt(tx) + 4, EncodeRecords(tx.outputs))
    ensures ParseStart(d).value == Start(tx.txType, |tx.inputs|, |tx.outputs|, FeeAt(tx), tx.fee)
    ensures FeeAt(tx) + 8 <= |d| && UInt(d, FeeAt(tx), 8) == tx.fee
  {
    hide EncodeStart, EncodeEnd, EncodeRecords, FromLE, SkipRecords;
    WidthFacts();
    UIntBound(d, 2, 4);
    UIntBound(d, 6, 4);
    UIntBound(d, 11, 4);
    var ins := SkippedRecords(d, 15, UInt(d, 11, 4), INPUT);
    var p := SkipRecords(d, 15, UInt(d, 11, 4), INPUT).value;
    UIntBound(d, p, 4);
    AtUInt(d, p, 4);
    var outs := SkippedRecords(d, p + 4, UInt(d, p, 4), OUTPUT);
    tx := WireTx(UInt(d, 2, 4), UInt(d, 6, 4), d[10], ins, outs, ParseStart(d).value.fee, ZeroHash(), 0, 0, []);
    StartAt(d, tx);
  }

  /** `TxView::parse` succeeds exactly on buffers that begin with a well-formed encoding. */
  lemma ParseIffEncoded(d: Bytes)
    ensures Parse(d).Some? <==> exists tx :: WellFormed(tx) && Encode(tx) <= d
  {
    if Parse(d).Some? {
      var tx := ParsedIsEncoded(d);
    }
    if exists tx :: WellFormed(tx) && Encode(tx) <= d {
      var tx :| WellFormed(tx) && Encode(tx) <= d;
      ParseEncoded(d, tx);
    }
  }

  lemma RecordDetermined(d: Bytes, p: nat, s: Shape, r: Record, r': Record)
    requires WellFormedRecord(s, r) && WellFormedRecord(s, r')
    requires At(d, p, EncodeRecord(r)) && At(d, p, EncodeRecord(r'))
    ensures r == r'
  {
    hide EncodeRecord, LE, FromLE;
    RecordAt(d, p, r);
    RecordAt(d, p, r');
    WidthFacts();
    UIntAt(d, p + s.head, |r.body|, 4);
    UIntAt(d, p + s.head, |r'.body|, 4);
  }

  lemma {:induction false} RecordsDetermined(d: Bytes, p: nat, s: Shape, rs: seq<Record>, rs': seq<Record>)
    requires |rs| == |rs'| && At(d, p, EncodeRecords(rs)) && At(d, p, EncodeRecords(rs'))
    requires forall i :: 0 <= i < |rs| ==> WellFormedRecord(s, rs[i]) && WellFormedRecord(s, rs'[i])
    ensures rs == rs'
    decreases |rs|
  {
    hide EncodeRecord, LE;
    if rs != [] {
      AtAppend(d, p, EncodeRecord(rs[0]), EncodeRecords(rs[1..]));
      AtAppend(d, p, EncodeRecord(rs'[0]), EncodeRecords(rs'[1..]));
      RecordDetermined(d, p, s, rs[0], rs'[0]);
      RecordsDetermined(d, p + |EncodeRecord(rs[0])|, s, rs[1..], rs'[1..]);
      assert rs == [rs[0]] + rs[1..] && rs' == [rs'[0]] + rs'[1..];
    }
  }

  /** The grammar is unambiguous: a byte string encodes at most one transaction. */
  lemma EncodeInjective(a: WireTx, b: WireTx)
    requires WellFormed(a) && WellFormed(b) && Encode(a) == Encode(b)
    ensures a == b
  {
    hide Encode, EncodeStart, EncodeEnd, EncodeRecords, LE, FromLE, WellFormedRecord;
    var d := Encode(a);
    EncodeAt(d, a);
    EncodeAt(d, b);
    StartAt(d, a);
    StartAt(d, b);
    RecordsDetermined(d, 15, INPUT, a.inputs, b.inputs);
    WidthFacts();
    UIntAt(d, OutputsAt(a), |a.outputs|, 4);
    UIntAt(d, OutputsAt(a), |b.outputs|, 4);
    RecordsDetermined(d, OutputsAt(a) + 4, OUTPUT, a.outputs, b.outputs);
    FixedEndAt(d, FeeAt(a), a);
    FixedEndAt(d, FeeAt(a), b);
    RecordsDetermined(d, FeeAt(a) + 60, WITNESS, a.witnesses, b.witnesses);
  }

  /** No encoding is a proper prefix of another, so concatenated transactions split one way only. */
  lemma EncodingsArePrefixFree(a: WireTx, b: WireTx, d: Bytes)
    requires WellFormed(a) && WellFormed(b) && Encode(a) <= d && Encode(b) <= d
    ensures a == b
  {
    ParseEncoded(d, a);
    ParseEncoded(d, b);
    EncodeInjective(a, b);
  }

  /** 79 bytes of fixed fields, at least 144 per input and 240 per output. */
  lemma ParsedLenAtLeast(d: Bytes)
    requires Parse(d).Some?
    ensures var v := Parse(d).value;
            79 + 144 * v.inputCount + 240 * v.outputCount <= v.parsedLen <= |d|
  {
    hide FromLE, SkipRecords;
    var st := ParseStart(d).value;
    var q := st.feeAt;
    SkipRecordsAdvances(d, 15, UInt(d, 11, 4), INPUT);
    var p := SkipRecords(d, 15, UInt(d, 11, 4), INPUT).value;
    SkipRecordsAdvances(d, p + 4, UInt(d, p, 4), OUTPUT);
    SkipRecordsAdvances(d, q + 60, UInt(d, q + 56, 4), WITNESS);
  }

  // ---------- the fast fee check ----------

  /** Past k bytes, if they are there. */
  function Past(d: Bytes, p: Option<nat>, k: nat): Option<nat> {
    if p.Some? && p.value + k <= |d| then Some(p.value + k) else None
  }

  /** Past a count and as many records. */
  function PastCounted(d: Bytes, p: Option<nat>, s: Shape): Option<nat> {
    var q := Past(d, p, 4);
    if q.None? then None else SkipRecords(d, q.value, UInt(d, p.value, 4), s)
  }

  /** The fee that `check_min_fee` finds: it walks past the fields before it, one after the other. */
  function FastFee(d: Bytes): Option<nat> {
    var v := Past(d, Some(0), 2);
    if v.None? || UInt(d, 0, 2) != WIRE_VERSION then None
    else
      var records := Past(d, Past(d, Past(d, v, 4), 4), 1);
      var fee := PastCounted(d, PastCounted(d, records, INPUT), OUTPUT);
      if Past(d, fee, 8).None? then None else Some(UInt(d, fee.value, 8))
  }

  predicate MinFeeMet(d: Bytes, minFee: u64) {
    FastFee(d).Some? && FastFee(d).value >= minFee
  }

  /** On every buffer the fast walk and the parser's first half find the same fee or fail together. */
  lemma FastFeeIsStart(d: Bytes)
    ensures FastFee(d) == match ParseStart(d) case Some(st) => Some(st.fee) case None => None
  {
    hide SkipRecords, FromLE;
    if |d| >= 15 && SkipRecords(d, 15, UInt(d, 11, 4), INPUT).Some? {
      SkipRecordsAdvances(d, 15, UInt(d, 11, 4), INPUT);
    }
  }

  /** An encoded transaction cut off after its fee. */
  function EncodeToFee(tx: WireTx): Bytes
    requires |tx.inputs| < U32
  {
    EncodeStart(tx) + EncodeRecords(tx.inputs) + LE(|tx.outputs|, 4) + EncodeRecords(tx.outputs) + LE(tx.fee, 8)
  }

  lemma ToFeeAt(d: Bytes, tx: WireTx)
    requires |tx.inputs| < U32
    ensures EncodeToFee(tx) <= d <==>
            && At(d, 0, EncodeStart(tx)) && At(d, 15, EncodeRecords(tx.inputs))
            && At(d, OutputsAt(tx), LE(|tx.outputs|, 4)) && At(d, OutputsAt(tx) + 4, EncodeRecords(tx.outputs))
            && At(d, FeeAt(tx), LE(tx.fee, 8))
  {
    hide EncodeStart, EncodeRecords, LE;
    var a, b, c := EncodeStart(tx), EncodeRecords(tx.inputs), LE(|tx.outputs|, 4);
    var e, f := EncodeRecords(tx.outputs), LE(tx.fee, 8);
    AtAppend(d, 0, a, b);
    AtAppend(d, 0, a + b, c);
    AtAppend(d, 0, a + b + c, e);
    AtAppend(d, 0, a + b + c + e, f);
    assert EncodeToFee(tx) <= d <==> At(d, 0, EncodeToFee(tx));
  }

  /** The fast check finds fee f exactly when the buffer begins with a well-formed transaction of
      fee f, cut anywhere after the fee. */
  lemma FastFeeIffPrefix(d: Bytes, f: u64)
    ensures FastFee(d) == Some(f) <==> exists tx :: WellFormed(tx) && tx.fee == f && EncodeToFee(tx) <= d
  {
    hide EncodeStart, EncodeRecords, LE, FromLE, SkipRecords, ParseStart, FastFee, EncodeToFee;
    FastFeeIsStart(d);
    WidthFacts();
    if FastFee(d) == Some(f) {
      var tx := StartedWith(d);
      AtUInt(d, FeeAt(tx), 8);
      ToFeeAt(d, tx);
    }
    if exists tx :: WellFormed(tx) && tx.fee == f && EncodeToFee(tx) <= d {
      var tx :| WellFormed(tx) && tx.fee == f && EncodeToFee(tx) <= d;
      ToFeeAt(d, tx);
      UIntAt(d, FeeAt(tx), tx.fee, 8);
      ParseStartEncoded(d, tx);
    }
  }

  /** On a buffer that parses, the fast check compares the parsed fee. */
  lemma FastFeeAgrees(d: Bytes, minFee: u64)
    requires Parse(d).Some?
    ensures MinFeeMet(d, minFee) <==> Parse(d).value.fee >= minFee
  {
    hide FastFee, ParseStart, SkipRecords, FromLE;
    FastFeeIsStart(d);
  }

  /** It looks at nothing after the fee: cutting or changing later bytes changes nothing. */
  lemma FastFeeIgnoresTheRest(d: Bytes, e: Bytes, minFee: u64)
    requires ParseStart(d).Some? && d[..ParseStart(d).value.feeAt + 8] <= e
    ensures MinFeeMet(e, minFee) <==> MinFeeMet(d, minFee)
  {
    hide EncodeStart, EncodeEnd, EncodeRecords, LE, FromLE, SkipRecords, ParseStart, FastFee;
    FastFeeIsStart(d);
    FastFeeIsStart(e);
    var tx := StartedWith(d);
    var q := FeeAt(tx);
    assert d[..q + 8] == e[..q + 8];
    SameAt(d, e, q + 8, 0, EncodeStart(tx));
    SameAt(d, e, q + 8, 15, EncodeRecords(tx.inputs));
    SameAt(d, e, q + 8, OutputsAt(tx), LE(|tx.outputs|, 4));
    SameAt(d, e, q + 8, OutputsAt(tx) + 4, EncodeRecords(tx.outputs));
    assert d[q..q + 8] == d[..q + 8][q..q + 8] == e[q..q + 8];
    ParseStartEncoded(e, tx);
  }

  lemma SameAt(d: Bytes, e: Bytes, n: nat, p: nat, s: Bytes)
    requires n <= |d| && n <= |e| && d[..n] == e[..n] && At(d, p, s) && p + |s| <= n
    ensures At(e, p, s)
  {
    assert d[p..p + |s|] == d[..n][p..p + |s|] == e[p..p + |s|];
  }

  // ---------- iterating over a block ----------

  /** What the iterator yields from position p with `remaining` transactions announced. */
  function Views(d: Bytes, p: nat, remaining: nat): seq<TxView>
    requires p <= |d|
    decreases remaining
  {
    if remaining == 0 then []
    else match Parse(d[p..])
      case None => []
      case Some(v) => [v] + Views(d, p + v.parsedLen, remaining - 1)
  }

  function EndOfViews(d: Bytes, p: nat, remaining: nat): nat
    requires p <= |d|
    decreases remaining
  {
    if remaining == 0 then p
    else match Parse(d[p..])
      case None => p
      case Some(v) => EndOfViews(d, p + v.parsedLen, remaining - 1)
  }

  ghost predicate AllWellFormed(txs: seq<WireTx>) {
    forall i :: 0 <= i < |txs| ==> WellFormed(txs[i])
  }

  function EncodeAll(txs: seq<WireTx>): Bytes
    requires AllWellFormed(txs)
  {
    if txs == [] then [] else Encode(txs[0]) + EncodeAll(txs[1..])
  }

  lemma ViewLength(tx: WireTx)
    requires WellFormed(tx)
    ensures ViewOf(tx).parsedLen == |Encode(tx)|
  {
  }

  /** Iterating over encoded transactions followed by anything yields exactly their views, in
      order, and stops where the last one ends. */
  lemma {:induction false} IterateEncoded(d: Bytes, p: nat, txs: seq<WireTx>)
    requires AllWellFormed(txs) && p <= |d| && At(d, p, EncodeAll(txs))
    ensures |Views(d, p, |txs|)| == |txs|
    ensures forall i :: 0 <= i < |txs| ==> Views(d, p, |txs|)[i] == ViewOf(txs[i])
    ensures EndOfViews(d, p, |txs|) == p + |EncodeAll(txs)|
    decreases |txs|
  {
    hide Encode, Parse, ViewOf;
    if txs != [] {
      AtAppend(d, p, Encode(txs[0]), EncodeAll(txs[1..]));
      assert d[p..][..|Encode(txs[0])|] == d[p..p + |Encode(txs[0])|];
      ParseEncoded(d[p..], txs[0]);
      ViewLength(txs[0]);
      IterateEncoded(d, p + |Encode(txs[0])|, txs[1..]);
    }
  }

  // ---------- the cursor ----------

  class Cursor {
    const data: Bytes
    var pos: nat

    ghost predicate Valid()
      reads this
    {
      pos <= |data|
    }

    constructor (data: Bytes)
      ensures Valid() && this.data == data && pos == 0
    {
      this.data := data;
      pos := 0;
    }

    /** A failed read leaves the cursor where it was. */
    method Read(n: nat) returns (r: Option<Bytes>)
      requires Valid()
      modifies this
      ensures Valid()
      ensures r.Some? <==> old(pos) + n <= |data|
      ensures r.Some? ==> r.value == data[old(pos)..old(pos) + n] && pos == old(pos) + n
      ensures r.None? ==> pos == old(pos)
    {
      var end := pos + n;
      if end > |data| {
        return None;
      }
      r := Some(data[pos..end]);
      pos := end;
    }

    method ReadUInt(k: nat) returns (r: Option<nat>)
      requires Valid()
      modifies this
      ensures Valid()
      ensures r.Some? <==> old(pos) + k <= |data|
      ensures r.Some? ==> r.value == UInt(data, old(pos), k) < Pow256(k) && pos == old(pos) + k
      ensures r.None? ==> pos == old(pos)
    {
      var bytes := Read(k);
      if bytes.None? {
        return None;
      }
      LEOfFromLE(bytes.value);
      return Some(FromLE(bytes.value));
    }

    method Skip(n: nat) returns (ok: bool)
      requires Valid()
      modifies this
      ensures Valid()
      ensures ok <==> old(pos) + n <= |data|
      ensures pos == if ok then old(pos) + n else old(pos)
    {
      if pos + n > |data| {
        return false;
      }
      pos := pos + n;
      return true;
    }

    /** Skips `count` inputs: 68 fixed bytes, a length, the signature, 72 fixed bytes. */
    method SkipInputs(count: u32) returns (ok: bool)
      requires Valid()
      modifies this
      ensures Valid()
      ensures ok <==> SkipRecords(data, old(pos), count, INPUT).Some?
      ensures ok ==> Some(pos) == SkipRecords(data, old(pos), count, INPUT)
    {
      for i := 0 to count
        invariant Valid()
        invariant SkipRecords(data, old(pos), count, INPUT) == SkipRecords(data, pos, count - i, INPUT)
      {
        ok := Skip(32 + 4 + 32);
        if !ok { return false; }
        var len := ReadUInt(4);
        if len.None? { return false; }
        ok := Skip(len.value);
        if !ok { return false; }
        ok := Skip(32 + 32 + 8);
        if !ok { return false; }
      }
      return true;
    }

    /** Skips `count` outputs, field by field as the format lists them. */
    method SkipOutputs(count: u32) returns (ok: bool)
      requires Valid()
      modifies this
      ensures Valid()
      ensures ok <==> SkipRecords(data, old(pos), count, OUTPUT).Some?
      ensures ok ==> Some(pos) == SkipRecords(data, old(pos), count, OUTPUT)
    {
      for i := 0 to count
        invariant Valid()
        invariant SkipRecords(data, old(pos), count, OUTPUT) == SkipRecords(data, pos, count - i, OUTPUT)
      {
        ok := SkipFields([8, 32, 32, 32, 32, 8], 144);
        if !ok { return false; }
        var len := ReadUInt(4);
        if len.None? { return false; }
        ok := Skip(len.value);
        if !ok { return false; }
        ok := SkipFields([32, 32, 8, 8, 8, 4], 92);
        if !ok { return false; }
      }
      return true;
    }

    /** Six fixed-width fields in a row are skipped together or not at all. */
    method SkipFields(widths: seq<nat>, ghost sum: nat) returns (ok: bool)
      requires Valid() && |widths| == 6
      requires sum == widths[0] + widths[1] + widths[2] + widths[3] + widths[4] + widths[5]
      modifies this
      ensures Valid()
      ensures ok <==> old(pos) + sum <= |data|
      ensures ok ==> pos == old(pos) + sum
    {
      ok := Skip(widths[0]);
      if !ok { return; }
      ok := Skip(widths[1]);
      if !ok { return; }
      ok := Skip(widths[2]);
      if !ok { return; }
      ok := Skip(widths[3]);
      if !ok { return; }
      ok := Skip(widths[4]);
      if !ok { return; }
      ok := Skip(widths[5]);
    }

    method SkipWitnesses() returns (ok: bool)
      requires Valid()
      modifies this
      ensures Valid()
      ensures ok <==> old(pos) + 4 <= |data|
                      && SkipRecords(data, old(pos) + 4, UInt(data, old(pos), 4), WITNESS).Some?
      ensures ok ==> Some(pos) == SkipRecords(data, old(pos) + 4, UInt(data, old(pos), 4), WITNESS)
    {
      var count := ReadUInt(4);
      if count.None? { return false; }
      for i := 0 to count.value
        invariant Valid()
        invariant SkipRecords(data, old(pos) + 4, count.value, WITNESS)
               == SkipRecords(data, pos, count.value - i, WITNESS)
      {
        var len := ReadUInt(4);
        if len.None? { return false; }
        ok := Skip(len.value);
        if !ok { return false; }
      }
      return true;
    }
  }

  /** `TxView::parse`. */
  method ParseTx(data: Bytes) returns (r: Option<TxView>)
    ensures r == Parse(data)
  {
    hide FromLE, SkipRecords, ParseStart;
    var c := new Cursor(data);
    var st := ReadStart(c);
    if st.None? { return None; }
    var hash := c.Read(32);
    if hash.None? { return None; }
    var pohTick := c.ReadUInt(8);
    if pohTick.None? { return None; }
    var locktime := c.ReadUInt(8);
    if locktime.None? { return None; }
    var ok := c.SkipWitnesses();
    if !ok { return None; }
    WidthFacts();
    var len := c.pos;
    return Some(TxView(hash.value, st.value.fee, pohTick.value, locktime.value, st.value.txType,
                       st.value.inputCount, st.value.outputCount, len, data[..len]));
  }

  /** The first half of `TxView::parse`, up to and including the fee. */
  method ReadStart(c: Cursor) returns (st: Option<Start>)
    requires c.Valid() && c.pos == 0
    modifies c
    ensures c.Valid()
    ensures st == ParseStart(c.data)
    ensures st.Some? ==> c.pos == st.value.feeAt + 8
  {
    hide FromLE, SkipRecords;
    WidthFacts();
    var version := c.ReadUInt(2);
    if version.None? || version.value != WIRE_VERSION { return None; }
    var txVersion := c.ReadUInt(4);
    if txVersion.None? { return None; }
    var chainId := c.ReadUInt(4);
    if chainId.None? { return None; }
    var txType := c.Read(1);
    if txType.None? { return None; }
    var inputCount := c.ReadUInt(4);
    if inputCount.None? { return None; }
    var ok := c.SkipInputs(inputCount.value);
    if !ok { return None; }
    var outputCount := c.ReadUInt(4);
    if outputCount.None? { return None; }
    ok := c.SkipOutputs(outputCount.value);
    if !ok { return None; }
    ghost var feeAt := c.pos;
    var fee := c.ReadUInt(8);
    if fee.None? { return None; }
    return Some(Start(txType.value[0], inputCount.value, outputCount.value, c.pos - 8, fee.value));
  }

  /** `check_min_fee`, with reads and skips of its own. */
  method CheckMinFee(data: Bytes, minFee: u64) returns (ok: bool)
    ensures ok == MinFeeMet(data, minFee)
  {
    hide FromLE, SkipRecords;
    WidthFacts();
    var c := new Cursor(data);
    var v := c.ReadUInt(2);
    if v.None? || v.value != WIRE_VERSION { return false; }
    var word := c.ReadUInt(4);
    if word.None? { return false; }
    word := c.ReadUInt(4);
    if word.None? { return false; }
    ok := c.Skip(1);
    if !ok { return false; }
    var ic := c.ReadUInt(4);
    if ic.None? { return false; }
    ok := c.SkipInputs(ic.value);
    if !ok { return false; }
    var oc := c.ReadUInt(4);
    if oc.None? { return false; }
    ok := c.SkipOutputs(oc.value);
    if !ok { return false; }
    var fee := c.ReadUInt(8);
    return fee.Some? && fee.value >= minFee;
  }

  class BlockTxIter {
    const data: Bytes
    var pos: nat
    var remaining: u32

    ghost predicate Valid()
      reads this
    {
      pos <= |data|
    }

    constructor (block: Bytes, offset: nat, txCount: u32)
      requires offset <= |block|
      ensures Valid() && data == block[offset..] && pos == 0 && remaining == txCount
    {
      data := block[offset..];
      pos, remaining := 0, txCount;
    }

    /** One lazy step; a transaction that does not parse ends the iteration and moves nothing. */
    method Next() returns (r: Option<TxView>)
      requires Valid()
      modifies this
      ensures Valid()
      ensures r == if old(remaining) == 0 then None else Parse(data[old(pos)..])
      ensures r.Some? ==> pos == old(pos) + r.value.parsedLen && remaining == old(remaining) - 1
      ensures r.None? ==> pos == old(pos) && remaining == old(remaining)
    {
      if remaining == 0 {
        return None;
      }
      r := ParseTx(data[pos..]);
      if r.None? {
        return None;
      }
      pos := pos + r.value.parsedLen;
      remaining := remaining - 1;
    }

    /** `collect`. */
    method Collect() returns (views: seq<TxView>)
      requires Valid()
      modifies this
      ensures Valid()
      ensures views == old(Views(data, pos, remaining))
      ensures pos == old(EndOfViews(data, pos, remaining))
    {
      hide Views, EndOfViews, Parse;
      views := [];
      var more := true;
      while more
        invariant Valid()
        invariant views + Views(data, pos, remaining) == old(Views(data, pos, remaining))
        invariant EndOfViews(data, pos, remaining) == old(EndOfViews(data, pos, remaining))
        invariant !more ==> Views(data, pos, remaining) == [] && EndOfViews(data, pos, remaining) == pos
        decreases remaining, more
      {
        ViewsStep(data, pos, remaining);
        var v := Next();
        match v {
          case Some(view) => views := views + [view];
          case None => more := false;
        }
      }
    }
  }

  lemma ViewsStep(d: Bytes, p: nat, n: nat)
    requires p <= |d|
    ensures var v := if n == 0 then None else Parse(d[p..]);
            if v.None? then Views(d, p, n) == [] && EndOfViews(d, p, n) == p
            else && p + v.value.parsedLen <= |d|
                 && Views(d, p, n) == [v.value] + Views(d, p + v.value.parsedLen, n - 1)
                 && EndOfViews(d, p, n) == EndOfViews(d, p + v.value.parsedLen, n - 1)
  {
    hide Parse;
  }

  /** End to end: the transactions of an encoded block come out one by one. */
  method ReadBlock(header: Bytes, txs: seq<WireTx>, tail: Bytes) returns (views: seq<TxView>)
    requires AllWellFormed(txs) && |txs| < U32 && |header| == BLOCK_HEADER_SIZE
    ensures |views| == |txs| && forall i :: 0 <= i < |txs| ==> views[i] == ViewOf(txs[i])
  {
    var block := header + EncodeAll(txs) + tail;
    assert block[BLOCK_HEADER_SIZE..] == EncodeAll(txs) + tail;
    var it := new BlockTxIter(block, BLOCK_HEADER_SIZE, |txs|);
    IterateEncoded(it.data, 0, txs);
    views := it.Collect();
  }
}
