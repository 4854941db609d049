/** The in-memory fingerprint store of morecats/deduplication.py.

    HASHES is a list of batches, each a two-dimensional boolean array with
    one fingerprint per row.  add_hash extends the last batch or starts a new
    one once it holds 10000 rows; has_similar scans every batch; load_hashes
    pages through the image table 10000 rows at a time and appends each page
    as one batch; reload_hashes clears the list and loads again.

    Here the list is the field `batches` of a HashStore object, a batch is a
    sequence of rows, and the table is a value of Records.Table. */
module Deduplication {
  import opened Wrappers
  import opened Records
  import opened Similarity
  import NeuralHash

  type Batch = seq<Fingerprint>

  /** The LIMIT of the load query, and the page length below which loading
      stops. */
  const PageSize := 10000

  /** The number of rows after which add_hash starts a new batch. */
  const Capacity := 10000

  /** All stored rows, batch after batch. */
  function Flatten(bs: seq<Batch>): seq<Fingerprint>
    decreases |bs|
  {
    if |bs| == 0 then [] else Flatten(bs[..|bs| - 1]) + bs[|bs| - 1]
  }

  /** A two-dimensional array: every row has the same length. */
  predicate Rectangular(rows: seq<Fingerprint>) {
    forall i, j :: 0 <= i < |rows| && 0 <= j < |rows| ==> |rows[i]| == |rows[j]|
  }

  /** What every batch the source ever builds is: a non-empty array. */
  predicate WellShaped(bs: seq<Batch>) {
    forall i :: 0 <= i < |bs| ==> |bs[i]| > 0 && Rectangular(bs[i])
  }

  /** The batch layout: each batch holds 1 to Capacity rows, and every batch
      but the last is full. */
  predicate PackedLayout(bs: seq<Batch>) {
    && (forall i :: 0 <= i < |bs| ==> 0 < |bs[i]| <= Capacity)
    && (forall i :: 0 <= i < |bs| - 1 ==> |bs[i]| == Capacity)
  }

  /** bitwise_xor(~bits, batch).sum(1).max(): the best popcount in a batch. */
  function MaxXorCount(q: Fingerprint, batch: Batch): nat
    requires |batch| > 0 && Uniform(batch, |q|)
    decreases |batch|
  {
    if |batch| == 1 then XorCount(q, batch[0])
    else
      var here, rest := XorCount(q, batch[0]), MaxXorCount(q, batch[1..]);
      if here < rest then rest else here
  }

  /** The score of one batch: its best popcount over batch.shape[1].  A
      width of 0 gives NaN in numpy, which has_similar never takes as a new
      maximum; 0.0 has the same effect. */
  function BatchScore(q: Fingerprint, batch: Batch): (s: real)
    requires |batch| > 0 && Uniform(batch, |q|)
    ensures s == MaxScore(q, batch)
  {
    BatchScoreIsMaxScore(q, batch);
    var width := |batch[0]|;
    if width == 0 then 0.0 else MaxXorCount(q, batch) as real / width as real
  }

  lemma DivMonotone(a: real, b: real, w: real)
    requires w > 0.0 && a <= b
    ensures a / w <= b / w
  {
    assert (a / w) * w == a && (b / w) * w == b;
  }

  lemma {:induction false} BatchScoreIsMaxScore(q: Fingerprint, batch: Batch)
    requires |batch| > 0 && Uniform(batch, |q|)
    ensures |q| > 0 ==> MaxXorCount(q, batch) as real / |q| as real == MaxScore(q, batch)
    ensures |q| == 0 ==> MaxScore(q, batch) == 0.0
    decreases |batch|
  {
    var w := |q| as real;
    if |batch| > 1 {
      BatchScoreIsMaxScore(q, batch[1..]);
      var a := XorCount(q, batch[0]);
      var b := MaxXorCount(q, batch[1..]);
      if |q| > 0 {
        if a < b { DivMonotone(a as real, b as real, w); } else { DivMonotone(b as real, a as real, w); }
      }
    }
  }

  /** What load_hashes can raise while building a batch. */
  datatype LoadError =
    | Undecodable(cause: NeuralHash.CodecError)  // hex2bits raised on a stored hash
    | Ragged                                     // np.array refused rows of different lengths

  /** The batches one run of load_hashes appends and the exception, if any,
      that ended it. */
  datatype LoadOutcome = LoadOutcome(batches: seq<Batch>, error: Option<LoadError>)

  /** [hex2bits(i.nhash) for i in records if i.nhash is not None]. */
  function DecodeRows(rows: Table): Result<seq<Fingerprint>, NeuralHash.CodecError>
    decreases |rows|
  {
    if |rows| == 0 then Success([])
    else if rows[0].nhash.None? then DecodeRows(rows[1..])
    else
      match NeuralHash.HexToBits(rows[0].nhash.value)
      case Failure(e) => Failure(e)
      case Success(bits) =>
        match DecodeRows(rows[1..])
        case Failure(e) => Failure(e)
        case Success(rest) => Success([bits] + rest)
  }

  /** np.array(..., dtype=bool) over the decoded rows of one page. */
  function ToBatch(records: Table): Result<Batch, LoadError> {
    match DecodeRows(records)
    case Failure(e) => Failure(Undecodable(e))
    case Success(rows) => if Rectangular(rows) then Success(rows) else Failure(Ragged)
  }

  /** The batches that load_hashes appends, and the exception that ends it,
      given the rows its query can return (those with a hash, in id order).
      Each round fetches the next PageSize of them; an empty round ends the
      load; an exception while decoding ends it before the batch is
      appended; a round shorter than a page ends it after. */
  function LoadChunks(e: Table): LoadOutcome
    decreases |e|
  {
    if |e| == 0 then LoadOutcome([], None)
    else
      var records := if |e| <= PageSize then e else e[..PageSize];
      match ToBatch(records)
      case Failure(err) => LoadOutcome([], Some(err))
      case Success(batch) =>
        if |e| < PageSize then LoadOutcome([batch], None)
        else
          var rest := LoadChunks(e[PageSize..]);
          LoadOutcome([batch] + rest.batches, rest.error)
  }

  /** What the rest of a load appends once last_id has reached lastId. */
  function Remaining(t: Table, lastId: int): LoadOutcome {
    LoadChunks(Eligible(t, lastId))
  }

  /** The outcome of load_hashes on a table, starting from last_id = 0. */
  function Load(t: Table): LoadOutcome {
    Remaining(t, 0)
  }

  /** The store holds, in id order, the decoded hash of every table row that
      has one: what load_hashes builds and add_hash keeps up to date. */
  predicate Mirrors(contents: seq<Fingerprint>, t: Table) {
    DecodeRows(Eligible(t, 0)) == Success(contents)
  }

  lemma {:induction false} FlattenConcat(a: seq<Batch>, b: seq<Batch>)
    ensures Flatten(a + b) == Flatten(a) + Flatten(b)
    decreases |b|
  {
    if |b| == 0 {
      assert a + b == a;
    } else {
      var b' := b[..|b| - 1];
      assert (a + b)[..|a + b| - 1] == a + b';
      FlattenConcat(a, b');
    }
  }

  lemma {:induction false} UniformFlatten(bs: seq<Batch>, w: nat)
    ensures Uniform(Flatten(bs), w) <==> forall i :: 0 <= i < |bs| ==> Uniform(bs[i], w)
    decreases |bs|
  {
    if |bs| > 0 {
      var init := bs[..|bs| - 1];
      var last := bs[|bs| - 1];
      UniformFlatten(init, w);
      var f := Flatten(bs);
      assert f == Flatten(init) + last;
      if Uniform(f, w) {
        forall i | 0 <= i < |init| ensures Uniform(init[i], w) {
          assert Uniform(Flatten(init), w) by {
            forall j | 0 <= j < |Flatten(init)| ensures |Flatten(init)[j]| == w {
              assert Flatten(init)[j] == f[j];
            }
          }
        }
        forall j | 0 <= j < |last| ensures |last[j]| == w {
          assert last[j] == f[|Flatten(init)| + j];
        }
      }
    }
  }

  lemma {:induction false} DecodeRowsConcat(a: Table, b: Table)
    ensures DecodeRows(a + b) ==
      match DecodeRows(a)
      case Failure(e) => Failure(e)
      case Success(x) =>
        match DecodeRows(b)
        case Failure(e) => Failure(e)
        case Success(y) => Success(x + y)
    decreases |a|
  {
    if |a| == 0 {
      assert a + b == b;
      match DecodeRows(b) {
        case Failure(_) =>
        case Success(y) => assert [] + y == y;
      }
    } else {
      assert (a + b)[1..] == a[1..] + b;
      DecodeRowsConcat(a[1..], b);
      match DecodeRows(a[1..]) {
        case Failure(_) =>
        case Success(x) =>
          match DecodeRows(b) {
            case Failure(_) =>
            case Success(y) =>
              if a[0].nhash.Some? && NeuralHash.HexToBits(a[0].nhash.value).Success? {
                assert [NeuralHash.HexToBits(a[0].nhash.value).value] + (x + y) ==
                       ([NeuralHash.HexToBits(a[0].nhash.value).value] + x) + y;
              }
          }
      }
    }
  }

  /** On rows that all carry a hash, a successful decode yields one
      fingerprint per row: the decoded hash of that row. */
  lemma {:induction false} DecodeRowsAt(rows: Table)
    requires forall i :: 0 <= i < |rows| ==> rows[i].nhash.Some?
    ensures DecodeRows(rows).Success? <==>
            forall i :: 0 <= i < |rows| ==> NeuralHash.HexToBits(rows[i].nhash.value).Success?
    ensures DecodeRows(rows).Success? ==>
            && |DecodeRows(rows).value| == |rows|
            && forall i :: 0 <= i < |rows| ==>
                 NeuralHash.HexToBits(rows[i].nhash.value) == Success(DecodeRows(rows).value[i])
    decreases |rows|
  {
    if |rows| > 0 {
      var tail := rows[1..];
      DecodeRowsAt(tail);
      assert forall i :: 0 < i < |rows| ==> rows[i] == tail[i - 1];
    }
  }

  /** What the mirror relation means row by row. */
  lemma MirrorsMeans(contents: seq<Fingerprint>, t: Table)
    ensures Mirrors(contents, t) <==>
            && |contents| == |Eligible(t, 0)|
            && forall i :: 0 <= i < |contents| ==>
                 NeuralHash.HexToBits(Eligible(t, 0)[i].nhash.value) == Success(contents[i])
  {
    var e := Eligible(t, 0);
    DecodeRowsAt(e);
    if |contents| == |e| && forall i :: 0 <= i < |contents| ==> NeuralHash.HexToBits(e[i].nhash.value) == Success(contents[i]) {
      assert DecodeRows(e).value == contents;
    }
  }

  lemma WellShapedConcat(a: seq<Batch>, b: seq<Batch>)
    requires WellShaped(a) && WellShaped(b)
    ensures WellShaped(a + b)
  {
    forall i | 0 <= i < |a + b| ensures |(a + b)[i]| > 0 && Rectangular((a + b)[i]) {
      if i < |a| {
        assert (a + b)[i] == a[i];
      } else {
        assert (a + b)[i] == b[i - |a|];
      }
    }
  }

  /** Rows that all carry a hash, as every query result does. */
  predicate AllHashed(rows: Table) {
    forall i :: 0 <= i < |rows| ==> rows[i].nhash.Some?
  }

  lemma {:induction false} ChunksWellShaped(e: Table)
    requires AllHashed(e)
    ensures WellShaped(LoadChunks(e).batches)
    decreases |e|
  {
    if |e| > 0 {
      var records := if |e| <= PageSize then e else e[..PageSize];
      DecodeRowsAt(records);
      match ToBatch(records)
      case Failure(_) =>
      case Success(batch) =>
        if |e| >= PageSize {
          var tail := e[PageSize..];
          ChunksWellShaped(tail);
          WellShapedConcat([batch], LoadChunks(tail).batches);
        }
    }
  }

  lemma {:induction false} ChunksPacked(e: Table)
    requires AllHashed(e)
    ensures PackedLayout(LoadChunks(e).batches)
    ensures LoadChunks(e).error.Some? ==>
            forall i :: 0 <= i < |LoadChunks(e).batches| ==> |LoadChunks(e).batches[i]| == Capacity
    decreases |e|
  {
    if |e| > 0 {
      var records := if |e| <= PageSize then e else e[..PageSize];
      DecodeRowsAt(records);
      match ToBatch(records)
      case Failure(_) =>
      case Success(batch) =>
        if |e| >= PageSize {
          var tail := e[PageSize..];
          ChunksPacked(tail);
          var rest := LoadChunks(tail).batches;
          var r := LoadChunks(e).batches;
          assert r == [batch] + rest;
          forall i | 0 < i < |r| ensures r[i] == rest[i - 1] {
          }
        }
    }
  }

  lemma {:induction false} ChunksComplete(e: Table)
    requires LoadChunks(e).error.None?
    ensures DecodeRows(e) == Success(Flatten(LoadChunks(e).batches))
    decreases |e|
  {
    if |e| > 0 {
      var records := if |e| <= PageSize then e else e[..PageSize];
      match ToBatch(records)
      case Failure(_) =>
        assert false;
      case Success(batch) =>
        assert DecodeRows(records) == Success(batch);
        FlattenSingle(batch);
        if |e| >= PageSize {
          var tail := e[PageSize..];
          var rest := LoadChunks(tail);
          assert LoadChunks(e).batches == [batch] + rest.batches;
          ChunksComplete(tail);
          assert e == records + tail;
          FlattenConcat([batch], rest.batches);
          DecodeRowsConcat(records, tail);
        }
    }
  }

  lemma {:induction false} ChunksPartial(e: Table)
    requires LoadChunks(e).error.Some?
    ensures |LoadChunks(e).batches| * PageSize <= |e|
    ensures DecodeRows(e[..|LoadChunks(e).batches| * PageSize]) == Success(Flatten(LoadChunks(e).batches))
    decreases |e|
  {
    var records := if |e| <= PageSize then e else e[..PageSize];
    match ToBatch(records)
    case Failure(_) =>
      assert LoadChunks(e).batches == [];
      assert e[..0] == [];
    case Success(batch) =>
      var tail := e[PageSize..];
      var rest := LoadChunks(tail);
      assert LoadChunks(e) == LoadOutcome([batch] + rest.batches, rest.error);
      ChunksPartial(tail);
      FlattenSingle(batch);
      FlattenConcat([batch], rest.batches);
      var k := |rest.batches| * PageSize;
      assert |LoadChunks(e).batches| * PageSize == PageSize + k;
      assert e[..PageSize + k] == records + tail[..k];
      DecodeRowsConcat(records, tail[..k]);
  }

  lemma {:induction false} ChunksErrors(e: Table)
    ensures DecodeRows(e).Failure? ==> LoadChunks(e).error.Some?
    ensures DecodeRows(e).Success? && Rectangular(DecodeRows(e).value) ==> LoadChunks(e).error.None?
    decreases |e|
  {
    if |e| > 0 {
      var records := if |e| <= PageSize then e else e[..PageSize];
      var tail := e[|records|..];
      assert e == records + tail;
      DecodeRowsConcat(records, tail);
      match ToBatch(records)
      case Failure(_) =>
        if DecodeRows(records).Success? && DecodeRows(tail).Success? {
          ConcatRectangular(DecodeRows(records).value, DecodeRows(tail).value);
        }
      case Success(batch) =>
        if |e| >= PageSize {
          ChunksErrors(tail);
          if DecodeRows(tail).Success? {
            ConcatRectangular(batch, DecodeRows(tail).value);
          }
        } else {
          assert tail == [];
        }
    }
  }

  lemma {:induction false} ChunksCount(e: Table)
    requires LoadChunks(e).error.None?
    ensures |LoadChunks(e).batches| == (|e| + PageSize - 1) / PageSize
    decreases |e|
  {
    if |e| > 0 {
      var records := if |e| <= PageSize then e else e[..PageSize];
      match ToBatch(records)
      case Failure(_) =>
        assert false;
      case Success(batch) =>
        if |e| >= PageSize {
          var rest := LoadChunks(e[PageSize..]);
          assert LoadChunks(e) == LoadOutcome([batch] + rest.batches, rest.error);
          ChunksCount(e[PageSize..]);
        }
    }
  }

  lemma FlattenSingle(b: Batch)
    ensures Flatten([b]) == b
  {
    assert [b][..0] == [];
    assert [] + b == b;
  }

  lemma ConcatRectangular(x: seq<Fingerprint>, y: seq<Fingerprint>)
    ensures Rectangular(x + y) ==> Rectangular(x) && Rectangular(y)
  {
    if Rectangular(x + y) {
      forall i, j | 0 <= i < |x| && 0 <= j < |x| ensures |x[i]| == |x[j]| {
        assert x[i] == (x + y)[i] && x[j] == (x + y)[j];
      }
      forall i, j | 0 <= i < |y| && 0 <= j < |y| ensures |y[i]| == |y[j]| {
        assert y[i] == (x + y)[|x| + i] && y[j] == (x + y)[|x| + j];
      }
    }
  }

  /** Every batch a load appends is a non-empty rectangular array of at
      most a page; all batches but the last are full; and when a load is cut
      short by an exception, every batch it appended is full. */
  lemma LoadShape(t: Table)
    ensures WellShaped(Load(t).batches)
    ensures PackedLayout(Load(t).batches)
    ensures Load(t).error.Some? ==> forall i :: 0 <= i < |Load(t).batches| ==> |Load(t).batches[i]| == Capacity
  {
    ChunksWellShaped(Eligible(t, 0));
    ChunksPacked(Eligible(t, 0));
  }

  /** A load that runs to the end holds the decoded hash of every row that
      has one, in id order; one cut short by an exception holds those of the
      full pages before the failing one. */
  lemma LoadContents(t: Table)
    ensures var r := Load(t);
            var e := Eligible(t, 0);
            && (r.error.None? ==> DecodeRows(e) == Success(Flatten(r.batches)))
            && (r.error.Some? ==> |r.batches| * PageSize <= |e| &&
                                  DecodeRows(e[..|r.batches| * PageSize]) == Success(Flatten(r.batches)))
  {
    var e := Eligible(t, 0);
    if LoadChunks(e).error.None? {
      ChunksComplete(e);
    } else {
      ChunksPartial(e);
    }
  }

  /** load_hashes raises when a stored hash cannot be decoded, and never
      when the hashes all decode to one length. */
  lemma LoadErrors(t: Table)
    ensures DecodeRows(Eligible(t, 0)).Failure? ==> Load(t).error.Some?
    ensures DecodeRows(Eligible(t, 0)).Success? && Rectangular(DecodeRows(Eligible(t, 0)).value) ==>
            Load(t).error.None?
  {
    ChunksErrors(Eligible(t, 0));
  }

  /** A complete load of N hashed rows makes ceil(N / 10000) batches: 25000
      rows give three batches and exactly 20000 give two. */
  lemma LoadBatchCount(t: Table)
    requires Load(t).error.None?
    ensures |Load(t).batches| == (|Eligible(t, 0)| + PageSize - 1) / PageSize
  {
    ChunksCount(Eligible(t, 0));
  }

  /** A store loaded without error mirrors its table. */
  lemma LoadedStoreMirrors(t: Table)
    requires Load(t).error.None?
    ensures Mirrors(Flatten(Load(t).batches), t)
  {
    LoadContents(t);
  }

  /** An insert of a row that carries the encoding of a fingerprint, into a
      table the store mirrors, is mirrored by appending that fingerprint. */
  lemma MirrorsInsert(contents: seq<Fingerprint>, t: Table, row: Row, bits: Fingerprint)
    requires WellFormed(t) && Mirrors(contents, t)
    requires Insert(t, row).Success?
    requires row.nhash.Some? && NeuralHash.HexToBits(row.nhash.value) == Success(bits)
    ensures WellFormed(Insert(t, row).value)
    ensures Mirrors(contents + [bits], Insert(t, row).value)
  {
    var t' := Insert(t, row).value;
    InsertKeepsWellFormed(t, row);
    var added := [t'[|t|]];
    assert t' == t + added;
    assert added[0].nhash == row.nhash && added[0].id > 0;
    EligibleConcat(t, added, 0);
    assert Eligible(added, 0) == added by {
      assert added[1..] == [];
    }
    assert DecodeRows(added) == Success([bits]) by {
      assert added[1..] == [];
      assert [bits] + [] == [bits];
    }
    DecodeRowsConcat(Eligible(t, 0), added);
  }

  /** UPDATE of the count column leaves every hash where it was. */
  lemma {:induction false} DecodeRowsUpdate(rows: Table, f: string, c: int)
    ensures DecodeRows(UpdateCount(rows, f, c)) == DecodeRows(rows)
    decreases |rows|
  {
    if |rows| > 0 {
      assert UpdateCount(rows, f, c)[1..] == UpdateCount(rows[1..], f, c);
      DecodeRowsUpdate(rows[1..], f, c);
    }
  }

  lemma {:induction false} EligibleUpdate(t: Table, f: string, c: int, lastId: int)
    ensures Eligible(UpdateCount(t, f, c), lastId) == UpdateCount(Eligible(t, lastId), f, c)
    decreases |t|
  {
    if |t| > 0 {
      var u := UpdateCount(t, f, c);
      assert u[1..] == UpdateCount(t[1..], f, c);
      EligibleUpdate(t[1..], f, c, lastId);
      var head := if t[0].nhash.Some? && t[0].id > lastId then [t[0]] else [];
      assert UpdateCount(head + Eligible(t[1..], lastId), f, c) ==
             UpdateCount(head, f, c) + UpdateCount(Eligible(t[1..], lastId), f, c);
    }
  }

  /** A count update on a table the store mirrors needs no change to the
      store. */
  lemma MirrorsUpdate(contents: seq<Fingerprint>, t: Table, f: string, c: int)
    requires WellFormed(t) && Mirrors(contents, t)
    ensures WellFormed(UpdateCount(t, f, c))
    ensures Mirrors(contents, UpdateCount(t, f, c))
  {
    UpdateKeepsWellFormed(t, f, c);
    EligibleUpdate(t, f, c, 0);
    DecodeRowsUpdate(Eligible(t, 0), f, c);
  }

  lemma AppendAssoc(a: seq<Batch>, b: seq<Batch>, c: seq<Batch>)
    ensures a + (b + c) == (a + b) + c
  {
  }

  /** A store whose contents are the rows of all its batches. */
  class HashStore {
    var batches: seq<Batch>

    /** Every batch is a non-empty rectangular array. */
    predicate Valid()
      reads this
    {
      WellShaped(batches)
    }

    /** The batch layout holds. */
    predicate Packed()
      reads this
    {
      PackedLayout(batches)
    }

    /** All stored fingerprints, oldest first. */
    function Contents(): seq<Fingerprint>
      reads this
    {
      Flatten(batches)
    }

    /** HASHES = []: the store at process start. */
    constructor ()
      ensures batches == [] && Valid() && Packed()
    {
      batches := [];
    }

    /** add_hash: extend the last batch by one row, or start a new one-row
        batch when there is none or the last one holds Capacity rows.
        np.append raises when the row's length differs from the last batch's
        width; the store is then left as it was. */
    method AddHash(bits: Fingerprint) returns (ok: bool)
      requires Valid()
      modifies this
      ensures Valid()
      ensures var n := |old(batches)|;
              var starts := n == 0 || |old(batches)[n - 1]| >= Capacity;
              && ok == (starts || |old(batches)[n - 1][0]| == |bits|)
              && (ok && starts ==> batches == old(batches) + [[bits]])
              && (ok && !starts ==> batches == old(batches)[..n - 1] + [old(batches)[n - 1] + [bits]])
              && (!ok ==> batches == old(batches))
      ensures ok ==> Contents() == old(Contents()) + [bits]
      ensures old(Uniform(Contents(), |bits|)) ==> ok
      ensures old(Packed()) ==> Packed()
    {
      var n := |batches|;
      if n == 0 || |batches[n - 1]| >= Capacity {
        batches := batches + [[bits]];
        ok := true;
        assert batches[..n] == old(batches);
      } else if |batches[n - 1][0]| != |bits| {
        UniformFlatten(batches, |bits|);
        ok := false;
      } else {
        var last := batches[n - 1] + [bits];
        var init := batches[..n - 1];
        assert old(batches) == init + [old(batches)[n - 1]];
        batches := init + [last];
        ok := true;
        assert batches[..n - 1] == init;
        assert old(batches)[..n - 1] == init;
      }
    }

    /** has_similar: the highest score of any stored row, scanned batch by
        batch, 0 for an empty store. */
    method HasSimilar(bits: Fingerprint) returns (similarity: real)
      requires Valid() && Uniform(Contents(), |bits|)
      ensures similarity == MaxScore(bits, Contents())
      ensures 0.0 <= similarity <= 1.0
      ensures Contents() == [] ==> similarity == 0.0
    {
      UniformFlatten(batches, |bits|);
      similarity := 0.0;
      for k := 0 to |batches|
        invariant Uniform(Flatten(batches[..k]), |bits|)
        invariant similarity == MaxScore(bits, Flatten(batches[..k]))
      {
        var score := BatchScore(bits, batches[k]);
        assert batches[..k + 1][..k] == batches[..k];
        MaxScoreConcat(bits, Flatten(batches[..k]), batches[k]);
        if score > similarity {
          similarity := score;
        }
      }
      assert batches[..|batches|] == batches;
    }

    /** One pass of the loop of load_hashes: fetch the page after lastId,
        decode it and append it as a batch.  more is false when the loop
        ends there, by an empty page, an exception or a short page. */
    method LoadRound(t: Table, lastId: int) returns (more: bool, next: int, err: Option<LoadError>, ghost added: seq<Batch>)
      requires Sorted(t)
      modifies this
      ensures batches == old(batches) + added
      ensures more ==> |Eligible(t, next)| < |Eligible(t, lastId)|
      ensures more ==> Remaining(t, lastId).batches == added + Remaining(t, next).batches
      ensures more ==> Remaining(t, lastId).error == Remaining(t, next).error
      ensures !more ==> Remaining(t, lastId).batches == added && Remaining(t, lastId).error == err
    {
      added := [];
      var records := Page(t, lastId, PageSize);
      if |records| == 0 {
        assert batches + [] == batches;
        assert Eligible(t, lastId) == [];
        return false, lastId, None, [];
      }
      NextPage(t, lastId, PageSize);
      next := records[|records| - 1].id;
      ghost var e := Eligible(t, lastId);
      assert records == (if |e| <= PageSize then e else e[..PageSize]);
      assert Eligible(t, next) == e[|records|..];
      var batch := ToBatch(records);
      if batch.Failure? {
        assert batches + [] == batches;
        return false, next, Some(batch.error), [];
      }
      batches := batches + [batch.value];
      added := [batch.value];
      more := |records| >= PageSize;
      err := None;
    }

    /** load_hashes: page through the table from last_id = 0, appending one
        batch per page. */
    method LoadHashes(t: Table) returns (err: Option<LoadError>)
      requires Valid() && Sorted(t)
      modifies this
      ensures Valid()
      ensures batches == old(batches) + Load(t).batches
      ensures err == Load(t).error
    {
      ghost var whole := Remaining(t, 0);
      var lastId := 0;
      ghost var loaded: seq<Batch> := [];
      var more := true;
      err := None;
      while more
        invariant batches == old(batches) + loaded
        invariant more ==> whole.batches == loaded + Remaining(t, lastId).batches
        invariant more ==> whole.error == Remaining(t, lastId).error
        invariant !more ==> whole.batches == loaded && whole.error == err
        decreases more, |Eligible(t, lastId)|
      {
        ghost var added;
        more, lastId, err, added := LoadRound(t, lastId);
        AppendAssoc(loaded, added, Remaining(t, lastId).batches);
        loaded := loaded + added;
      }
      LoadShape(t);
      WellShapedConcat(old(batches), loaded);
    }

    /** reload_hashes: HASHES.clear() and load again.  The result depends on
        the table alone. */
    method ReloadHashes(t: Table) returns (err: Option<LoadError>)
      requires Sorted(t)
      modifies this
      ensures Valid() && Packed()
      ensures batches == Load(t).batches
      ensures err == Load(t).error
    {
      batches := [];
      err := LoadHashes(t);
      LoadShape(t);
    }
  }
}
