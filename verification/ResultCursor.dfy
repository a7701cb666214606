/** The row and block cursor of EtDBResult over a stream of server batches, and the C handle
    that maps block-relative rows to the batch just delivered. */
module ResultCursor {
  import opened Bytes

  /** What the server side makes of one FETCH: a batch with its stream state, or a failed
      round trip, which may or may not have cleared the rows in memory. */
  datatype Reply<T> = Batch(rows: seq<T>, qId: int, ended: bool) | Failure(cleared: bool)

  /** The rows the replies still hold for a cursor that goes on fetching until the final
      batch, a batch without query id, or a failure. */
  function Remaining<T>(stopped: bool, replies: seq<Reply<T>>): seq<T>
    decreases |replies|
  {
    if stopped || replies == [] then []
    else
      match replies[0]
      case Failure(_) => []
      case Batch(rows, qId, ended) => rows + Remaining(ended || qId == 0, replies[1..])
  }

  /** Every batch that announces more has at least one row. */
  predicate NoEmptyBatch<T>(replies: seq<Reply<T>>) {
    forall i :: 0 <= i < |replies| && replies[i].Batch? && !replies[i].ended && replies[i].qId != 0 ==>
      replies[i].rows != []
  }

  /** The next batch announces more but is empty, and rows come behind it. */
  predicate HidesNext<T>(stopped: bool, replies: seq<Reply<T>>) {
    !stopped && replies != [] && replies[0].Batch? && replies[0].rows == [] &&
    !replies[0].ended && replies[0].qId != 0 && Remaining(false, replies[1..]) != []
  }

  /** Some batch that will be fetched is such a one. */
  predicate HidesRows<T>(stopped: bool, replies: seq<Reply<T>>)
    decreases |replies|
  {
    !stopped && replies != [] && replies[0].Batch? &&
    (HidesNext(stopped, replies) || HidesRows(replies[0].ended || replies[0].qId == 0, replies[1..]))
  }

  lemma {:induction false} HiddenRemain<T>(stopped: bool, replies: seq<Reply<T>>)
    requires HidesRows(stopped, replies)
    ensures Remaining(stopped, replies) != []
    decreases |replies|
  {
    if !HidesNext(stopped, replies) { HiddenRemain(replies[0].ended || replies[0].qId == 0, replies[1..]); }
  }

  /** Behind an empty batch: rows are hidden later only if they are hidden by this one. */
  lemma {:induction false} EmptyHides<T>(replies: seq<Reply<T>>)
    requires replies != [] && replies[0].Batch? && replies[0].rows == []
    ensures HidesRows(false, replies) <==> HidesNext(false, replies)
    ensures HidesNext(false, replies) <==> Remaining(replies[0].ended || replies[0].qId == 0, replies[1..]) != []
  {
    var stops := replies[0].ended || replies[0].qId == 0;
    if HidesRows(stops, replies[1..]) { HiddenRemain(stops, replies[1..]); }
  }

  /** Nonempty batches hide nothing. */
  lemma {:induction false} NonemptyHidesNothing<T>(stopped: bool, replies: seq<Reply<T>>)
    requires NoEmptyBatch(replies)
    ensures !HidesRows(stopped, replies)
    decreases |replies|
  {
    if replies != [] && replies[0].Batch? {
      NonemptyHidesNothing(replies[0].ended || replies[0].qId == 0, replies[1..]);
    }
  }

  class Cursor<T> {
    var batch: seq<T>            // the in-memory batch
    var rowCursor: nat           // next unconsumed row of it
    var streamQId: int
    var streamEnded: bool
    var streamError: bool
    var connected: bool
    var replies: seq<Reply<T>>   // what the coming FETCH calls will get
    ghost var delivered: seq<T>  // every row handed out so far, in order

    predicate Stopped()
      reads this
    {
      streamEnded || streamQId == 0 || !connected
    }

    /** A FETCH would bring a batch. */
    predicate Fetches()
      reads this
    {
      !Stopped() && replies != [] && replies[0].Batch?
    }

    /** The next fetch will come back empty although rows remain. */
    predicate HidesNow()
      reads this
    {
      rowCursor == |batch| && HidesNext(Stopped(), replies)
    }

    /** Some fetch will. */
    predicate Hides()
      reads this
    {
      HidesRows(Stopped(), replies)
    }

    ghost predicate Valid()
      reads this
    {
      rowCursor <= |batch| && (streamError ==> streamEnded)
    }

    /** The whole result: what was handed out, what is in memory, what is still to come. */
    ghost function Whole(): seq<T>
      requires rowCursor <= |batch|
      reads this
    {
      delivered + batch[rowCursor..] + Remaining(Stopped(), replies)
    }

    constructor (batch: seq<T>, qId: int, ended: bool, connected: bool, replies: seq<Reply<T>>)
      ensures Valid() && delivered == [] && this.replies == replies && this.batch == batch && rowCursor == 0
      ensures Stopped() == (ended || qId == 0 || !connected)
    {
      this.batch, rowCursor, streamQId, streamEnded, streamError := batch, 0, qId, ended, false;
      this.connected, this.replies, delivered := connected, replies, [];
    }

    /** One FETCH round trip; a failure ends the stream. */
    method FetchStreamRows() returns (ok: bool)
      requires Valid() && rowCursor == |batch| && !Stopped()
      modifies this
      ensures Valid() && delivered == old(delivered) && connected == old(connected) && rowCursor <= |batch|
      ensures ok ==> rowCursor == 0 && !streamError
      ensures ok ==>
        old(replies) != [] && old(replies)[0] == Batch(batch, streamQId, streamEnded) && replies == old(replies)[1..]
      ensures !ok ==>
        streamEnded && streamError && rowCursor == |batch| && (old(replies) == [] || old(replies)[0].Failure?)
      ensures Whole() == old(Whole())
    {
      if replies == [] {
        streamEnded, streamError := true, true;
        return false;
      }
      var reply := replies[0];
      replies := replies[1..];
      match reply
      case Failure(cleared) =>
        if cleared { batch, rowCursor := [], 0; }
        streamEnded, streamError := true, true;
        return false;
      case Batch(rows, qId, ended) =>
        batch, rowCursor, streamQId, streamEnded, streamError := rows, 0, qId, ended, false;
        return true;
    }

    /** Rows left, or one more batch; an empty batch reads as exhausted. */
    method AdvanceRow() returns (more: bool)
      requires Valid()
      modifies this
      ensures Valid() && delivered == old(delivered) && Whole() == old(Whole())
      ensures more <==> rowCursor < |batch|
      ensures more <==> old(rowCursor < |batch|) || (old(Fetches()) && old(replies)[0].rows != [])
      ensures old(Fetches()) && old(rowCursor == |batch|) ==> !streamError && batch == old(replies)[0].rows
      ensures more ==> Hides() == old(Hides())
      ensures !more ==> (delivered == Whole() <==> !old(Hides())) && (delivered == Whole() <==> !old(HidesNow()))
    {
      if rowCursor < |batch| { return true; }
      if streamEnded || streamQId == 0 || !connected {
        DrainedIsWhole();
        return false;
      }
      var ok := FetchStreamRows();
      if !ok {
        DrainedIsWhole();
        return false;
      }
      if rowCursor == |batch| {
        EmptyHides(old(replies));
        DrainedIsWhole();
      }
      return rowCursor < |batch|;
    }

    /** With nothing left in memory the rest is what the replies hold. */
    lemma {:induction false} DrainedIsWhole()
      requires rowCursor == |batch|
      ensures delivered == Whole() <==> Remaining(Stopped(), replies) == []
    {
      assert Whole() == delivered + Remaining(Stopped(), replies);
    }

    /** Empty although rows remain exactly when the next batch hides them. */
    method FetchRow() returns (row: Option<T>)
      requires Valid()
      modifies this
      ensures Valid() && Whole() == old(Whole())
      ensures row.Some? ==>
        delivered == old(delivered) + [row.value] && 0 < rowCursor && batch[rowCursor - 1] == row.value
      ensures row.None? ==> delivered == old(delivered) && rowCursor == |batch|
      ensures row.Some? <==> old(rowCursor < |batch|) || (old(Fetches()) && old(replies)[0].rows != [])
      ensures old(Fetches()) && old(rowCursor == |batch|) ==> !streamError
      ensures row.None? && delivered != Whole() <==> old(HidesNow())
      ensures row.None? ==> (delivered == Whole() <==> !old(Hides()))
      ensures row.Some? ==> Hides() == old(Hides())
    {
      var more := AdvanceRow();
      if !more { return None; }
      row := Some(batch[rowCursor]);
      delivered := delivered + [batch[rowCursor]];
      rowCursor := rowCursor + 1;
      assert batch[rowCursor - 1..] == [row.value] + batch[rowCursor..];
      assert old(delivered) + ([row.value] + batch[rowCursor..]) == delivered + batch[rowCursor..];
    }

    /** The unconsumed rest of the batch, or else the next batch; all of it is consumed. */
    method FetchBlock() returns (n: int)
      requires Valid()
      modifies this
      ensures Valid() && Whole() == old(Whole()) && rowCursor == |batch|
      ensures n >= 0 ==> n <= |batch| && delivered == old(delivered) + batch[|batch| - n..]
      ensures n < 0 ==> n == -1 && streamError && delivered == old(delivered)
      ensures n <= 0 && delivered != Whole() <==> old(HidesNow())
      ensures n <= 0 ==> (delivered == Whole() <==> !old(Hides()))
      ensures n > 0 ==> Hides() == old(Hides())
    {
      if rowCursor < |batch| {
        n := |batch| - rowCursor;
        ConsumeRest();
        return n;
      }
      if streamEnded || streamQId == 0 || !connected {
        DrainedIsWhole();
        return 0;
      }
      var ok := FetchStreamRows();
      if !ok {
        DrainedIsWhole();
        return -1;
      }
      if batch == [] {
        EmptyHides(old(replies));
        DrainedIsWhole();
      }
      ConsumeRest();
      return |batch|;
    }

    method ConsumeRest()
      requires Valid()
      modifies this`rowCursor, this`delivered
      ensures Valid() && rowCursor == |batch| && Whole() == old(Whole())
      ensures delivered == old(delivered) + batch[old(rowCursor)..] && Hides() == old(Hides())
    {
      delivered := delivered + batch[rowCursor..];
      rowCursor := |batch|;
      assert delivered + batch[rowCursor..] == delivered;
    }
  }

  datatype Call = Row | Block

  /** Any interleaving of row and block calls, gone on with after a call came back empty or
      not: what it collects is a prefix of the whole result, and all of it once a call comes
      back empty, if no batch hides rows. */
  method Collect<T>(c: Cursor<T>, calls: seq<Call>) returns (rows: seq<T>, exhausted: bool)
    requires c.Valid()
    modifies c
    ensures c.Valid() && c.Whole() == old(c.Whole()) && c.delivered == old(c.delivered) + rows
    ensures old(c.delivered) + rows <= old(c.Whole())
    ensures exhausted && !old(c.Hides()) ==> old(c.delivered) + rows == old(c.Whole())
  {
    hide Remaining, HidesRows, HidesNext;
    rows, exhausted := [], false;
    for i := 0 to |calls|
      invariant c.Valid() && c.Whole() == old(c.Whole()) && c.delivered == old(c.delivered) + rows
      invariant exhausted && !old(c.Hides()) ==> c.delivered == c.Whole()
      invariant !exhausted ==> c.Hides() == old(c.Hides())
    {
      var more, empty := OneCall(c, calls[i]);
      rows := rows + more;
      exhausted := exhausted || empty;
    }
    DeliveredIsPrefix(c);
  }

  /** The same, but stopping at the first call that comes back empty: then everything has
      been collected if and only if no batch hides rows; nonempty batches hide none. */
  method CollectUntilEmpty<T>(c: Cursor<T>, calls: seq<Call>) returns (rows: seq<T>, exhausted: bool)
    requires c.Valid()
    modifies c
    ensures c.Valid() && c.Whole() == old(c.Whole()) && c.delivered == old(c.delivered) + rows
    ensures exhausted ==> (old(c.delivered) + rows == old(c.Whole()) <==> !old(c.Hides()))
    ensures exhausted && old(NoEmptyBatch(c.replies)) ==> old(c.delivered) + rows == old(c.Whole())
  {
    hide Remaining, HidesRows, HidesNext;
    rows, exhausted := [], false;
    if NoEmptyBatch(c.replies) { NonemptyHidesNothing(c.Stopped(), c.replies); }
    var i := 0;
    while i < |calls| && !exhausted
      invariant c.Valid() && c.Whole() == old(c.Whole()) && c.delivered == old(c.delivered) + rows
      invariant exhausted ==> (c.delivered == c.Whole() <==> !old(c.Hides()))
      invariant !exhausted ==> c.Hides() == old(c.Hides())
    {
      var more;
      more, exhausted := OneCall(c, calls[i]);
      rows := rows + more;
      i := i + 1;
    }
  }

  method OneCall<T>(c: Cursor<T>, call: Call) returns (rows: seq<T>, empty: bool)
    requires c.Valid()
    modifies c
    ensures c.Valid() && c.Whole() == old(c.Whole()) && c.delivered == old(c.delivered) + rows
    ensures empty ==> (c.delivered == c.Whole() <==> !old(c.Hides()))
    ensures !empty ==> c.Hides() == old(c.Hides())
    ensures old(c.delivered) == old(c.Whole()) ==> c.delivered == c.Whole()
  {
    if call.Row? {
      var row := c.FetchRow();
      rows, empty := if row.Some? then [row.value] else [], row.None?;
    } else {
      var n := c.FetchBlock();
      rows, empty := if n > 0 then c.batch[|c.batch| - n..] else [], n <= 0;
    }
    DeliveredIsPrefix(c);
  }

  lemma {:induction false} DeliveredIsPrefix<T>(c: Cursor<T>)
    requires c.Valid()
    ensures c.delivered <= c.Whole()
  {
    assert c.Whole() == c.delivered + (c.batch[c.rowCursor..] + Remaining(c.Stopped(), c.replies));
  }

  /** The whole result is the concatenation of all batches when none failed and only the
      last one says it is final. */
  function AllRows<T>(batches: seq<seq<T>>): seq<T> {
    if batches == [] then [] else batches[0] + AllRows(batches[1..])
  }

  function Replies<T>(batches: seq<seq<T>>, qId: int): (r: seq<Reply<T>>)
    ensures |r| == |batches|
  {
    seq(|batches|, i requires 0 <= i < |batches| => Batch(batches[i], qId, i == |batches| - 1))
  }

  lemma {:induction false} RemainingIsEverything<T>(batches: seq<seq<T>>, qId: int)
    requires qId != 0
    ensures Remaining(false, Replies(batches, qId)) == AllRows(batches)
    decreases |batches|
  {
    if batches != [] {
      assert Replies(batches, qId)[1..] == Replies(batches[1..], qId);
      RemainingIsEverything(batches[1..], qId);
      if |batches| == 1 { assert AllRows(batches[1..]) == []; }
    }
  }

  ghost predicate EmptyBefore<T>(batches: seq<seq<T>>, k: nat) {
    k < |batches| && batches[k] == [] && AllRows(batches[k + 1..]) != []
  }

  lemma {:induction false} EmptyBeforeRest<T>(batches: seq<seq<T>>)
    requires batches != []
    ensures (exists k :: EmptyBefore(batches, k)) <==>
            (batches[0] == [] && AllRows(batches[1..]) != []) || exists k :: EmptyBefore(batches[1..], k)
  {
    var rest := batches[1..];
    if k: nat :| EmptyBefore(batches, k) && k > 0 {
      assert batches[k + 1..] == rest[k - 1 + 1..];
      assert EmptyBefore(rest, k - 1);
    }
    if k: nat :| EmptyBefore(rest, k) {
      assert batches[k + 1 + 1..] == rest[k + 1..];
      assert EmptyBefore(batches, k + 1);
    }
    if batches[0] == [] && AllRows(rest) != [] { assert EmptyBefore(batches, 0); }
  }

  /** Rows are hidden exactly when an empty batch stands before a nonempty one. */
  lemma {:induction false} HiddenIffEmptyBefore<T>(batches: seq<seq<T>>, qId: int)
    requires qId != 0
    ensures HidesRows(false, Replies(batches, qId)) <==> exists k :: EmptyBefore(batches, k)
    decreases |batches|
  {
    if batches != [] {
      var rest := batches[1..];
      assert Replies(batches, qId)[1..] == Replies(rest, qId);
      EmptyBeforeRest(batches);
      RemainingIsEverything(rest, qId);
      HiddenIffEmptyBefore(rest, qId);
      if |batches| == 1 { assert AllRows(rest) == []; }
    }
  }

  // ---------------------------------------------------------------- the C handle

  /** ETDB_RESULT: row numbers mean the current row, the current block or the plain batch,
      depending on the last fetch. */
  class Handle<T> {
    const result: Cursor<T>
    var row: Option<T>     // current row buffer
    var rowValid: bool
    var blockBase: nat
    var blockRows: nat
    var blockValid: bool

    constructor (result: Cursor<T>)
      ensures this.result == result && !rowValid && !blockValid
    {
      this.result := result;
      row, rowValid, blockBase, blockRows, blockValid := None, false, 0, 0, false;
    }

    /** The row behind a row number; None reads as NULL in every column. */
    function Lookup(r: int): Option<T>
      reads this, result
    {
      if rowValid && r == 0 then row
      else if blockValid then if r < 0 || r >= blockRows then None else BatchRow(blockBase + r)
      else BatchRow(r)
    }

    function BatchRow(r: int): Option<T>
      reads result
    {
      if 0 <= r < |result.batch| then Some(result.batch[r]) else None
    }

    /** 1 and row number 0 is the row just delivered; 0 when exhausted; -1 when a fetch failed. */
    method FetchRow() returns (code: int)
      requires result.Valid()
      modifies this, result
      ensures result.Valid() && result.Whole() == old(result.Whole())
      ensures code == 1 ==>
        result.delivered != [] && result.delivered[..|result.delivered| - 1] == old(result.delivered) &&
        Lookup(0) == Some(result.delivered[|result.delivered| - 1])
      ensures code != 1 ==> result.delivered == old(result.delivered) && code == if result.streamError then -1 else 0
      ensures forall r :: r != 0 || code != 1 ==> Lookup(r) == BatchRow(r)
    {
      blockValid, row := false, None;
      row := result.FetchRow();
      if row.None? {
        rowValid := false;
        return if result.streamError then -1 else 0;
      }
      rowValid := true;
      return 1;
    }

    /** n > 0 and row numbers 0 to n - 1 are exactly the n rows just delivered; 0 when
        exhausted; -1 when a fetch failed. */
    method FetchBlock() returns (n: int)
      requires result.Valid()
      modifies this, result
      ensures result.Valid() && result.Whole() == old(result.Whole()) && n >= -1
      ensures n > 0 ==> |result.delivered| >= n && result.delivered[..|result.delivered| - n] == old(result.delivered)
      ensures n > 0 ==> forall r ::
        Lookup(r) == if 0 <= r < n then Some(result.delivered[|result.delivered| - n + r]) else None
      ensures n <= 0 ==> result.delivered == old(result.delivered) && forall r :: Lookup(r) == BatchRow(r)
      ensures n == -1 ==> result.streamError
    {
      rowValid := false;
      n := result.FetchBlock();
      if n <= 0 {
        blockValid, blockRows := false, 0;
        return n;
      }
      blockBase := result.rowCursor - n;
      blockRows := n;
      blockValid := true;
    }
  }

  /** A batch that announces more but is empty makes a fetch come back empty, without an
      error, although a row remains. */
  method EmptyBatchLooksExhausted<T>(x: T) returns (c: Cursor<T>, row: Option<T>)
    ensures c.Valid() && row.None? && !c.streamError && c.delivered == [] && c.Whole() == [x]
  {
    var replies := [Batch([], 7, false), Batch([x], 7, true)];
    c := new Cursor([], 7, false, true, replies);
    assert replies[1..] == [Batch([x], 7, true)];
    assert Remaining(false, replies[1..]) == [x] by { assert replies[1..][1..] == []; }
    assert Remaining(false, replies) == [x];
    assert c.Whole() == [x];
    row := c.FetchRow();
  }

  /** Empty batches alone hide nothing: with only empty ones behind it, one is harmless. */
  lemma {:induction false} EmptyBatchesAreHarmless<T>()
    ensures !NoEmptyBatch<T>([Batch([], 7, false), Batch([], 7, true)])
    ensures !HidesRows<T>(false, [Batch([], 7, false), Batch([], 7, true)])
  {
    var replies: seq<Reply<T>> := [Batch([], 7, false), Batch([], 7, true)];
    assert replies[0].Batch? && replies[0].rows == [];
    assert replies[1..] == [Batch([], 7, true)] && replies[1..][1..] == [];
    EmptyHides(replies);
  }
}
