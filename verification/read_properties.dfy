/**
 * What the channel handler and readSMSMessages promise, proved about the
 * specification functions of module MainActivity (which the method
 * ReadSmsMessages is proved to compute).
 */
module ReadProperties {
  import opened MainActivity

  // ---------------------------------------------------------------------------
  // Dispatch and permission gate
  // ---------------------------------------------------------------------------

  /**
   * A method name other than "readSMS" is answered "not implemented" whatever
   * the permission and the store: neither is consulted.
   */
  lemma OtherMethodsNotImplemented(methodName: string, granted1: bool, granted2: bool,
                                   q1: Query, q2: Query, clock1: Clock, clock2: Clock)
    requires methodName != ReadSmsMethod
    ensures Handle(methodName, granted1, q1, clock1) == NotImplemented
    ensures Handle(methodName, granted1, q1, clock1) == Handle(methodName, granted2, q2, clock2)
  {
  }

  /**
   * Without the permission, "readSMS" is answered with exactly the
   * PERMISSION_DENIED error, the same for every store: the store is not read.
   */
  lemma DeniedNeverReadsStore(q1: Query, q2: Query, clock1: Clock, clock2: Clock)
    ensures Handle(ReadSmsMethod, false, q1, clock1) == Error("PERMISSION_DENIED", "SMS permission not granted")
    ensures Handle(ReadSmsMethod, false, q1, clock1) == Handle(ReadSmsMethod, false, q2, clock2)
  {
  }

  // ---------------------------------------------------------------------------
  // Filter and projection
  // ---------------------------------------------------------------------------

  /** The clock as seen from row position `d` on. */
  function Shifted(clock: Clock, d: nat): Clock {
    (i: nat) => clock(d + i)
  }

  /**
   * Rows are processed one after another: reading a + b gathers a's records,
   * then b's, b's rows seeing the clock readings taken after a's.
   */
  lemma {:induction false} CollectAppend(cols: ColumnIndices, a: seq<Row>, b: seq<Row>, clock: Clock)
    ensures Collect(cols, a + b, clock) == Collect(cols, a, clock) + Collect(cols, b, Shifted(clock, |a|))
    decreases |b|
  {
    if b == [] {
      assert a + b == a;
    } else {
      var n := |b| - 1;
      assert (a + b)[..|a + b| - 1] == a + b[..n];
      assert (a + b)[|a + b| - 1] == b[n];
      CollectAppend(cols, a, b[..n], clock);
    }
  }

  /** The positions of the rows whose type resolves to the inbox code, in increasing order. */
  ghost function InboxPositions(cols: ColumnIndices, rows: seq<Row>, clock: Clock): seq<nat>
    decreases |rows|
  {
    if rows == [] then []
    else
      var n := |rows| - 1;
      InboxPositions(cols, rows[..n], clock)
        + (if ToRecord(cols, rows[n], clock(n)).messageType == InboxType then [n] else [])
  }

  /**
   * `r` is the in-order subsequence of the records of `rows` picked at the
   * strictly increasing positions `pos`, which are exactly the positions of the
   * rows of inbox type.
   */
  ghost predicate IsInboxSelection(cols: ColumnIndices, rows: seq<Row>, clock: Clock,
                                   pos: seq<nat>, r: seq<SmsRecord>)
  {
    && |pos| == |r|
    && (forall k :: 0 <= k < |pos| ==>
          pos[k] < |rows|
          && ToRecord(cols, rows[pos[k]], clock(pos[k])).messageType == InboxType
          && r[k] == ToRecord(cols, rows[pos[k]], clock(pos[k])))
    && (forall k, l :: 0 <= k < l < |pos| ==> pos[k] < pos[l])
    && (forall i :: 0 <= i < |rows| && ToRecord(cols, rows[i], clock(i)).messageType == InboxType ==> i in pos)
  }

  /**
   * The gathered list is exactly the in-order subsequence of the rows whose
   * resolved type is 1, each turned into its record: no inbox row is dropped,
   * no other row is kept, and the cursor order is preserved.
   */
  lemma {:induction false} CollectSelectsInboxRows(cols: ColumnIndices, rows: seq<Row>, clock: Clock)
    ensures IsInboxSelection(cols, rows, clock, InboxPositions(cols, rows, clock), Collect(cols, rows, clock))
    decreases |rows|
  {
    if rows != [] {
      var n := |rows| - 1;
      var init := rows[..n];
      CollectSelectsInboxRows(cols, init, clock);
      var pos0, r0 := InboxPositions(cols, init, clock), Collect(cols, init, clock);
      var rec := ToRecord(cols, rows[n], clock(n));
      var keep := rec.messageType == InboxType;
      var pos := pos0 + (if keep then [n] else []);
      var r := r0 + (if keep then [rec] else []);
      assert pos == InboxPositions(cols, rows, clock);
      assert r == Collect(cols, rows, clock);
      forall k | 0 <= k < |pos|
        ensures pos[k] < |rows|
        ensures ToRecord(cols, rows[pos[k]], clock(pos[k])).messageType == InboxType
        ensures r[k] == ToRecord(cols, rows[pos[k]], clock(pos[k]))
      {
        if k < |pos0| {
          assert pos[k] == pos0[k] && r[k] == r0[k];
          assert rows[pos0[k]] == init[pos0[k]];
        }
      }
      forall k, l | 0 <= k < l < |pos|
        ensures pos[k] < pos[l]
      {
        if l == |pos0| {
          assert pos[k] == pos0[k] < n;
        }
      }
      forall i | 0 <= i < |rows| && ToRecord(cols, rows[i], clock(i)).messageType == InboxType
        ensures i in pos
      {
        if i < n {
          assert rows[i] == init[i];
          assert i in pos0;
        }
      }
    }
  }

  /** Every row of inbox type contributes its record to the result. */
  lemma InboxRowIncluded(cols: ColumnIndices, rows: seq<Row>, clock: Clock, i: nat)
    requires i < |rows|
    requires ToRecord(cols, rows[i], clock(i)).messageType == InboxType
    ensures ToRecord(cols, rows[i], clock(i)) in Collect(cols, rows, clock)
  {
    CollectSelectsInboxRows(cols, rows, clock);
    var pos := InboxPositions(cols, rows, clock);
    var r := Collect(cols, rows, clock);
    var k :| 0 <= k < |pos| && pos[k] == i;
    assert r[k] == ToRecord(cols, rows[i], clock(i));
  }

  /**
   * Column presence is fixed per cursor, so every record of one read is built
   * alike, from the row it came from (at position pos[k]): a present column
   * carries that row's value (a null address or body as ""), an absent id or
   * address or body column gives "" in every record, and an absent date column
   * gives every record the clock reading taken for its own row.
   */
  lemma {:induction false} DefaultsUniform(cols: ColumnIndices, rows: seq<Row>, clock: Clock)
    ensures var r, pos := Collect(cols, rows, clock), InboxPositions(cols, rows, clock);
            |pos| == |r| &&
            forall k :: 0 <= k < |r| ==>
              && pos[k] < |rows|
              && (cols.id >= 0 ==> r[k].id == rows[pos[k]].id)
              && (cols.id < 0 ==> r[k].id == Some(""))
              && (cols.address >= 0 ==> r[k].address == rows[pos[k]].address.GetOr(""))
              && (cols.address < 0 ==> r[k].address == "")
              && (cols.body >= 0 ==> r[k].body == rows[pos[k]].body.GetOr(""))
              && (cols.body < 0 ==> r[k].body == "")
              && (cols.date >= 0 ==> r[k].date == rows[pos[k]].date)
              && (cols.date < 0 ==> r[k].date == clock(pos[k]))
  {
    CollectSelectsInboxRows(cols, rows, clock);
  }

  /**
   * Without a type column every row resolves to the inbox type, so every row
   * is kept: the result is the record of each row, one for one.
   */
  lemma {:induction false} AbsentTypeKeepsEveryRow(cols: ColumnIndices, rows: seq<Row>, clock: Clock)
    requires cols.messageType < 0
    ensures |Collect(cols, rows, clock)| == |rows|
    ensures forall k :: 0 <= k < |rows| ==> Collect(cols, rows, clock)[k] == ToRecord(cols, rows[k], clock(k))
    decreases |rows|
  {
    if rows != [] {
      var n := |rows| - 1;
      AbsentTypeKeepsEveryRow(cols, rows[..n], clock);
      assert ToRecord(cols, rows[n], clock(n)).messageType == InboxType;
    }
  }

  /**
   * The store hands rows newest first (date descending); since kept rows stay
   * in cursor order, the result is newest first as well.
   */
  lemma NewestFirstPreserved(cols: ColumnIndices, rows: seq<Row>, clock: Clock)
    requires cols.date >= 0
    requires forall i, j :: 0 <= i < j < |rows| ==> rows[i].date >= rows[j].date
    ensures forall k, l :: 0 <= k < l < |Collect(cols, rows, clock)| ==>
              Collect(cols, rows, clock)[k].date >= Collect(cols, rows, clock)[l].date
  {
    CollectSelectsInboxRows(cols, rows, clock);
    var pos := InboxPositions(cols, rows, clock);
    var r := Collect(cols, rows, clock);
    forall k, l | 0 <= k < l < |r|
      ensures r[k].date >= r[l].date
    {
      assert r[k].date == rows[pos[k]].date;
      assert r[l].date == rows[pos[l]].date;
    }
  }

  // ---------------------------------------------------------------------------
  // Null cursor and faults
  // ---------------------------------------------------------------------------

  /** A null cursor, or a query that throws, is answered with an empty success. */
  lemma NoCursorEmptySuccess(clock: Clock)
    ensures Handle(ReadSmsMethod, true, NullCursor, clock) == Success([])
    ensures Handle(ReadSmsMethod, true, QueryThrows, clock) == Success([])
  {
  }

  /**
   * A cursor that throws after k rows still yields a success: exactly the
   * records of those first k rows, the same as a cursor that held only those
   * rows and never threw; and it is a prefix of what the read would have
   * returned had the cursor not thrown.
   */
  lemma FaultKeepsGatheredRecords(c: Cursor, k: nat, clock: Clock)
    requires c.faultAt == Some(k) && k <= |c.rows|
    ensures Handle(ReadSmsMethod, true, Opened(c), clock) == Success(Collect(c.columns, c.rows[..k], clock))
    ensures Handle(ReadSmsMethod, true, Opened(c), clock)
         == Handle(ReadSmsMethod, true, Opened(Cursor(c.columns, c.rows[..k], None)), clock)
    ensures ReadSpec(Opened(c), clock) <= ReadSpec(Opened(c.(faultAt := None)), clock)
  {
    var cols, prefix := c.columns, c.rows[..k];
    var gathered := Collect(cols, prefix, clock);
    assert RowsRead(c) == k;
    assert ReadSpec(Opened(c), clock) == gathered;
    var clean := Cursor(cols, prefix, None);
    assert RowsRead(clean) == k && clean.rows[..k] == prefix;
    assert ReadSpec(Opened(clean), clock) == gathered;
    var whole := c.(faultAt := None);
    assert RowsRead(whole) == |c.rows| && whole.rows[..|c.rows|] == prefix + c.rows[k..];
    CollectAppend(cols, prefix, c.rows[k..], clock);
    assert ReadSpec(Opened(whole), clock) == gathered + Collect(cols, c.rows[k..], Shifted(clock, k));
  }

  /**
   * The provider is asked for at most 1000 rows; when it honours that limit,
   * the handler never returns more than 1000 records.
   */
  lemma WithinQueryLimit(c: Cursor, clock: Clock)
    requires |c.rows| <= 1000
    ensures |ReadSpec(Opened(c), clock)| <= 1000
  {
  }

  // ---------------------------------------------------------------------------
  // A worked read
  // ---------------------------------------------------------------------------

  /**
   * Three rows of types 1, 2, 1, dated 300, 200, 100, all columns present:
   * the read returns the first and third rows, in that order.
   */
  lemma ThreeRowRead(clock: Clock)
    ensures
      var cols := ColumnIndices(0, 1, 2, 3, 4);
      var r1 := Row(Some("1"), Some("a"), Some("x"), 300, 1);
      var r2 := Row(Some("2"), Some("b"), Some("y"), 200, 2);
      var r3 := Row(Some("3"), None, None, 100, 1);
      Handle(ReadSmsMethod, true, Opened(Cursor(cols, [r1, r2, r3], None)), clock)
        == Success([SmsRecord(Some("1"), "a", "x", 300, 1), SmsRecord(Some("3"), "", "", 100, 1)])
  {
    var cols := ColumnIndices(0, 1, 2, 3, 4);
    var r1 := Row(Some("1"), Some("a"), Some("x"), 300, 1);
    var r2 := Row(Some("2"), Some("b"), Some("y"), 200, 2);
    var r3 := Row(Some("3"), None, None, 100, 1);
    var rows := [r1, r2, r3];
    var c := Cursor(cols, rows, None);
    assert RowsRead(c) == 3;
    assert rows[..3] == rows;
    assert rows[..2] == [r1, r2];
    assert [r1, r2][..1] == [r1];
    assert [r1][..0] == [];
    assert Collect(cols, [r1], clock) == [SmsRecord(Some("1"), "a", "x", 300, 1)];
    assert Collect(cols, [r1, r2], clock) == [SmsRecord(Some("1"), "a", "x", 300, 1)];
  }
}
