/**
 * The SMS bridge of the knom application's Android shell (MainActivity.kt):
 * the handler of the "sms_reader" method channel, which gates a read of the
 * SMS inbox on the READ_SMS permission, and readSMSMessages, which walks the
 * rows of the inbox cursor, fills in per-column defaults, keeps the rows of
 * type 1 and returns whatever it has gathered when the read throws.
 *
 * The content provider is not modelled: a query is described by what it
 * hands back (it throws, it returns a null cursor, or it returns a cursor),
 * and a cursor by the column indices it reports, the values its getters yield
 * row by row, and the row at which it throws, if any.
 */
module MainActivity {

  datatype Option<+T> = None | Some(value: T) {
    /** The value, or `default` when there is none (Kotlin's `?:`). */
    function GetOr(default: T): T {
      match this
      case Some(v) => v
      case None => default
    }
  }

  /** Kotlin `Int`. */
  newtype int32 = x: int | -0x8000_0000 <= x < 0x8000_0000
  /** Kotlin `Long`. */
  newtype int64 = x: int | -0x8000_0000_0000_0000 <= x < 0x8000_0000_0000_0000

  /** The one method name the channel handler serves. */
  const ReadSmsMethod: string := "readSMS"
  const PermissionDeniedCode: string := "PERMISSION_DENIED"
  const PermissionDeniedMessage: string := "SMS permission not granted"
  /** Telephony.Sms type code of a received (inbox) message. */
  const InboxType: int32 := 1

  /**
   * The wall clock as the read sees it: `clock(i)` is what
   * `System.currentTimeMillis()` returns while row i (counting from 0) is
   * read. Successive readings need not be equal, nor even increasing.
   */
  type Clock = nat -> int64

  /**
   * The indices `getColumnIndex` reported for the five projected columns
   * _id, address, body, date and type. A negative index means the cursor has
   * no such column.
   */
  datatype ColumnIndices = ColumnIndices(id: int32, address: int32, body: int32, date: int32, messageType: int32)

  /**
   * One cursor row, as its getters read it: the text getters may yield null;
   * the numeric fields are what `getLong` and `getInt` yield (a NULL cell is
   * turned into a number by the provider, SQLite gives 0).
   */
  datatype Row = Row(
    id: Option<string>,
    address: Option<string>,
    body: Option<string>,
    date: int64,
    messageType: int32)

  /**
   * A cursor: its columns, its rows in the order `moveToNext` visits them,
   * and `faultAt == Some(k)` when something throws while row k (counting
   * from 0) is being fetched or read, so that only the first k rows are read.
   */
  datatype Cursor = Cursor(columns: ColumnIndices, rows: seq<Row>, faultAt: Option<nat>)

  /** What `contentResolver.query` does. */
  datatype Query = QueryThrows | NullCursor | Opened(cursor: Cursor)

  /**
   * One entry of the returned list: the map with keys "id", "address",
   * "body", "date" and "type". `id` keeps the null a present id column can
   * yield, since that value is never defaulted.
   */
  datatype SmsRecord = SmsRecord(
    id: Option<string>,
    address: string,
    body: string,
    date: int64,
    messageType: int32)

  /** The three ways the handler answers through `result`. */
  datatype CallOutcome =
    | Success(messages: seq<SmsRecord>)
    | Error(code: string, message: string)
    | NotImplemented

  /**
   * The number of rows the loop finishes before the cursor throws or runs out:
   * every row before it is read without a fault, and if rows remain, the fault
   * is at that very row.
   */
  function RowsRead(c: Cursor): (n: nat)
    ensures n <= |c.rows|
    ensures forall j :: 0 <= j < n ==> c.faultAt != Some(j)
    ensures n < |c.rows| ==> c.faultAt == Some(n)
  {
    match c.faultAt
    case None => |c.rows|
    case Some(k) => if k < |c.rows| then k else |c.rows|
  }

  /**
   * The map built for one row: a present column carries the row's value into
   * the record; text columns fall back to "" when the column is absent, and
   * address and body also when the value is null; the id is defaulted only
   * when its column is absent; the date falls back to `now`, the clock reading
   * taken for this row, the type to the inbox code.
   */
  function ToRecord(cols: ColumnIndices, row: Row, now: int64): (rec: SmsRecord)
    ensures cols.id >= 0 ==> rec.id == row.id
    ensures cols.id < 0 ==> rec.id == Some("")
    ensures rec.id == None <==> cols.id >= 0 && row.id == None
    ensures cols.address >= 0 && row.address.Some? ==> rec.address == row.address.value
    ensures cols.body >= 0 && row.body.Some? ==> rec.body == row.body.value
    ensures rec.address == "" <==> cols.address < 0 || row.address == None || row.address == Some("")
    ensures rec.body == "" <==> cols.body < 0 || row.body == None || row.body == Some("")
    ensures cols.date >= 0 ==> rec.date == row.date
    ensures cols.date < 0 ==> rec.date == now
    ensures cols.messageType >= 0 ==> rec.messageType == row.messageType
    ensures rec.messageType == InboxType <==> cols.messageType < 0 || row.messageType == InboxType
  {
    SmsRecord(
      if cols.id >= 0 then row.id else Some(""),
      if cols.address >= 0 then row.address.GetOr("") else "",
      if cols.body >= 0 then row.body.GetOr("") else "",
      if cols.date >= 0 then row.date else now,
      if cols.messageType >= 0 then row.messageType else InboxType)
  }

  /**
   * The records the loop gathers from `rows`: the record of each row, built
   * with the clock reading at its position, in row order, for the rows whose
   * type resolves to the inbox code.
   */
  function Collect(cols: ColumnIndices, rows: seq<Row>, clock: Clock): (r: seq<SmsRecord>)
    ensures |r| <= |rows|
    ensures forall k :: 0 <= k < |r| ==> r[k].messageType == InboxType
    decreases |rows|
  {
    if rows == [] then []
    else
      var rec := ToRecord(cols, rows[|rows| - 1], clock(|rows| - 1));
      Collect(cols, rows[..|rows| - 1], clock) + (if rec.messageType == InboxType then [rec] else [])
  }

  /**
   * The list readSMSMessages returns: empty when the query throws or yields
   * no cursor, otherwise the records gathered from the rows read before the
   * cursor threw or ran out.
   */
  function ReadSpec(q: Query, clock: Clock): (r: seq<SmsRecord>)
    ensures forall k :: 0 <= k < |r| ==> r[k].messageType == InboxType
    ensures q.Opened? ==> |r| <= RowsRead(q.cursor)
    ensures !q.Opened? ==> r == []
  {
    match q
    case QueryThrows => []
    case NullCursor => []
    case Opened(c) => Collect(c.columns, c.rows[..RowsRead(c)], clock)
  }

  /**
   * The method-channel handler: `methodName` is the call's method name, `granted`
   * the answer of the READ_SMS permission check, `q` what the inbox query
   * does and `clock` the clock readings used for missing dates.
   */
  function Handle(methodName: string, granted: bool, q: Query, clock: Clock): (o: CallOutcome)
    ensures o.NotImplemented? <==> methodName != ReadSmsMethod
    ensures o.Error? <==> methodName == ReadSmsMethod && !granted
    ensures o.Error? ==> o.code == PermissionDeniedCode && o.message == PermissionDeniedMessage
    ensures o.Success? ==> o.messages == ReadSpec(q, clock)
  {
    if methodName == ReadSmsMethod then
      if granted then Success(ReadSpec(q, clock))
      else Error(PermissionDeniedCode, PermissionDeniedMessage)
    else NotImplemented
  }

  /**
   * readSMSMessages: resolves the column indices once, then appends the
   * record of every row of inbox type while the cursor advances; a throw
   * from the query or the cursor ends the read with the records gathered
   * so far.
   */
  method ReadSmsMessages(q: Query, clock: Clock) returns (messages: seq<SmsRecord>)
    ensures messages == ReadSpec(q, clock)
  {
    messages := [];
    match q {
      case QueryThrows =>
      case NullCursor =>
      case Opened(c) =>
        var idIndex := c.columns.id;
        var addressIndex := c.columns.address;
        var bodyIndex := c.columns.body;
        var dateIndex := c.columns.date;
        var typeIndex := c.columns.messageType;
        var i := 0;
        while i < |c.rows|
          invariant i <= RowsRead(c)
          invariant messages == Collect(c.columns, c.rows[..i], clock)
        {
          if c.faultAt == Some(i) {
            break;
          }
          var row := c.rows[i];
          var id := if idIndex >= 0 then row.id else Some("");
          var address := if addressIndex >= 0 then row.address.GetOr("") else "";
          var body := if bodyIndex >= 0 then row.body.GetOr("") else "";
          var date := if dateIndex >= 0 then row.date else clock(i);
          var messageType := if typeIndex >= 0 then row.messageType else InboxType;
          if messageType == InboxType {
            messages := messages + [SmsRecord(id, address, body, date, messageType)];
          }
          assert c.rows[..i + 1][..i] == c.rows[..i];
          i := i + 1;
        }
    }
  }
}
