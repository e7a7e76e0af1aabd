/**
 * The room resolver of the chat layer: `openChatWithUser` finds the one
 * two-party chat room between the current user and a target user, or
 * creates it, optionally linking a report to the room through its metadata.
 *
 * The `chat_rooms` table is a sequence of rows held by a `RoomTable` object.
 * What the hosted database decides on its own (whether a query or an insert
 * fails, whether the unchecked relink update lands, which id a new row gets)
 * arrives as a `Gateway` record, so that every outcome of a call is a
 * function of the table before it and of that record.
 */
module OpenChat {
  import opened Wrappers

  type UserId = string
  type RoomId = string

  /**
   * The JSON values a metadata entry may hold. Numbers, arrays and objects
   * are kept as their raw text: the merge never looks inside them.
   */
  datatype Json = JNull | JBool(b: bool) | JStr(s: string) | JRaw(text: string)

  /** The `metadata` column of a room when it holds an object. */
  type Metadata = map<string, Json>

  const ReportIdKey: string := "report_id"
  const ContextSentKey: string := "report_context_sent"

  /** A row of `chat_rooms`; `metadata == None` is a SQL null. */
  datatype Room = Room(id: RoomId, user1: UserId, user2: UserId, metadata: Option<Metadata>)

  /**
   * How the database answers an insert: the row is written and its id comes
   * back; the insert is refused and nothing is written; or the row is
   * written but the reply is lost (a dropped connection or an aborted
   * request after the commit), so the client sees an error all the same.
   */
  datatype InsertReply = Acknowledged | Rejected | LostAfterCommit

  /**
   * What the database does with one call, beyond the table's contents:
   * whether the lookup query reports an error, whether the relink update
   * (whose outcome the source never inspects) takes effect, the id the
   * database generates for an inserted row, and how it answers the insert.
   */
  datatype Gateway = Gateway(lookupFails: bool, relinkTakesEffect: bool, generatedId: RoomId, insert: InsertReply)

  /** The table after a call and the value the call returns (`None` is `null`). */
  datatype Outcome = Outcome(rows: seq<Room>, result: Option<RoomId>)

  /** The answer of `.maybeSingle()` to the pair query. */
  datatype Lookup = NoRoom | OneRoom(index: nat) | SeveralRooms

  // ---------------------------------------------------------------------------
  // Table predicates

  /** The pair filter: the room is `(a, b)` or `(b, a)`. */
  predicate Joins(room: Room, a: UserId, b: UserId) {
    (room.user1 == a && room.user2 == b) || (room.user1 == b && room.user2 == a)
  }

  predicate HasRoom(rows: seq<Room>, a: UserId, b: UserId) {
    exists k :: 0 <= k < |rows| && Joins(rows[k], a, b)
  }

  /** Row `i` is the only row of the table for the pair `{a, b}`. */
  predicate OnlyRoomOf(rows: seq<Room>, i: nat, a: UserId, b: UserId) {
    && i < |rows|
    && Joins(rows[i], a, b)
    && forall k :: 0 <= k < |rows| && Joins(rows[k], a, b) ==> k == i
  }

  predicate IdTaken(rows: seq<Room>, id: RoomId) {
    exists k :: 0 <= k < |rows| && rows[k].id == id
  }

  /** `id` is the primary key of `chat_rooms`. */
  predicate UniqueIds(rows: seq<Room>) {
    forall i, j :: 0 <= i < j < |rows| ==> rows[i].id != rows[j].id
  }

  /** At most one room per unordered pair of users. */
  predicate OneRoomPerPair(rows: seq<Room>) {
    forall i, j :: 0 <= i < j < |rows| ==> !Joins(rows[j], rows[i].user1, rows[i].user2)
  }

  /** JavaScript truthiness of the optional `reportId`: absent and `""` are both false. */
  predicate Given(reportId: Option<string>) {
    reportId.Some? && reportId.value != ""
  }

  // ---------------------------------------------------------------------------
  // The lookup query

  /** The indices of the rows that pass the pair filter, in table order. */
  function Matches(rows: seq<Room>, a: UserId, b: UserId): (m: seq<nat>)
    ensures forall k: nat :: k in m <==> k < |rows| && Joins(rows[k], a, b)
    ensures forall i, j :: 0 <= i < j < |m| ==> m[i] < m[j]
    decreases |rows|
  {
    if rows == [] then []
    else
      var n := |rows| - 1;
      assert forall k :: 0 <= k < n ==> rows[..n][k] == rows[k];
      var before := Matches(rows[..n], a, b);
      assert forall i :: 0 <= i < |before| ==> before[i] in before;
      assert forall i :: 0 <= i < |before| ==> before[i] < n;
      before + (if Joins(rows[n], a, b) then [n] else [])
  }

  /** `.or(both orderings).maybeSingle()`: no row, the one row, or an error for two or more. */
  function MaybeSingle(rows: seq<Room>, a: UserId, b: UserId): (l: Lookup)
    ensures l.NoRoom? <==> !HasRoom(rows, a, b)
    ensures l.OneRoom? <==> (exists i :: OnlyRoomOf(rows, i, a, b))
    ensures l.OneRoom? ==> OnlyRoomOf(rows, l.index, a, b)
    ensures l.SeveralRooms? <==>
      exists i, j :: 0 <= i < j < |rows| && Joins(rows[i], a, b) && Joins(rows[j], a, b)
  {
    var m := Matches(rows, a, b);
    if |m| == 0 then NoRoom
    else if |m| == 1 then
      assert m[0] in m && OnlyRoomOf(rows, m[0], a, b);
      OneRoom(m[0])
    else
      assert m[0] in m && m[1] in m;
      SeveralRooms
  }

  // ---------------------------------------------------------------------------
  // Metadata

  /**
   * `{ ...(metadata || {}), report_id: reportId, report_context_sent: false }`:
   * the link is set, the context card is re-armed, every other key survives.
   */
  function Relinked(meta: Option<Metadata>, reportId: string): (m: Metadata)
    ensures ReportIdKey in m && m[ReportIdKey] == JStr(reportId)
    ensures ContextSentKey in m && m[ContextSentKey] == JBool(false)
    ensures m.Keys == meta.GetOr(map[]).Keys + {ReportIdKey, ContextSentKey}
    ensures forall k :: k in meta.GetOr(map[]) && k != ReportIdKey && k != ContextSentKey ==>
      m[k] == meta.GetOr(map[])[k]
  {
    meta.GetOr(map[])[ReportIdKey := JStr(reportId)][ContextSentKey := JBool(false)]
  }

  /** The metadata of a newly inserted room. */
  function InitialMetadata(reportId: Option<string>): (m: Metadata)
    ensures Given(reportId) ==> m == Relinked(None, reportId.value)
    ensures !Given(reportId) ==> m == map[]
  {
    if Given(reportId) then map[ReportIdKey := JStr(reportId.value), ContextSentKey := JBool(false)]
    else map[]
  }

  // ---------------------------------------------------------------------------
  // The operation

  /** What `openChatWithUser(current, target, reportId)` does to the table and returns. */
  function Resolve(rows: seq<Room>, current: UserId, target: UserId, reportId: Option<string>, gw: Gateway): (o: Outcome)
    ensures |rows| <= |o.rows| <= |rows| + 1
    ensures forall k :: 0 <= k < |rows| ==>
      o.rows[k].id == rows[k].id && o.rows[k].user1 == rows[k].user1 && o.rows[k].user2 == rows[k].user2
    ensures o.result.None? && o.rows != rows ==> gw.insert == LostAfterCommit && |o.rows| == |rows| + 1
    ensures |o.rows| == |rows| + 1 ==>
      !IdTaken(rows, o.rows[|rows|].id) && o.result in {None, Some(o.rows[|rows|].id)}
  {
    if gw.lookupFails then Outcome(rows, None)
    else
      match MaybeSingle(rows, current, target)
      case SeveralRooms => Outcome(rows, None)
      case OneRoom(i) =>
        var room := rows[i];
        if Given(reportId) && gw.relinkTakesEffect then
          Outcome(rows[i := room.(metadata := Some(Relinked(room.metadata, reportId.value)))], Some(room.id))
        else
          Outcome(rows, Some(room.id))
      case NoRoom =>
        if gw.insert == Rejected || IdTaken(rows, gw.generatedId) then Outcome(rows, None)
        else
          var room := Room(gw.generatedId, current, target, Some(InitialMetadata(reportId)));
          Outcome(rows + [room], if gw.insert == Acknowledged then Some(room.id) else None)
  }

  /** The `chat_rooms` table. */
  class RoomTable {
    var rows: seq<Room>

    ghost predicate Valid()
      reads this
    {
      UniqueIds(rows)
    }

    constructor ()
      ensures Valid() && rows == []
    {
      rows := [];
    }

    /**
     * Finds or creates the room of `{current, target}`. Every error of the
     * lookup or of the insert becomes a `None` result.
     */
    method OpenChatWithUser(current: UserId, target: UserId, reportId: Option<string>, gw: Gateway)
      returns (r: Option<RoomId>)
      requires Valid()
      modifies this
      ensures Valid()
      ensures rows == Resolve(old(rows), current, target, reportId, gw).rows
      ensures r == Resolve(old(rows), current, target, reportId, gw).result
      ensures old(OneRoomPerPair(rows)) ==> OneRoomPerPair(rows)
      ensures r.Some? ==> exists k :: 0 <= k < |rows| && rows[k].id == r.value && Joins(rows[k], current, target)
    {
      ghost var before := rows;
      ResolveKeepsTableInvariants(before, current, target, reportId, gw);
      ResultNamesRoomOfPair(before, current, target, reportId, gw);
      if gw.lookupFails {
        return None;
      }
      var found := MaybeSingle(rows, current, target);
      match found {
        case SeveralRooms =>
          r := None;
        case OneRoom(i) =>
          var existing := rows[i];
          if Given(reportId) && gw.relinkTakesEffect {
            rows := rows[i := existing.(metadata := Some(Relinked(existing.metadata, reportId.value)))];
          }
          r := Some(existing.id);
        case NoRoom =>
          if gw.insert == Rejected || IdTaken(rows, gw.generatedId) {
            r := None;
          } else {
            var room := Room(gw.generatedId, current, target, Some(InitialMetadata(reportId)));
            rows := rows + [room];
            r := if gw.insert == Acknowledged then Some(room.id) else None;
          }
      }
    }
  }

  // ---------------------------------------------------------------------------
  // Properties

  /** The pair filter does not depend on the order of the two ids. */
  lemma {:induction false} MatchesSymmetric(rows: seq<Room>, a: UserId, b: UserId)
    ensures Matches(rows, a, b) == Matches(rows, b, a)
    decreases |rows|
  {
    if rows != [] {
      MatchesSymmetric(rows[..|rows| - 1], a, b);
    }
  }

  /** The lookup, and so the whole call, sees the same rows for `(a, b)` and `(b, a)`. */
  lemma LookupSymmetric(rows: seq<Room>, a: UserId, b: UserId)
    ensures MaybeSingle(rows, a, b) == MaybeSingle(rows, b, a)
  {
    MatchesSymmetric(rows, a, b);
  }

  /** A room stored as `(A, B)` is returned by a call for `(A, B)` and by one for `(B, A)`. */
  lemma FindsEitherOrder(rows: seq<Room>, i: nat, reportId: Option<string>, gw: Gateway)
    requires OneRoomPerPair(rows) && i < |rows|
    requires !gw.lookupFails
    ensures Resolve(rows, rows[i].user1, rows[i].user2, reportId, gw).result == Some(rows[i].id)
    ensures Resolve(rows, rows[i].user2, rows[i].user1, reportId, gw).result == Some(rows[i].id)
  {
    var a, b := rows[i].user1, rows[i].user2;
    forall k | 0 <= k < |rows| && k != i ensures !Joins(rows[k], a, b) {
      if k < i {
        assert !Joins(rows[i], rows[k].user1, rows[k].user2);
      }
    }
    assert OnlyRoomOf(rows, i, a, b);
    LookupSymmetric(rows, a, b);
  }

  /** When the pair already has a room, no row is inserted: every row keeps its id and its users. */
  lemma NoDuplicateOnHit(rows: seq<Room>, current: UserId, target: UserId, reportId: Option<string>, gw: Gateway)
    requires HasRoom(rows, current, target)
    ensures var o := Resolve(rows, current, target, reportId, gw);
      && |o.rows| == |rows|
      && forall k :: 0 <= k < |rows| ==>
           o.rows[k].id == rows[k].id && o.rows[k].user1 == rows[k].user1 && o.rows[k].user2 == rows[k].user2
  {
  }

  /**
   * On a hit with a report id whose update lands, only the found room's
   * metadata changes: the link is set, the context flag is false, every
   * other key keeps its value and no further key appears.
   */
  lemma RelinkMergesMetadata(rows: seq<Room>, i: nat, current: UserId, target: UserId, reportId: Option<string>, gw: Gateway)
    requires UniqueIds(rows) && OnlyRoomOf(rows, i, current, target)
    requires !gw.lookupFails && gw.relinkTakesEffect && Given(reportId)
    ensures var o := Resolve(rows, current, target, reportId, gw);
      && o.result == Some(rows[i].id)
      && |o.rows| == |rows|
      && (forall j :: 0 <= j < |rows| && j != i ==> o.rows[j] == rows[j])
      && o.rows[i].id == rows[i].id && o.rows[i].user1 == rows[i].user1 && o.rows[i].user2 == rows[i].user2
      && o.rows[i].metadata == Some(Relinked(rows[i].metadata, reportId.value))
      && o.rows[i].metadata.value.Keys == rows[i].metadata.GetOr(map[]).Keys + {ReportIdKey, ContextSentKey}
      && o.rows[i].metadata.value[ReportIdKey] == JStr(reportId.value)
      && o.rows[i].metadata.value[ContextSentKey] == JBool(false)
      && forall key :: key in rows[i].metadata.GetOr(map[]) && key != ReportIdKey && key != ContextSentKey ==>
           key in o.rows[i].metadata.value && o.rows[i].metadata.value[key] == rows[i].metadata.GetOr(map[])[key]
  {
    assert MaybeSingle(rows, current, target) == OneRoom(i);
  }

  /** On a hit without a (truthy) report id the table is left as it was. */
  lemma NoReportNoChange(rows: seq<Room>, i: nat, current: UserId, target: UserId, reportId: Option<string>, gw: Gateway)
    requires OnlyRoomOf(rows, i, current, target)
    requires !gw.lookupFails && !Given(reportId)
    ensures Resolve(rows, current, target, reportId, gw) == Outcome(rows, Some(rows[i].id))
  {
    assert MaybeSingle(rows, current, target) == OneRoom(i);
  }

  /**
   * The relink update is never checked: on a hit the found id is returned
   * whether or not the update took effect, and when it did not the table is
   * unchanged.
   */
  lemma RelinkFailureIgnored(rows: seq<Room>, i: nat, current: UserId, target: UserId, reportId: Option<string>, gw: Gateway)
    requires OnlyRoomOf(rows, i, current, target)
    requires !gw.lookupFails
    ensures Resolve(rows, current, target, reportId, gw.(relinkTakesEffect := true)).result == Some(rows[i].id)
    ensures Resolve(rows, current, target, reportId, gw.(relinkTakesEffect := false)) == Outcome(rows, Some(rows[i].id))
  {
    assert MaybeSingle(rows, current, target) == OneRoom(i);
  }

  /**
   * With no room for the pair and a successful insert, exactly one row is
   * appended, `(current, target)` in that order, carrying the link when a
   * report id is given and empty metadata otherwise; its id is returned.
   */
  lemma InsertOnMiss(rows: seq<Room>, current: UserId, target: UserId, reportId: Option<string>, gw: Gateway)
    requires !HasRoom(rows, current, target)
    requires !gw.lookupFails && gw.insert == Acknowledged && !IdTaken(rows, gw.generatedId)
    ensures var o := Resolve(rows, current, target, reportId, gw);
      && o.result == Some(gw.generatedId)
      && |o.rows| == |rows| + 1
      && o.rows[..|rows|] == rows
      && o.rows[|rows|].id == gw.generatedId
      && o.rows[|rows|].user1 == current && o.rows[|rows|].user2 == target
      && o.rows[|rows|].metadata.Some?
      && (Given(reportId) ==>
            o.rows[|rows|].metadata.value.Keys == {ReportIdKey, ContextSentKey}
            && o.rows[|rows|].metadata.value[ReportIdKey] == JStr(reportId.value)
            && o.rows[|rows|].metadata.value[ContextSentKey] == JBool(false))
      && (!Given(reportId) ==> o.rows[|rows|].metadata.value == map[])
  {
    var o := Resolve(rows, current, target, reportId, gw);
    assert o.rows == rows + [o.rows[|rows|]];
  }

  /**
   * A call returns `None` exactly when the lookup fails, the lookup finds
   * several rooms, or the pair has no room and the insert is not
   * acknowledged (or would reuse an id). A `None` call leaves the table
   * untouched, except when the insert committed and only its reply was lost.
   */
  lemma FailuresReturnNull(rows: seq<Room>, current: UserId, target: UserId, reportId: Option<string>, gw: Gateway)
    ensures var o := Resolve(rows, current, target, reportId, gw);
      && (o.result == None <==>
            || gw.lookupFails
            || (exists i, j :: 0 <= i < j < |rows| && Joins(rows[i], current, target) && Joins(rows[j], current, target))
            || (!HasRoom(rows, current, target) && (gw.insert != Acknowledged || IdTaken(rows, gw.generatedId))))
      && (o.result == None ==>
            (o.rows == rows <==>
               !(!gw.lookupFails && !HasRoom(rows, current, target)
                 && gw.insert == LostAfterCommit && !IdTaken(rows, gw.generatedId))))
  {
  }

  /** A returned id names a room of the table afterwards that joins the two users. */
  lemma ResultNamesRoomOfPair(rows: seq<Room>, current: UserId, target: UserId, reportId: Option<string>, gw: Gateway)
    ensures var o := Resolve(rows, current, target, reportId, gw);
      o.result.Some? ==> exists k :: 0 <= k < |o.rows| && o.rows[k].id == o.result.value && Joins(o.rows[k], current, target)
  {
    var o := Resolve(rows, current, target, reportId, gw);
    if o.result.Some? {
      if MaybeSingle(rows, current, target).OneRoom? {
        var i := MaybeSingle(rows, current, target).index;
        assert o.rows[i].id == o.result.value && Joins(o.rows[i], current, target);
      } else {
        assert o.rows[|rows|].id == o.result.value && Joins(o.rows[|rows|], current, target);
      }
    }
  }

  /** A call changes one row's metadata, or appends one row, or changes nothing. */
  lemma AtMostOneRowChanges(rows: seq<Room>, current: UserId, target: UserId, reportId: Option<string>, gw: Gateway)
    requires UniqueIds(rows)
    ensures var o := Resolve(rows, current, target, reportId, gw);
      || o.rows == rows
      || (|o.rows| == |rows| + 1 && o.rows[..|rows|] == rows)
      || (&& |o.rows| == |rows|
          && exists i :: 0 <= i < |rows|
               && o.rows[i] == rows[i].(metadata := o.rows[i].metadata)
               && forall j :: 0 <= j < |rows| && j != i ==> o.rows[j] == rows[j])
  {
    var o := Resolve(rows, current, target, reportId, gw);
    if o.rows != rows && |o.rows| == |rows| {
      var i := MaybeSingle(rows, current, target).index;
      assert o.rows[i] == rows[i].(metadata := o.rows[i].metadata);
    }
  }

  /** The primary key stays unique and no pair gains a second room. */
  lemma ResolveKeepsTableInvariants(rows: seq<Room>, current: UserId, target: UserId, reportId: Option<string>, gw: Gateway)
    ensures var o := Resolve(rows, current, target, reportId, gw);
      && (UniqueIds(rows) ==> UniqueIds(o.rows))
      && (OneRoomPerPair(rows) ==> OneRoomPerPair(o.rows))
  {
    var o := Resolve(rows, current, target, reportId, gw);
    if !gw.lookupFails && MaybeSingle(rows, current, target).NoRoom? && o.rows != rows {
      var n := |rows|;
      assert o.rows == rows + [o.rows[n]];
      if OneRoomPerPair(rows) {
        forall i, j | 0 <= i < j < |o.rows| ensures !Joins(o.rows[j], o.rows[i].user1, o.rows[i].user2) {
          if j == n {
            assert !Joins(rows[i], current, target);
          }
        }
      }
    }
  }

  /**
   * After a successful call for `(a, b)`, on any table, a call for `(b, a)`
   * that reaches the database returns the same id and does not grow the
   * table: the first call leaves exactly one room for the pair.
   */
  lemma SwappedSecondCallSameRoom(
    rows: seq<Room>, a: UserId, b: UserId,
    firstReport: Option<string>, firstGw: Gateway,
    secondReport: Option<string>, secondGw: Gateway)
    requires Resolve(rows, a, b, firstReport, firstGw).result.Some?
    requires !secondGw.lookupFails
    ensures var first := Resolve(rows, a, b, firstReport, firstGw);
      var second := Resolve(first.rows, b, a, secondReport, secondGw);
      && second.result == first.result
      && |second.rows| == |first.rows|
  {
    var first := Resolve(rows, a, b, firstReport, firstGw);
    var k: nat;
    if MaybeSingle(rows, a, b).OneRoom? {
      k := MaybeSingle(rows, a, b).index;
    } else {
      k := |rows|;
      assert first.rows == rows + [first.rows[k]];
    }
    assert OnlyRoomOf(first.rows, k, a, b);
    assert OnlyRoomOf(first.rows, k, b, a);
    assert MaybeSingle(first.rows, b, a) == OneRoom(k);
  }

  /**
   * An insert whose reply is lost returns `None` although the room now
   * exists; a retry in either order that reaches the database finds that
   * room, returns its id and adds nothing.
   */
  lemma RetryAfterLostResponse(
    rows: seq<Room>, a: UserId, b: UserId,
    firstReport: Option<string>, firstGw: Gateway,
    secondReport: Option<string>, secondGw: Gateway)
    requires !firstGw.lookupFails && !HasRoom(rows, a, b)
    requires firstGw.insert == LostAfterCommit && !IdTaken(rows, firstGw.generatedId)
    requires !secondGw.lookupFails
    ensures var first := Resolve(rows, a, b, firstReport, firstGw);
      && first.result == None
      && first.rows == rows + [Room(firstGw.generatedId, a, b, Some(InitialMetadata(firstReport)))]
      && Resolve(first.rows, a, b, secondReport, secondGw).result == Some(firstGw.generatedId)
      && Resolve(first.rows, b, a, secondReport, secondGw).result == Some(firstGw.generatedId)
      && |Resolve(first.rows, a, b, secondReport, secondGw).rows| == |first.rows|
      && |Resolve(first.rows, b, a, secondReport, secondGw).rows| == |first.rows|
  {
    var first := Resolve(rows, a, b, firstReport, firstGw);
    var n := |rows|;
    assert first.rows == rows + [first.rows[n]];
    assert OnlyRoomOf(first.rows, n, a, b);
    assert OnlyRoomOf(first.rows, n, b, a);
    assert MaybeSingle(first.rows, a, b) == OneRoom(n);
    assert MaybeSingle(first.rows, b, a) == OneRoom(n);
  }
}
