/** The projection of decoded events onto the five output columns, and the
    filter that drops events without a user id (main.go:116-128). */
module Projection {
  import opened Base
  import opened Schema
  import opened Decoding

  /** One record as handed to the CSV writer. */
  type Row = seq<string>

  /** The output table's columns in order (main.go:46-50). Each column has
      the same name as the JSON tag it is copied from. */
  const Columns: seq<string> := ["event_time", "event_type", "user_id", "event_properties", "user_properties"]

  function Cells(e: RawEvent): Row {
    [e.eventTime, e.eventType, e.userId, e.eventProperties, e.userProperties]
  }

  predicate HasUser(e: RawEvent) {
    e.userId != ""
  }

  /** The row written for one decoded event, or None when it is skipped. */
  function Project(e: RawEvent): Option<Row> {
    if HasUser(e) then Some(Cells(e)) else None
  }

  /** How many of `es` carry a user id. */
  function Kept(es: seq<RawEvent>): (n: nat)
    ensures n <= |es|
  {
    if |es| == 0 then 0
    else (if HasUser(es[0]) then 1 else 0) + Kept(es[1..])
  }

  /** The rows written for a stream of decoded events, in stream order. */
  function Rows(es: seq<RawEvent>): (rows: seq<Row>)
    ensures |rows| <= |es|
    ensures forall k :: 0 <= k < |rows| ==> |rows[k]| == |Columns| && rows[k][2] != ""
  {
    if |es| == 0 then []
    else match Project(es[0])
      case None => Rows(es[1..])
      case Some(row) => [row] + Rows(es[1..])
  }

  /** Column c of that event's row is the field tagged by column c's name. */
  lemma CellsFollowColumns(ms: seq<Member>)
    ensures |Cells(EventOf(ms))| == |Columns|
    ensures forall c :: 0 <= c < |Columns| ==> Cells(EventOf(ms))[c] == Field(ms, Columns[c])
  {
    forall c | 0 <= c < |Columns|
      ensures Cells(EventOf(ms))[c] == Field(ms, Columns[c])
    {
      assert c == 0 || c == 1 || c == 2 || c == 3 || c == 4;
    }
  }

  /** Read off a decoded JSON object directly: the event is written exactly
      when the `user_id` field is non-empty, and then column c holds the value
      of the member keyed by column c's name (the last one, when repeated). */
  lemma ObjectRow(ms: seq<Member>)
    requires forall i :: 0 <= i < |ms| ==> IsKnownKey(ms[i].key)
    ensures Decode(Object(ms)).Success?
    ensures Project(Decode(Object(ms)).value).None? <==> Field(ms, "user_id") == ""
    ensures Project(Decode(Object(ms)).value).Some? ==>
      var row := Project(Decode(Object(ms)).value).value;
      |row| == |Columns| && forall c :: 0 <= c < |Columns| ==> row[c] == Field(ms, Columns[c])
  {
    assert Decode(Object(ms)).value == EventOf(ms);
    CellsFollowColumns(ms);
  }

  /** The top-level literal null decodes to an event without a user id, so it
      is skipped rather than rejected. */
  lemma NullIsSkipped()
    ensures Decode(Null).Success?
    ensures Rows([Decode(Null).value]) == []
  {
  }

  lemma {:induction false} RowsAppend(a: seq<RawEvent>, b: seq<RawEvent>)
    ensures Rows(a + b) == Rows(a) + Rows(b)
    ensures Kept(a + b) == Kept(a) + Kept(b)
  {
    if |a| > 0 {
      assert (a + b)[1..] == a[1..] + b;
      RowsAppend(a[1..], b);
    } else {
      assert a + b == b;
    }
  }

  /** One row per event with a user id: the output is as long as that count. */
  lemma {:induction false} RowsLength(es: seq<RawEvent>)
    ensures |Rows(es)| == Kept(es)
  {
    if |es| > 0 {
      RowsLength(es[1..]);
    }
  }

  /** An event without a user id contributes nothing, and an event with one
      contributes exactly its five cells. */
  lemma SingleEventRows(e: RawEvent)
    ensures Rows([e]) == (if HasUser(e) then [Cells(e)] else [])
  {
    assert [e][1..] == [];
  }

  /** Each event with a user id lands at the position given by the number of
      kept events before it, with its cells copied unchanged. */
  lemma RowsPlacement(es: seq<RawEvent>, i: nat)
    requires i < |es| && HasUser(es[i])
    ensures Kept(es[..i]) < |Rows(es)|
    ensures Rows(es)[Kept(es[..i])] == Cells(es[i])
  {
    var pre, mid, post := es[..i], [es[i]], es[i + 1..];
    assert es == pre + mid + post;
    RowsAppend(pre + mid, post);
    RowsAppend(pre, mid);
    RowsLength(pre);
    SingleEventRows(es[i]);
  }

  /** Rows keep the relative order of their events. */
  lemma RowsKeepOrder(es: seq<RawEvent>, i: nat, j: nat)
    requires i < j < |es| && HasUser(es[i]) && HasUser(es[j])
    ensures Kept(es[..i]) < Kept(es[..j])
  {
    assert es[..j] == es[..i] + es[i..j];
    RowsAppend(es[..i], es[i..j]);
    assert es[i..j] == [es[i]] + es[i + 1..j];
  }
}
