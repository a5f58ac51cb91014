/**
 * The shipment-tracking lookup: the fixed shipment table, the lookup by
 * tracking id, and what the result panel shows. The panel is modelled by the
 * data it displays, not by its markup.
 */
module Tracking {
  import opened Text
  import opened JsObject

  /** One stage of a shipment's timeline; `active` marks a stage reached. */
  datatype Step = Step(status: string, time: string, active: bool)

  datatype Shipment = Shipment(
    status: string,
    product: string,
    from: string,
    to: string,
    estimated: string,
    timeline: seq<Step>)

  /** The shipment table, keyed by tracking id. */
  function TrackingDatabase(): (db: map<string, Shipment>)
    ensures db.Keys == {"FL-2024-8523", "FL-2024-7621", "FL-2024-9142"}
  {
    map[
      "FL-2024-8523" := Shipment("In Transit", "Fresh Tomatoes", "Punjab", "Delhi", "2 hours", [
        Step("Order Placed", "Today, 8:00 AM", true),
        Step("Picked Up", "Today, 9:30 AM", true),
        Step("In Transit", "Today, 11:00 AM", true),
        Step("Out for Delivery", "Expected 2:00 PM", false),
        Step("Delivered", "Expected 3:00 PM", false)]),
      "FL-2024-7621" := Shipment("Delivered", "Basmati Rice", "Haryana", "Mumbai", "Delivered", [
        Step("Order Placed", "Yesterday, 7:00 AM", true),
        Step("Picked Up", "Yesterday, 10:00 AM", true),
        Step("In Transit", "Yesterday, 2:00 PM", true),
        Step("Out for Delivery", "Today, 8:00 AM", true),
        Step("Delivered", "Today, 10:30 AM", true)]),
      "FL-2024-9142" := Shipment("Processing", "Fresh Milk", "Gujarat", "Ahmedabad", "4 hours", [
        Step("Order Placed", "Today, 10:00 AM", true),
        Step("Processing", "In Progress", true),
        Step("Ready for Pickup", "Pending", false),
        Step("In Transit", "Pending", false),
        Step("Delivered", "Expected 2:00 PM", false)])
    ]
  }

  /** One row of the rendered timeline: the stage's title and time, and
      whether its dot is drawn active. */
  datatype TimelineRow = TimelineRow(title: string, time: string, dotActive: bool)

  /** What the result panel shows. */
  datatype Panel =
    | NotFoundPanel
    | StatusPanel(status: string, product: string, from: string, to: string,
                  estimated: string, rows: seq<TimelineRow>)

  /** `shipment.timeline.map(...)`: one row per stage, in stored order, each
      with the stage's title, time and flag. */
  function TimelineRows(timeline: seq<Step>): (rows: seq<TimelineRow>)
    ensures |rows| == |timeline|
    ensures forall i :: 0 <= i < |rows| ==>
      rows[i] == TimelineRow(timeline[i].status, timeline[i].time, timeline[i].active)
  {
    if timeline == [] then []
    else [TimelineRow(timeline[0].status, timeline[0].time, timeline[0].active)]
         + TimelineRows(timeline[1..])
  }

  /** `handleTracking(id)`: an exact, case-sensitive lookup of the id among
      the table's own keys. A miss shows the not-found panel; a hit shows the
      shipment's summary and its timeline. */
  function HandleTracking(db: map<string, Shipment>, id: string): (panel: Panel)
    ensures panel.NotFoundPanel? <==> id !in db
    ensures id in db ==>
      && panel.status == db[id].status && panel.product == db[id].product
      && panel.from == db[id].from && panel.to == db[id].to
      && panel.estimated == db[id].estimated
      && |panel.rows| == |db[id].timeline|
      && forall i :: 0 <= i < |panel.rows| ==>
           panel.rows[i].title == db[id].timeline[i].status
           && panel.rows[i].time == db[id].timeline[i].time
           && panel.rows[i].dotActive == db[id].timeline[i].active
  {
    if id !in db then NotFoundPanel
    else
      var s := db[id];
      StatusPanel(s.status, s.product, s.from, s.to, s.estimated, TimelineRows(s.timeline))
  }

  /** The track button and the Enter key: the typed text is trimmed first. */
  function TrackTypedId(db: map<string, Shipment>, typed: string): (panel: Panel)
    ensures panel.NotFoundPanel? <==> Trim(typed) !in db
    ensures Trim(typed) in db ==> panel.status == db[Trim(typed)].status
  {
    HandleTracking(db, Trim(typed))
  }

  /** A sample-id button: its `data-id` is looked up as it is, untrimmed. */
  function TrackSampleId(db: map<string, Shipment>, dataId: string): (panel: Panel)
    ensures panel.NotFoundPanel? <==> dataId !in db
    ensures dataId in db ==> panel.status == db[dataId].status
  {
    HandleTracking(db, dataId)
  }

  /** Whitespace typed around a stored id does not stop the typed path from
      finding it. */
  lemma TypedIdIgnoresPadding(db: map<string, Shipment>, pre: string, id: string, post: string)
    requires id in db && id != "" && Trimmed(id)
    requires AllWhitespace(pre) && AllWhitespace(post)
    ensures TrackTypedId(db, pre + id + post) == HandleTracking(db, id)
    ensures TrackTypedId(db, pre + id + post).StatusPanel?
  {
    TrimPadded(pre, id, post);
  }

  /** Typed with a leading space, a stored id is still found. */
  lemma TypedIdWithSpaceFound()
    ensures TrackTypedId(TrackingDatabase(), " FL-2024-8523").StatusPanel?
  {
    var id := "FL-2024-8523";
    assert " FL-2024-8523" == " " + id + "";
    assert AllWhitespace(" ");
    assert Trimmed(id) by {
      assert id[0] == 'F' && id[|id| - 1] == '3';
    }
    TypedIdIgnoresPadding(TrackingDatabase(), " ", id, "");
  }

  /** The same text as a sample id is not found: that path does not trim. */
  lemma SampleIdWithSpaceNotFound()
    ensures TrackSampleId(TrackingDatabase(), " FL-2024-8523").NotFoundPanel?
  {
    assert |" FL-2024-8523"| == 13;
  }

  /** The lookup does not fold case. */
  lemma LookupIsCaseSensitive()
    ensures HandleTracking(TrackingDatabase(), "fl-2024-8523").NotFoundPanel?
  {
    assert "fl-2024-8523"[0] != 'F';
  }

  /** How many rows show an active dot. */
  function ActiveRows(rows: seq<TimelineRow>): (n: nat)
    ensures n <= |rows|
    ensures n == |rows| <==> forall i :: 0 <= i < |rows| ==> rows[i].dotActive
  {
    if rows == [] then 0 else (if rows[0].dotActive then 1 else 0) + ActiveRows(rows[1..])
  }

  /** Shipment FL-2024-8523 shows "In Transit" with 3 of its 5 stages reached. */
  lemma ShipmentInTransit()
    ensures var p := HandleTracking(TrackingDatabase(), "FL-2024-8523");
      p.StatusPanel? && p.status == "In Transit" && |p.rows| == 5 && ActiveRows(p.rows) == 3
  {
    var rows := HandleTracking(TrackingDatabase(), "FL-2024-8523").rows;
    assert rows[3..] == [rows[3], rows[4]] && !rows[3].dotActive && !rows[4].dotActive;
    assert ActiveRows(rows[3..]) == 0;
    assert rows[2..][1..] == rows[3..];
    assert rows[1..][1..] == rows[2..];
  }

  /** Shipment FL-2024-7621 shows "Delivered" with all 5 stages reached. */
  lemma ShipmentDelivered()
    ensures var p := HandleTracking(TrackingDatabase(), "FL-2024-7621");
      p.StatusPanel? && p.status == "Delivered" && |p.rows| == 5 && ActiveRows(p.rows) == 5
  {
  }

  /** Shipment FL-2024-9142 shows "Processing" with 2 of its 5 stages reached. */
  lemma ShipmentProcessing()
    ensures var p := HandleTracking(TrackingDatabase(), "FL-2024-9142");
      p.StatusPanel? && p.status == "Processing" && |p.rows| == 5 && ActiveRows(p.rows) == 2
  {
    var rows := HandleTracking(TrackingDatabase(), "FL-2024-9142").rows;
    assert rows[2..] == [rows[2], rows[3], rows[4]];
    assert !rows[2].dotActive && !rows[3].dotActive && !rows[4].dotActive;
    assert ActiveRows(rows[4..]) == 0;
    assert rows[3..][1..] == rows[4..];
    assert ActiveRows(rows[2..]) == 0 by {
      assert rows[2..][1..] == rows[3..];
    }
    assert rows[1..][1..] == rows[2..];
  }

  /** In every shipped timeline the reached stages come first: no stage is
      reached after one that is not. */
  lemma SampleTimelinesReachedFirst(id: string)
    requires id in TrackingDatabase()
    ensures var t := TrackingDatabase()[id].timeline;
      forall i, j :: 0 <= i < j < |t| && t[j].active ==> t[i].active
  {
  }

  /** What `handleTracking` does when run. */
  datatype Outcome = Shown(panel: Panel) | ThrewTypeError

  /** The lookup as written: `trackingDatabase[id]` also finds the properties
      every object inherits. For such an id the shipment is a function or an
      object without a `timeline`, and `shipment.timeline.map` throws before
      any panel is written. */
  function HandleTrackingAsWritten(db: map<string, Shipment>, id: string): (o: Outcome)
    ensures id in db || id !in ObjectPrototypeProperties ==> o == Shown(HandleTracking(db, id))
    ensures id !in db && id in ObjectPrototypeProperties ==> o == ThrewTypeError
  {
    match Get(db, id)
    case Absent => Shown(NotFoundPanel)
    case Inherited(_) => ThrewTypeError
    case Own(s) => Shown(StatusPanel(s.status, s.product, s.from, s.to, s.estimated, TimelineRows(s.timeline)))
  }

  /** Typing "toString" into the tracking box throws instead of showing the
      not-found panel. */
  lemma ToStringIdThrows()
    ensures HandleTrackingAsWritten(TrackingDatabase(), "toString") == ThrewTypeError
    ensures HandleTracking(TrackingDatabase(), "toString") == NotFoundPanel
  {
    assert "toString" !in TrackingDatabase() by {
      assert |"toString"| == 8;
    }
  }
}
