/** The IMAGES table the server reads, and the three SQL statements it runs
    against it, each stated as the filter and projection its text describes. */
module Table {
  import opened Wrappers
  import TextOrder

  newtype byte = x: int | 0 <= x < 256

  /** One row of IMAGES: the JPEG frame of well `well` at timepoint `time` and focal plane `focal`. */
  datatype Frame = Frame(well: string, time: int, focal: int, image: seq<byte>)

  /** One `(Time, Focal)` row of the timeline query. */
  datatype Row = Row(time: int, focal: int)

  /** The database file: either readable, holding the table's rows, or
      failing to open or to query with an error text. */
  datatype Database = Readable(frames: seq<Frame>) | Broken(message: string)

  /** The band of focal planes the timeline query keeps. */
  const MinFocal := -100
  const MaxFocal := 100

  /** `SELECT DISTINCT Well FROM IMAGES ORDER BY Well`, as a list of wells. */
  function SelectWells(frames: seq<Frame>): (r: seq<string>)
    ensures TextOrder.StrictlyAscending(r)
    ensures forall w :: w in r <==> exists f :: f in frames && f.well == w
  {
    if frames == [] then []
    else
      assert frames == [frames[0]] + frames[1..];
      TextOrder.InsertDistinct(frames[0].well, SelectWells(frames[1..]))
  }

  /** The WHERE clause of the timeline query for well `id`. */
  predicate OnTimeline(f: Frame, id: string) {
    f.well == id && f.time >= 0 && MinFocal <= f.focal <= MaxFocal
  }

  /** `SELECT Time, Focal FROM IMAGES WHERE Well = id AND Time >= 0 AND Focal
      BETWEEN -100 AND 100`: one row per matching frame, duplicates kept. */
  function SelectTimelineRows(frames: seq<Frame>, id: string): (r: seq<Row>)
    ensures |r| <= |frames|
    ensures forall k :: 0 <= k < |r| ==> r[k].time >= 0 && MinFocal <= r[k].focal <= MaxFocal
    ensures forall row :: row in r <==>
      exists f :: f in frames && OnTimeline(f, id) && row == Row(f.time, f.focal)
  {
    if frames == [] then []
    else
      var f := frames[|frames| - 1];
      var before := SelectTimelineRows(frames[..|frames| - 1], id);
      assert frames == frames[..|frames| - 1] + [f];
      if OnTimeline(f, id) then before + [Row(f.time, f.focal)] else before
  }

  /** The positions of the frames that the timeline query turns into `row`. */
  ghost function FramesGiving(frames: seq<Frame>, id: string, row: Row): set<nat> {
    set k: nat | k < |frames| && OnTimeline(frames[k], id) && Row(frames[k].time, frames[k].focal) == row
  }

  /** Duplicates pass through: each row is selected once for every frame that gives it. */
  lemma {:induction false} SelectTimelineRowsCount(frames: seq<Frame>, id: string, row: Row)
    ensures multiset(SelectTimelineRows(frames, id))[row] == |FramesGiving(frames, id, row)|
  {
    if frames != [] {
      var n := |frames| - 1;
      var init := frames[..n];
      SelectTimelineRowsCount(init, id, row);
      var f := frames[n];
      var gives := OnTimeline(f, id) && Row(f.time, f.focal) == row;
      FramesGivingLast(frames, id, row);
      var before := SelectTimelineRows(init, id);
      if OnTimeline(f, id) {
        assert SelectTimelineRows(frames, id) == before + [Row(f.time, f.focal)];
        assert multiset(SelectTimelineRows(frames, id))[row] == multiset(before)[row] + (if gives then 1 else 0);
      } else {
        assert SelectTimelineRows(frames, id) == before;
      }
    }
  }

  /** The last frame adds its own position to `FramesGiving` exactly when it gives `row`. */
  lemma FramesGivingLast(frames: seq<Frame>, id: string, row: Row)
    requires frames != []
    ensures var n := |frames| - 1;
      var f := frames[n];
      |FramesGiving(frames, id, row)|
        == |FramesGiving(frames[..n], id, row)| + (if OnTimeline(f, id) && Row(f.time, f.focal) == row then 1 else 0)
  {
    var n := |frames| - 1;
    var init := frames[..n];
    var f := frames[n];
    var last := if OnTimeline(f, id) && Row(f.time, f.focal) == row then {n} else {};
    assert FramesGiving(frames, id, row) == FramesGiving(init, id, row) + last;
    assert n !in FramesGiving(init, id, row);
  }

  /** The WHERE clause of the image query. */
  predicate AtCoordinate(f: Frame, id: string, time: int, focal: int) {
    f.well == id && f.time == time && f.focal == focal
  }

  /** `SELECT Image FROM IMAGES WHERE Well = ? AND Time = ? AND Focal = ?`
      followed by `fetchone`: some matching row, or none when nothing matches. */
  function SelectImage(frames: seq<Frame>, id: string, time: int, focal: int): (r: Option<Frame>)
    ensures r.Some? ==> r.value in frames && AtCoordinate(r.value, id, time, focal)
    ensures r.None? <==> forall f :: f in frames ==> !AtCoordinate(f, id, time, focal)
  {
    if frames == [] then None
    else if AtCoordinate(frames[0], id, time, focal) then Some(frames[0])
    else
      assert frames == [frames[0]] + frames[1..];
      SelectImage(frames[1..], id, time, focal)
  }
}
