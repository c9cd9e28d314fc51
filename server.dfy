/** The request handler: `do_GET` routes a path to one of three endpoints
    or to static file serving, and each endpoint turns the database and the
    query string into a status and a body. */
module Server {
  import opened Wrappers
  import opened Table
  import opened Params
  import opened Timeline
  import TextOrder

  const MissingIdMessage := "Missing id parameter"
  const MissingParametersMessage := "Missing parameters"
  const ImageNotFoundMessage := "Image not found"

  /** What is written back: the JSON list of wells, the JSON timeline, the
      JPEG bytes of a frame, or the message of an error page. */
  datatype Body =
    | WellList(wells: seq<string>)
    | TimelineList(entries: seq<Entry>)
    | Jpeg(bytes: seq<byte>)
    | ErrorText(message: string)

  /** A reply decided by this handler, or the request handed on to the
      library's static file serving for `path`. */
  datatype Response = Reply(status: int, body: Body) | StaticFile(path: string)

  datatype Endpoint = Embryos | TimelineOfWell | Image | Static

  /** The branch of `do_GET` that a request path takes. */
  function Route(path: string): (e: Endpoint)
    ensures e == Embryos <==> path == "/api/embryos"
    ensures e == TimelineOfWell <==> path == "/api/timeline"
    ensures e == Image <==> path == "/image"
    ensures e == Static <==> path !in {"/api/embryos", "/api/timeline", "/image"}
  {
    if path == "/api/embryos" then Embryos
    else if path == "/api/timeline" then TimelineOfWell
    else if path == "/image" then Image
    else Static
  }

  /** `handle_embryos`: every well once, in ascending order. */
  function HandleEmbryos(db: Database): (resp: Response)
    ensures db.Broken? ==> resp == Reply(500, ErrorText(db.message))
    ensures db.Readable? ==> resp.Reply? && resp.status == 200 && resp.body.WellList?
    ensures db.Readable? ==> TextOrder.StrictlyAscending(resp.body.wells)
    ensures db.Readable? ==> forall w :: w in resp.body.wells <==> exists f :: f in db.frames && f.well == w
  {
    match db
    case Broken(message) => Reply(500, ErrorText(message))
    case Readable(frames) => Reply(200, WellList(SelectWells(frames)))
  }

  /** `DISTINCT` with `ORDER BY` leaves one possible answer: any ascending,
      duplicate-free list of exactly the table's wells is the one returned. */
  lemma EmbryosListCanonical(frames: seq<Frame>, wells: seq<string>)
    requires TextOrder.StrictlyAscending(wells)
    requires forall w :: w in wells <==> exists f :: f in frames && f.well == w
    ensures HandleEmbryos(Readable(frames)) == Reply(200, WellList(wells))
  {
    TextOrder.StrictlyAscendingUnique(SelectWells(frames), wells);
  }

  /** What `handle_timeline` answers: 400 before any query when `id` is
      missing or empty, 500 when the database fails, otherwise 200 with the
      timeline of the rows the query selects. */
  ghost predicate IsTimelineResponse(db: Database, query: Query, resp: Response) {
    var id := Param(query, "id");
    if !Present(id) then resp == Reply(400, ErrorText(MissingIdMessage))
    else if db.Broken? then resp == Reply(500, ErrorText(db.message))
    else
      && resp.Reply? && resp.status == 200 && resp.body.TimelineList?
      && IsTimelineOf(resp.body.entries, SelectTimelineRows(db.frames, id.value))
  }

  /** `handle_timeline`. */
  method HandleTimeline(db: Database, query: Query) returns (resp: Response)
    ensures IsTimelineResponse(db, query, resp)
  {
    var id := Param(query, "id");
    if !Present(id) {
      return Reply(400, ErrorText(MissingIdMessage));
    }
    match db
    case Broken(message) =>
      resp := Reply(500, ErrorText(message));
    case Readable(frames) =>
      var rows := SelectTimelineRows(frames, id.value);
      var entries := BuildTimeline(rows);
      resp := Reply(200, TimelineList(entries));
  }

  /** A successful timeline lists only frames of the requested well inside the
      query's band, every such frame is listed, and each focal value appears
      under a time once for every frame at that time and focal plane. */
  lemma TimelineResponseContents(db: Database, query: Query, resp: Response)
    requires IsTimelineResponse(db, query, resp)
    requires resp.Reply? && resp.status == 200
    ensures db.Readable? && Present(Param(query, "id")) && resp.body.TimelineList?
    ensures forall k, f :: 0 <= k < |resp.body.entries| && f in resp.body.entries[k].focals ==>
      && resp.body.entries[k].time >= 0 && MinFocal <= f <= MaxFocal
      && exists fr :: fr in db.frames && fr.well == Param(query, "id").value
                      && fr.time == resp.body.entries[k].time && fr.focal == f
    ensures forall fr :: fr in db.frames && OnTimeline(fr, Param(query, "id").value) ==>
      exists k :: 0 <= k < |resp.body.entries| && resp.body.entries[k].time == fr.time
                  && fr.focal in resp.body.entries[k].focals
    ensures forall k, f :: 0 <= k < |resp.body.entries| ==>
      multiset(resp.body.entries[k].focals)[f]
        == |FramesGiving(db.frames, Param(query, "id").value, Row(resp.body.entries[k].time, f))|
  {
    var id := Param(query, "id").value;
    var rows := SelectTimelineRows(db.frames, id);
    var entries := resp.body.entries;
    TimelineCoversRows(entries, rows);
    forall k, f | 0 <= k < |entries|
      ensures multiset(entries[k].focals)[f] == |FramesGiving(db.frames, id, Row(entries[k].time, f))|
    {
      FocalsAtCount(rows, entries[k].time, f);
      SelectTimelineRowsCount(db.frames, id, Row(entries[k].time, f));
    }
    forall fr | fr in db.frames && OnTimeline(fr, id)
      ensures exists k :: 0 <= k < |entries| && entries[k].time == fr.time && fr.focal in entries[k].focals
    {
      assert Row(fr.time, fr.focal) in rows;
    }
  }

  /** Repeating a timeline request on the same table, or on any table whose
      rows are a rearrangement of it, gives the same answer. */
  lemma TimelineResponseUnique(frames1: seq<Frame>, frames2: seq<Frame>, query: Query, resp1: Response, resp2: Response)
    requires Param(query, "id").Some? ==>
      multiset(SelectTimelineRows(frames1, Param(query, "id").value))
        == multiset(SelectTimelineRows(frames2, Param(query, "id").value))
    requires IsTimelineResponse(Readable(frames1), query, resp1)
    requires IsTimelineResponse(Readable(frames2), query, resp2)
    ensures resp1 == resp2
  {
    if Present(Param(query, "id")) {
      var id := Param(query, "id").value;
      TimelineOrderIndependent(resp1.body.entries, SelectTimelineRows(frames1, id),
                               resp2.body.entries, SelectTimelineRows(frames2, id));
    }
  }

  /** All three image parameters are present, in the sense of Python truthiness. */
  predicate HasImageParameters(query: Query)
    ensures HasImageParameters(query) <==> forall key :: key in ["id", "time", "z"] ==> Present(Param(query, key))
  {
    Present(Param(query, "id")) && Present(Param(query, "time")) && Present(Param(query, "z"))
  }

  /** Frame `f` is the one addressed by the texts of `id`, `time` and `z`. */
  predicate Addressed(f: Frame, id: string, time: string, z: string) {
    f.well == id && ParseInt(time) == Some(f.time) && ParseInt(z) == Some(f.focal)
  }

  /** `handle_image`. */
  function HandleImage(db: Database, query: Query): (resp: Response)
    ensures !HasImageParameters(query) ==> resp == Reply(400, ErrorText(MissingParametersMessage))
    ensures HasImageParameters(query) && db.Broken? ==> resp == Reply(500, ErrorText(db.message))
    ensures HasImageParameters(query) && db.Readable? ==>
      var id, time, z := Param(query, "id").value, Param(query, "time").value, Param(query, "z").value;
      && (resp.Reply? && resp.status == 200 <==> exists f :: f in db.frames && Addressed(f, id, time, z))
      && (resp.Reply? && resp.status == 200 ==>
            resp.body.Jpeg? && exists f :: f in db.frames && Addressed(f, id, time, z) && resp.body.bytes == f.image)
      && (!(resp.Reply? && resp.status == 200) ==> resp == Reply(404, ErrorText(ImageNotFoundMessage)))
  {
    if !HasImageParameters(query) then Reply(400, ErrorText(MissingParametersMessage))
    else match db
      case Broken(message) => Reply(500, ErrorText(message))
      case Readable(frames) =>
        var id, time, z := Param(query, "id").value, ParseInt(Param(query, "time").value), ParseInt(Param(query, "z").value);
        var row := if time.Some? && z.Some? then SelectImage(frames, id, time.value, z.value) else None;
        match row
        case Some(f) => Reply(200, Jpeg(f.image))
        case None => Reply(404, ErrorText(ImageNotFoundMessage))
  }

  /** When `(Well, Time, Focal)` identifies at most one frame, asking for a
      frame by its coordinates, written as decimal text, returns exactly its bytes. */
  lemma ImageByCoordinates(frames: seq<Frame>, f: Frame, query: Query)
    requires f in frames
    requires forall a, b :: a in frames && b in frames && AtCoordinate(b, a.well, a.time, a.focal) ==> a == b
    requires f.well != ""
    requires Param(query, "id") == Some(f.well)
    requires Param(query, "time") == Some(ShowInt(f.time))
    requires Param(query, "z") == Some(ShowInt(f.focal))
    ensures HandleImage(Readable(frames), query) == Reply(200, Jpeg(f.image))
  {
    ParseShowInt(f.time);
    ParseShowInt(f.focal);
    assert Addressed(f, f.well, ShowInt(f.time), ShowInt(f.focal));
  }

  /** `do_GET`: dispatch on the path; every other path goes to static file serving. */
  method DoGet(db: Database, path: string, query: Query) returns (resp: Response)
    ensures path == "/api/embryos" ==> resp == HandleEmbryos(db)
    ensures path == "/api/timeline" ==> IsTimelineResponse(db, query, resp)
    ensures path == "/image" ==> resp == HandleImage(db, query)
    ensures Route(path) == Static <==> resp == StaticFile(path)
  {
    match Route(path)
    case Embryos => resp := HandleEmbryos(db);
    case TimelineOfWell => resp := HandleTimeline(db, query);
    case Image => resp := HandleImage(db, query);
    case Static => resp := StaticFile(path);
  }
}
