/** The documented example requests, stated against the model. */
module Scenarios {
  import opened Wrappers
  import opened Table
  import opened Params
  import opened Timeline
  import opened Server

  /** Wells A1 and B2 are listed as ["A1", "B2"]. */
  lemma EmbryosExample(image: seq<byte>)
    ensures HandleEmbryos(Readable([Frame("B2", 0, 0, image), Frame("A1", 0, 0, image), Frame("A1", 1, 0, image)]))
         == Reply(200, WellList(["A1", "B2"]))
  {
    var frames := [Frame("B2", 0, 0, image), Frame("A1", 0, 0, image), Frame("A1", 1, 0, image)];
    assert frames[1] in frames && frames[0] in frames;
    assert TextOrder.Less("A1", "B2");
    EmbryosListCanonical(frames, ["A1", "B2"]);
  }

  /** Rows (0, -5), (0, 5), (1, 0) give [{time 0, focals [-5, 5]}, {time 1, focals [0]}],
      and so does any other order of the same rows. */
  lemma TimelineExample(rows: seq<Row>)
    requires multiset(rows) == multiset{Row(0, -5), Row(0, 5), Row(1, 0)}
    ensures IsTimelineOf([Entry(0, [-5, 5]), Entry(1, [0])], rows)
  {
    var sample := [Row(1, 0), Row(0, 5), Row(0, -5)];
    SampleTimeline(sample);
    TimelineOfRearrangement([Entry(0, [-5, 5]), Entry(1, [0])], sample, rows);
  }

  lemma SampleFocals(sample: seq<Row>)
    requires sample == [Row(1, 0), Row(0, 5), Row(0, -5)]
    ensures FocalsAt(sample, 0) == [5, -5] && FocalsAt(sample, 1) == [0]
  {
    var one, two := [Row(1, 0)], [Row(1, 0), Row(0, 5)];
    assert one[..0] == [] && two[..1] == one && sample[..2] == two;
    assert FocalsAt(one, 0) == [] && FocalsAt(one, 1) == [0];
    assert FocalsAt(two, 0) == [5] && FocalsAt(two, 1) == [0];
  }

  lemma SampleTimeline(sample: seq<Row>)
    requires sample == [Row(1, 0), Row(0, 5), Row(0, -5)]
    ensures IsTimelineOf([Entry(0, [-5, 5]), Entry(1, [0])], sample)
  {
    var expected := [Entry(0, [-5, 5]), Entry(1, [0])];
    SampleFocals(sample);
    assert multiset([5, -5]) == multiset([-5, 5]);
    assert Times(sample) == {0, 1} by {
      assert sample[0] in sample && sample[1] in sample;
    }
    forall t ensures t in Times(sample) <==> exists k :: 0 <= k < |expected| && expected[k].time == t {
      if t == 0 {
        assert expected[0].time == t;
      } else if t == 1 {
        assert expected[1].time == t;
      }
    }
  }

  /** The timeline request for A1 over frames (0, -5), (0, 5), (1, 0) is answered
      200 with [{time 0, focals [-5, 5]}, {time 1, focals [0]}]. */
  lemma TimelineRequestExample(image: seq<byte>, resp: Response)
    requires IsTimelineResponse(Readable([Frame("A1", 0, -5, image), Frame("A1", 0, 5, image), Frame("A1", 1, 0, image)]),
                                map["id" := ["A1"]], resp)
    ensures resp == Reply(200, TimelineList([Entry(0, [-5, 5]), Entry(1, [0])]))
  {
    var frames := [Frame("A1", 0, -5, image), Frame("A1", 0, 5, image), Frame("A1", 1, 0, image)];
    var query: Query := map["id" := ["A1"]];
    assert Param(query, "id") == Some("A1");
    var rows := SelectTimelineRows(frames, "A1");
    SampleRows(frames, image);
    TimelineExample(rows);
    TimelineOrderIndependent(resp.body.entries, rows, [Entry(0, [-5, 5]), Entry(1, [0])], rows);
  }

  lemma SampleRows(frames: seq<Frame>, image: seq<byte>)
    requires frames == [Frame("A1", 0, -5, image), Frame("A1", 0, 5, image), Frame("A1", 1, 0, image)]
    ensures SelectTimelineRows(frames, "A1") == [Row(0, -5), Row(0, 5), Row(1, 0)]
  {
    assert frames[..2][..1] == frames[..1] && frames[..1][..0] == [];
    assert SelectTimelineRows(frames[..1], "A1") == [Row(0, -5)];
    assert SelectTimelineRows(frames[..2], "A1") == [Row(0, -5), Row(0, 5)];
  }

  /** A timeline request without `id` is refused whatever the database holds. */
  lemma TimelineMissingIdExample(db: Database, resp: Response)
    requires IsTimelineResponse(db, map["other" := ["A1"]], resp)
    ensures resp == Reply(400, ErrorText("Missing id parameter"))
  {
  }

  /** An image request whose coordinates match no frame is answered 404. */
  lemma ImageNotFoundExample(image: seq<byte>)
    ensures HandleImage(Readable([Frame("A1", 0, 0, image)]), map["id" := ["A1"], "time" := ["9"], "z" := ["0"]])
         == Reply(404, ErrorText("Image not found"))
  {
  }

  /** The frame at (A1, 0, 0) is served with exactly its bytes. */
  lemma ImageFoundExample(image: seq<byte>)
    ensures HandleImage(Readable([Frame("A1", 0, 0, image)]), map["id" := ["A1"], "time" := ["0"], "z" := ["0"]])
         == Reply(200, Jpeg(image))
  {
  }
}
