/**
 * The panorama group assigner of GroupImages.py.
 *
 * Images arrive one at a time. Each one is compared with the feature sets
 * retained for the currently open group, newest first. The first retained
 * image that shares more than `OverlapThreshold` RANSAC inliers with the new
 * one keeps the new image in the current group. When none does, the retained
 * list is emptied and the group id goes up by one. Either way the new
 * image's feature set is retained.
 *
 * Feature detection, descriptor matching and RANSAC are outside the model:
 * the number of inliers between a retained feature set and a new one is an
 * oracle `inliers(prev, new)` supplied by the caller, and loading an image
 * and extracting its feature set is a function `extract(reference)` that
 * yields `None` where the image cannot be read.
 */
module GroupImages {
  import opened Wrappers
  import opened PyText

  /** Overlap needs strictly more than this many RANSAC inliers. */
  const OverlapThreshold: nat := 100

  predicate Overlaps(inlierCount: nat) {
    inlierCount > OverlapThreshold
  }

  /**
   * The index of the newest retained feature set that overlaps `features`,
   * or `None` when no retained feature set does.
   */
  function LatestMatch<F>(retained: seq<F>, features: F, inliers: (F, F) -> nat): (r: Option<nat>)
    ensures r.Some? ==> r.value < |retained| && Overlaps(inliers(retained[r.value], features))
    ensures r.Some? ==> forall j :: r.value < j < |retained| ==> !Overlaps(inliers(retained[j], features))
    ensures r.None? <==> forall j :: 0 <= j < |retained| ==> !Overlaps(inliers(retained[j], features))
    decreases |retained|
  {
    if retained == [] then None
    else if Overlaps(inliers(retained[|retained| - 1], features)) then Some(|retained| - 1)
    else LatestMatch(retained[..|retained| - 1], features, inliers)
  }

  /**
   * The indexes of the retained feature sets that the oracle is consulted
   * on, in the order it is consulted: from the newest down, stopping right
   * after the first overlap.
   */
  function Probes<F>(retained: seq<F>, features: F, inliers: (F, F) -> nat): (p: seq<nat>)
    ensures |p| <= |retained| && (|p| == 0 <==> retained == [])
    ensures forall k :: 0 <= k < |p| ==> p[k] == |retained| - 1 - k
    ensures forall k :: 0 <= k < |p| - 1 ==> !Overlaps(inliers(retained[p[k]], features))
    decreases |retained|
  {
    if retained == [] then []
    else
      var last := |retained| - 1;
      if Overlaps(inliers(retained[last], features)) then [last]
      else [last] + Probes(retained[..last], features, inliers)
  }

  /**
   * The search consults every retained feature set from the newest down to
   * the latest match, and none older than it; with no match it consults all.
   */
  lemma {:induction false} ProbesStopAtLatestMatch<F>(retained: seq<F>, features: F, inliers: (F, F) -> nat)
    ensures var p := Probes(retained, features, inliers);
      match LatestMatch(retained, features, inliers)
      case Some(m) => |p| == |retained| - m && p[|p| - 1] == m
      case None => |p| == |retained|
    decreases |retained|
  {
    if retained != [] {
      var last := |retained| - 1;
      if !Overlaps(inliers(retained[last], features)) {
        ProbesStopAtLatestMatch(retained[..last], features, inliers);
      }
    }
  }

  /** The state of a `PanormaGroup`: the current group id and the retained feature sets. */
  datatype GroupState<F> = GroupState(gid: int, retained: seq<F>)

  /**
   * The state right after construction: one below `startGid`, so that the
   * first image, which finds nothing retained, is given `startGid`
   * (`FirstImageGetsStartGid`).
   */
  function Initial<F>(startGid: int): (g: GroupState<F>)
    ensures g.retained == [] && g.gid < startGid
  {
    GroupState(startGid - 1, [])
  }

  /** The state after one image with feature set `features` has been assigned. */
  function Assign<F>(s: GroupState<F>, features: F, inliers: (F, F) -> nat): (t: GroupState<F>)
    ensures (exists j :: 0 <= j < |s.retained| && Overlaps(inliers(s.retained[j], features))) ==>
      t == GroupState(s.gid, s.retained + [features])
    ensures (forall j :: 0 <= j < |s.retained| ==> !Overlaps(inliers(s.retained[j], features))) ==>
      t == GroupState(s.gid + 1, [features])
  {
    if LatestMatch(s.retained, features, inliers).Some? then GroupState(s.gid, s.retained + [features])
    else GroupState(s.gid + 1, [features])
  }

  /** After every assignment the id is the old one or one more, and the new image is retained last. */
  lemma AssignSteps<F>(s: GroupState<F>, features: F, inliers: (F, F) -> nat)
    ensures var t := Assign(s, features, inliers);
      (t.gid == s.gid || t.gid == s.gid + 1) &&
      t.retained != [] && t.retained[|t.retained| - 1] == features &&
      (t.gid == s.gid ==> t.retained == s.retained + [features]) &&
      (t.gid == s.gid + 1 ==> t.retained == [features])
  {
  }

  /** The first image after construction is given `startGid`. */
  lemma FirstImageGetsStartGid<F>(startGid: int, features: F, inliers: (F, F) -> nat)
    ensures Assign(Initial(startGid), features, inliers) == GroupState(startGid, [features])
  {
  }

  /** Exactly `OverlapThreshold` inliers is not an overlap; one more is. */
  lemma ThresholdIsStrict<F>(g: int, prev: F, features: F, inliers: (F, F) -> nat)
    ensures inliers(prev, features) == OverlapThreshold ==>
      Assign(GroupState(g, [prev]), features, inliers) == GroupState(g + 1, [features])
    ensures inliers(prev, features) == OverlapThreshold + 1 ==>
      Assign(GroupState(g, [prev]), features, inliers) == GroupState(g, [prev, features])
  {
  }

  /**
   * With two retained images `a` (older) and `b`, a new image `c` that does
   * not overlap `b` is still compared with `a`, and joins the group if it
   * overlaps `a`.
   */
  lemma SearchContinuesPastMismatch<F>(g: int, a: F, b: F, c: F, inliers: (F, F) -> nat)
    requires !Overlaps(inliers(b, c)) && Overlaps(inliers(a, c))
    ensures Probes([a, b], c, inliers) == [1, 0]
    ensures Assign(GroupState(g, [a, b]), c, inliers) == GroupState(g, [a, b, c])
  {
    assert [a, b][..1] == [a];
  }

  /** A new image that overlaps the newest retained image is never compared with older ones. */
  lemma {:induction false} SearchStopsAtNewest<F>(g: int, retained: seq<F>, features: F, inliers: (F, F) -> nat)
    requires retained != [] && Overlaps(inliers(retained[|retained| - 1], features))
    ensures Probes(retained, features, inliers) == [|retained| - 1]
    ensures Assign(GroupState(g, retained), features, inliers) == GroupState(g, retained + [features])
  {
  }

  /** The group ids given to a sequence of images, and the state after the last one. */
  datatype Trace<F> = Trace(final: GroupState<F>, ids: seq<int>)

  /** Assigns `images` in order, starting from state `s`. */
  function Run<F>(s: GroupState<F>, images: seq<F>, inliers: (F, F) -> nat): (r: Trace<F>)
    ensures |r.ids| == |images|
    ensures images == [] ==> r.final == s
    ensures images != [] ==>
      r.ids[|images| - 1] == r.final.gid &&
      r.final.retained != [] && r.final.retained[|r.final.retained| - 1] == images[|images| - 1]
    decreases |images|
  {
    if images == [] then Trace(s, [])
    else
      var before := Run(s, images[..|images| - 1], inliers);
      var after := Assign(before.final, images[|images| - 1], inliers);
      Trace(after, before.ids + [after.gid])
  }

  /** Each id is the one before it or one more. */
  predicate StepsByAtMostOne(ids: seq<int>) {
    forall k :: 0 < k < |ids| ==> ids[k] == ids[k - 1] || ids[k] == ids[k - 1] + 1
  }

  /**
   * Group ids never decrease and grow by at most one from image to image;
   * the first image is given the start id (or the one after, from a state
   * that already holds a group).
   */
  lemma {:induction false} IdsStepByAtMostOne<F>(s: GroupState<F>, images: seq<F>, inliers: (F, F) -> nat)
    requires images != []
    ensures Run(s, images, inliers).ids[0] in {s.gid, s.gid + 1}
    ensures s.retained == [] ==> Run(s, images, inliers).ids[0] == s.gid + 1
    ensures StepsByAtMostOne(Run(s, images, inliers).ids)
    decreases |images|
  {
    if |images| > 1 {
      IdsStepByAtMostOne(s, images[..|images| - 1], inliers);
    }
  }

  /** From a fresh assigner, the first image is given `startGid` and the ids step by 0 or 1. */
  lemma RunFromStart<F>(startGid: int, images: seq<F>, inliers: (F, F) -> nat)
    requires images != []
    ensures Run(Initial(startGid), images, inliers).ids[0] == startGid
    ensures StepsByAtMostOne(Run(Initial(startGid), images, inliers).ids)
  {
    IdsStepByAtMostOne(Initial(startGid), images, inliers);
  }

  /**
   * When no image overlaps an earlier one in the run, nor anything retained
   * at the start, every image starts a group of its own.
   */
  lemma {:induction false} NoOverlapMeansAllNewGroups<F>(s: GroupState<F>, images: seq<F>, inliers: (F, F) -> nat)
    requires forall j, k :: 0 <= j < k < |images| ==> !Overlaps(inliers(images[j], images[k]))
    requires forall i, k :: 0 <= i < |s.retained| && 0 <= k < |images| ==> !Overlaps(inliers(s.retained[i], images[k]))
    ensures forall k :: 0 <= k < |images| ==> Run(s, images, inliers).ids[k] == s.gid + 1 + k
    ensures images != [] ==> Run(s, images, inliers).final == GroupState(s.gid + |images|, [images[|images| - 1]])
    decreases |images|
  {
    if images != [] {
      var n := |images| - 1;
      var front := images[..n];
      NoOverlapMeansAllNewGroups(s, front, inliers);
      var before := Run(s, front, inliers);
      var last := images[n];
      if front != [] {
        assert before.final == GroupState(s.gid + n, [images[n - 1]]);
        assert !Overlaps(inliers(images[n - 1], last));
      } else {
        assert before.final == s;
      }
      var after := Assign(before.final, last, inliers);
      assert after == GroupState(s.gid + n + 1, [last]);
      assert Run(s, images, inliers).ids == before.ids + [after.gid];
    }
  }

  /** All ids in the sequence are the same: one group. */
  predicate AllSame(ids: seq<int>) {
    forall k :: 0 <= k < |ids| ==> ids[k] == ids[0]
  }

  /** Image `k` of the run overlaps some image before it. */
  predicate OverlapsEarlier<F>(images: seq<F>, k: nat, inliers: (F, F) -> nat)
    requires k < |images|
  {
    exists j :: 0 <= j < k && Overlaps(inliers(images[j], images[k]))
  }

  /**
   * When every image overlaps some earlier image of the run, the whole run
   * stays in the group of the first image, and every image stays retained:
   * after the old retained list when the first image joined the current
   * group, on its own when the first image opened a new one.
   */
  lemma {:induction false} OverlapWithEarlierKeepsOneGroup<F>(s: GroupState<F>, images: seq<F>, inliers: (F, F) -> nat)
    requires forall k :: 0 < k < |images| ==> OverlapsEarlier(images, k, inliers)
    ensures AllSame(Run(s, images, inliers).ids)
    ensures images != [] ==>
      var retained := Run(s, images, inliers).final.retained;
      retained == s.retained + images || retained == images
    decreases |images|
  {
    if images != [] {
      var n := |images| - 1;
      var front := images[..n];
      if n == 0 {
        var after := Assign(s, images[0], inliers);
        assert front == [];
        assert Run(s, images, inliers) == Trace(after, [after.gid]);
        if after.gid == s.gid {
          assert after.retained == s.retained + images;
        } else {
          assert after.retained == images;
        }
      } else {
        forall k | 0 < k < n
          ensures OverlapsEarlier(front, k, inliers)
        {
          assert OverlapsEarlier(images, k, inliers);
          var j :| 0 <= j < k && Overlaps(inliers(images[j], images[k]));
          assert front[j] == images[j] && front[k] == images[k];
        }
        OverlapWithEarlierKeepsOneGroup(s, front, inliers);
        assert OverlapsEarlier(images, n, inliers);
        assert images == front + [images[n]];
        JoinsGroup(s, front, images[n], inliers);
      }
    }
  }

  /** One step of `OverlapWithEarlierKeepsOneGroup`: an image that overlaps one of the group joins it. */
  lemma JoinsGroup<F>(s: GroupState<F>, front: seq<F>, last: F, inliers: (F, F) -> nat)
    requires OverlapsEarlier(front + [last], |front|, inliers)
    requires var retained := Run(s, front, inliers).final.retained;
      retained == s.retained + front || retained == front
    requires front != [] && AllSame(Run(s, front, inliers).ids)
    ensures var retained := Run(s, front + [last], inliers).final.retained;
      retained == s.retained + (front + [last]) || retained == front + [last]
    ensures AllSame(Run(s, front + [last], inliers).ids)
  {
    if Run(s, front, inliers).final.retained == front {
      assert [] + front == front;
      JoinsRetained(s, front, last, [], inliers);
      assert [] + (front + [last]) == front + [last];
    } else {
      JoinsRetained(s, front, last, s.retained, inliers);
    }
  }

  /** `JoinsGroup` with the part of the retained list before the run named `kept`. */
  lemma JoinsRetained<F>(s: GroupState<F>, front: seq<F>, last: F, kept: seq<F>, inliers: (F, F) -> nat)
    requires OverlapsEarlier(front + [last], |front|, inliers)
    requires Run(s, front, inliers).final.retained == kept + front
    requires front != [] && AllSame(Run(s, front, inliers).ids)
    ensures Run(s, front + [last], inliers).final.retained == kept + (front + [last])
    ensures AllSame(Run(s, front + [last], inliers).ids)
  {
    var images := front + [last];
    var n := |front|;
    var before := Run(s, front, inliers);
    var after := Assign(before.final, last, inliers);
    assert Run(s, images, inliers) == Trace(after, before.ids + [after.gid]) by {
      assert images[..n] == front;
    }
    assert after == GroupState(before.final.gid, kept + images) by {
      var j :| 0 <= j < n && Overlaps(inliers(images[j], images[n]));
      assert front[j] == images[j] && images[n] == last;
      JoinsRetainedRun(before.final, kept, front, j, last, inliers);
    }
    assert after.gid == before.ids[0];
    AllSameSnoc(before.ids, after.gid);
  }

  lemma AllSameSnoc(ids: seq<int>, id: int)
    requires ids != [] && AllSame(ids) && id == ids[0]
    ensures AllSame(ids + [id])
  {
    assert forall k :: 0 <= k < |ids| ==> (ids + [id])[k] == ids[k];
  }

  /** An image that overlaps one of the run retained behind `kept` is appended to it. */
  lemma JoinsRetainedRun<F>(st: GroupState<F>, kept: seq<F>, run: seq<F>, j: nat, image: F, inliers: (F, F) -> nat)
    requires st.retained == kept + run && j < |run| && Overlaps(inliers(run[j], image))
    ensures Assign(st, image, inliers) == GroupState(st.gid, kept + (run + [image]))
  {
    assert st.retained[|kept| + j] == run[j];
    assert (kept + run) + [image] == kept + (run + [image]);
  }

  /**
   * The scenario in which `b` joined `a`'s group and `c` overlaps `a` but
   * not `b`: all three are given group 0.
   */
  lemma RecencyScenario<F>(a: F, b: F, c: F, inliers: (F, F) -> nat)
    requires Overlaps(inliers(a, b)) && !Overlaps(inliers(b, c)) && Overlaps(inliers(a, c))
    ensures Run(Initial(0), [a, b, c], inliers).ids == [0, 0, 0]
  {
    assert [a, b, c][..2] == [a, b];
    assert [a, b][..1] == [a];
    assert [a][..0] == [];
    var t1 := Run(Initial(0), [a], inliers);
    assert t1 == Trace(GroupState(0, [a]), [0]);
    assert Overlaps(inliers([a][0], b));
    var t2 := Run(Initial(0), [a, b], inliers);
    assert t2 == Trace(GroupState(0, [a, b]), [0, 0]);
    SearchContinuesPastMismatch(0, a, b, c, inliers);
  }

  /** A keypoint as the feature detector reports it: row first, then column. */
  datatype Keypoint<C> = Keypoint(row: C, col: C)

  /** A point as RANSAC takes it: x (the column) first, then y (the row). */
  datatype Point<C> = Point(x: C, y: C)

  /** A descriptor match: a keypoint index in the retained image and one in the new image. */
  datatype Correspondence = Correspondence(prevIndex: nat, newIndex: nat)

  function AsPoint<C>(k: Keypoint<C>): Point<C> {
    Point(k.col, k.row)
  }

  function AsKeypoint<C>(p: Point<C>): Keypoint<C> {
    Keypoint(p.y, p.x)
  }

  /**
   * The source points (from the new image) and destination points (from
   * the retained image) handed to RANSAC, one pair per match, with each
   * keypoint's coordinates swapped to (x, y).
   */
  function MatchedPoints<C>(prevKeypoints: seq<Keypoint<C>>, newKeypoints: seq<Keypoint<C>>,
                            matches: seq<Correspondence>): (r: (seq<Point<C>>, seq<Point<C>>))
    requires forall m <- matches :: m.prevIndex < |prevKeypoints| && m.newIndex < |newKeypoints|
    ensures |r.0| == |matches| && |r.1| == |matches|
    ensures forall k :: 0 <= k < |matches| ==>
      AsKeypoint(r.0[k]) == newKeypoints[matches[k].newIndex] &&
      AsKeypoint(r.1[k]) == prevKeypoints[matches[k].prevIndex]
  {
    (seq(|matches|, k requires 0 <= k < |matches| => AsPoint(newKeypoints[matches[k].newIndex])),
     seq(|matches|, k requires 0 <= k < |matches| => AsPoint(prevKeypoints[matches[k].prevIndex])))
  }

  /**
   * `PanormaGroup` together with the `GroupChecker` base it extends: a group
   * id and the feature sets retained for the open group.
   */
  class PanoramaGroup<F> {
    var name: string
    var currentGroupId: int
    var imagesKeypointsDescriptors: seq<F>

    function State(): GroupState<F>
      reads this
    {
      GroupState(currentGroupId, imagesKeypointsDescriptors)
    }

    /** Sets the id one below `startGid`, so that the first image opens group `startGid`. */
    constructor (name: string, startGid: int)
      ensures this.name == name && State() == Initial(startGid)
    {
      this.name := name;
      currentGroupId := startGid;
      imagesKeypointsDescriptors := [];
      new;
      currentGroupId := currentGroupId - 1;
    }

    /**
     * Assigns a group id to the image whose feature set is `features`;
     * `probed` lists the retained indexes the oracle was consulted on.
     */
    method NextGid(features: F, inliers: (F, F) -> nat) returns (gid: int, ghost probed: seq<nat>)
      modifies this
      ensures State() == Assign(old(State()), features, inliers)
      ensures gid == currentGroupId && name == old(name)
      ensures probed == Probes(old(imagesKeypointsDescriptors), features, inliers)
    {
      var retained := imagesKeypointsDescriptors;
      var i := |retained|;
      var found := false;
      probed := [];
      while i > 0
        invariant 0 <= i <= |retained|
        invariant forall j :: i <= j < |retained| ==> !Overlaps(inliers(retained[j], features))
        invariant |probed| == |retained| - i
        invariant forall k :: 0 <= k < |probed| ==> probed[k] == |retained| - 1 - k
      {
        i := i - 1;
        probed := probed + [i];
        var numberOfTrueMatches := inliers(retained[i], features);
        if numberOfTrueMatches > OverlapThreshold {
          found := true;
          break;
        }
      }
      ghost var latest := LatestMatch(retained, features, inliers);
      assert found ==> latest == Some(i);
      assert !found ==> i == 0 && latest == None;
      ProbesStopAtLatestMatch(retained, features, inliers);
      if !found {
        imagesKeypointsDescriptors := [];
        currentGroupId := currentGroupId + 1;
      }
      imagesKeypointsDescriptors := imagesKeypointsDescriptors + [features];
      gid := currentGroupId;
    }

    /** `getGID`: stores the id `NextGid` computes and returns it. */
    method GetGid(features: F, inliers: (F, F) -> nat) returns (gid: int)
      modifies this
      ensures State() == Assign(old(State()), features, inliers)
      ensures gid == currentGroupId && name == old(name)
    {
      var next;
      ghost var probed;
      next, probed := NextGid(features, inliers);
      currentGroupId := next;
      gid := currentGroupId;
    }
  }

  /** Every listed image, its line stripped of trailing whitespace, can be loaded. */
  predicate AllLoad<F>(lines: seq<string>, extract: string -> Option<F>) {
    forall k :: 0 <= k < |lines| ==> extract(RStrip(lines[k])).Some?
  }

  /** The feature sets of the listed images, for a list whose images all load. */
  function Loaded<F>(lines: seq<string>, extract: string -> Option<F>): (fs: seq<F>)
    requires AllLoad(lines, extract)
    ensures |fs| == |lines| && forall k :: 0 <= k < |lines| ==> Some(fs[k]) == extract(RStrip(lines[k]))
  {
    seq(|lines|, k requires 0 <= k < |lines| => extract(RStrip(lines[k])).value)
  }

  /** The line printed and appended to the output file for one image. */
  function OutputLine(reference: string, gid: int): string {
    reference + "  " + IntToString(gid)
  }

  /** An output line reads back as the image reference, two spaces, and text that `int()` turns into the group id. */
  lemma OutputLineReadsBack(reference: string, gid: int)
    ensures var line := OutputLine(reference, gid);
      |line| > |reference| + 2 &&
      line[..|reference|] == reference && line[|reference|..|reference| + 2] == "  " &&
      IsNumber(line[|reference| + 2..]) && ParseInt(line[|reference| + 2..]) == gid
  {
    var line := OutputLine(reference, gid);
    assert line[|reference| + 2..] == IntToString(gid);
  }

  /** The output lines for the listed images, given their group ids. */
  function OutputLines(lines: seq<string>, ids: seq<int>): (out: seq<string>)
    requires |ids| == |lines|
    ensures |out| == |lines| && forall k :: 0 <= k < |lines| ==> out[k] == OutputLine(RStrip(lines[k]), ids[k])
  {
    seq(|lines|, k requires 0 <= k < |lines| => OutputLine(RStrip(lines[k]), ids[k]))
  }

  lemma OutputLinesSnoc(lines: seq<string>, i: nat, ids: seq<int>, gid: int)
    requires i < |lines| && |ids| == i
    ensures OutputLines(lines[..i + 1], ids + [gid]) == OutputLines(lines[..i], ids) + [OutputLine(RStrip(lines[i]), gid)]
  {
    var longer := OutputLines(lines[..i + 1], ids + [gid]);
    var expected := OutputLines(lines[..i], ids) + [OutputLine(RStrip(lines[i]), gid)];
    forall k | 0 <= k < i + 1
      ensures longer[k] == expected[k]
    {
      assert lines[..i + 1][k] == lines[k] && (ids + [gid])[k] == if k < i then ids[k] else gid;
    }
    assert |longer| == |expected|;
  }

  /** Assigning one more image extends the trace by that image's id. */
  lemma RunSnoc<F>(s: GroupState<F>, images: seq<F>, image: F, inliers: (F, F) -> nat)
    ensures Run(s, images + [image], inliers) ==
      Trace(Assign(Run(s, images, inliers).final, image, inliers),
            Run(s, images, inliers).ids + [Assign(Run(s, images, inliers).final, image, inliers).gid])
  {
    assert (images + [image])[..|images|] == images;
  }

  /** Reading one more line of the list extends the loaded feature sets by that image's. */
  lemma LoadedSnoc<F>(lines: seq<string>, i: nat, extract: string -> Option<F>)
    requires i < |lines| && AllLoad(lines[..i], extract) && extract(RStrip(lines[i])).Some?
    ensures AllLoad(lines[..i + 1], extract)
    ensures Loaded(lines[..i + 1], extract) == Loaded(lines[..i], extract) + [extract(RStrip(lines[i])).value]
  {
    assert lines[..i + 1] == lines[..i] + [lines[i]];
  }

  /**
   * `main`: assigns group ids to the listed images in order, starting at 0,
   * and produces one output line per image. The first image that cannot be
   * loaded ends the run; the lines already produced stay.
   */
  method GroupImageList<F>(lines: seq<string>, extract: string -> Option<F>, inliers: (F, F) -> nat)
    returns (output: seq<string>, completed: bool)
    ensures |output| <= |lines|
    ensures completed <==> |output| == |lines|
    ensures !completed ==> extract(RStrip(lines[|output|])).None?
    ensures AllLoad(lines[..|output|], extract)
    ensures output == OutputLines(lines[..|output|], Run(Initial(0), Loaded(lines[..|output|], extract), inliers).ids)
  {
    var group := new PanoramaGroup<F>("OverlapGroup", 0);
    output := [];
    completed := true;
    ghost var loaded: seq<F> := [];
    ghost var ids: seq<int> := [];
    var i := 0;
    while i < |lines|
      invariant 0 <= i <= |lines| && |output| == i && |ids| == i
      invariant AllLoad(lines[..i], extract) && loaded == Loaded(lines[..i], extract)
      invariant Run(Initial(0), loaded, inliers) == Trace(group.State(), ids)
      invariant output == OutputLines(lines[..i], ids)
    {
      var img := RStrip(lines[i]);
      var features := extract(img);
      if features.None? {
        completed := false;
        break;
      }
      var gid := group.GetGid(features.value, inliers);
      LoadedSnoc(lines, i, extract);
      OutputLinesSnoc(lines, i, ids, gid);
      RunSnoc(Initial(0), loaded, features.value, inliers);
      loaded := loaded + [features.value];
      ids := ids + [gid];
      output := output + [OutputLine(img, gid)];
      i := i + 1;
    }
  }
}
