/** The mean-average-precision evaluator (mAP.py): per class, greedy confidence-ordered matching of
    detections to ground truths, the precision/recall curve, its area, and the mean over classes. */
module MeanAP {
  import opened Results
  import opened IoU
  import opened Lists
  import opened Curves

  /** A prediction `[img, class, score, x1, y1, x2, y2]`. Ground truths are read with the same
      layout: the box is taken from index 3 on for both kinds of record. */
  datatype Record = Record(image: int, cls: int, score: real, box: Box)

  function Score(r: Record): real { r.score }

  function HasClass(c: int): Record -> bool { (x: Record) => x.cls == c }
  function InImageOf(img: int): Record -> bool { (x: Record) => x.image == img }

  /** The records of class `c`, in input order. */
  function OfClass(s: seq<Record>, c: int): (r: seq<Record>)
    ensures forall x :: x in r <==> x in s && x.cls == c
    ensures forall x :: multiset(r)[x] == if x.cls == c then multiset(s)[x] else 0
    ensures Subseq(r, s)
  {
    FilterCount(s, HasClass(c));
    FilterKeepsOrder(s, HasClass(c));
    Filter(s, HasClass(c))
  }

  /** The records of image `img`, in input order. */
  function InImage(s: seq<Record>, img: int): (r: seq<Record>)
    ensures forall x :: x in r <==> x in s && x.image == img
  {
    Filter(s, InImageOf(img))
  }

  /** The records of an image keep every occurrence, duplicates included, in input order: one
      occupancy slot per ground-truth record. */
  lemma InImageExact(s: seq<Record>, img: int)
    ensures forall x :: multiset(InImage(s, img))[x] == if x.image == img then multiset(s)[x] else 0
    ensures Subseq(InImage(s, img), s)
  {
    FilterCount(s, InImageOf(img));
    FilterKeepsOrder(s, InImageOf(img));
  }

  lemma InImageSnoc(s: seq<Record>, x: Record, img: int)
    ensures InImage(s + [x], img) == InImage(s, img) + (if x.image == img then [x] else [])
  {
    FilterSnoc(s, x, InImageOf(img));
  }

  /** The class's detections in the order they are matched: by non-increasing score, ties in input order. */
  function ClassDetections(preds: seq<Record>, c: int): seq<Record>
  {
    SortDesc(OfClass(preds, c), Score)
  }

  function ImagesOf(s: seq<Record>): set<int>
  {
    set x | x in s :: x.image
  }

  // ---------------------------------------------------------------------------------------------
  // The occupancy map

  /** `counts` holds, for every image of `s`, the number of records of that image. */
  ghost predicate Counts(counts: map<int, nat>, s: seq<Record>)
  {
    counts.Keys == ImagesOf(s) && forall img :: img in counts ==> counts[img] == |InImage(s, img)|
  }

  lemma {:induction false} NoRecordsOfImage(s: seq<Record>, img: int)
    requires forall x :: x in s ==> x.image != img
    ensures InImage(s, img) == []
    decreases |s|
  {
    if s != [] {
      NoRecordsOfImage(s[1..], img);
    }
  }

  lemma CountsSnoc(counts: map<int, nat>, s: seq<Record>, x: Record)
    requires Counts(counts, s)
    ensures Counts(counts[x.image := if x.image in counts then counts[x.image] + 1 else 1], s + [x])
  {
    var img := x.image;
    var counts' := counts[img := if img in counts then counts[img] + 1 else 1];
    assert ImagesOf(s + [x]) == ImagesOf(s) + {img} by {
      forall y | y in s + [x] ensures y in s || y == x { }
    }
    forall other | other in counts'
      ensures counts'[other] == |InImage(s + [x], other)|
    {
      InImageSnoc(s, x, other);
      if other == img && img !in counts {
        NoRecordsOfImage(s, img);
      }
    }
  }

  /** `Counter` over the images of the ground truths, then a vector of "unmatched" slots per image:
      one slot per ground truth of that image. */
  method Occupancy(gts: seq<Record>) returns (amount: map<int, seq<bool>>)
    ensures amount.Keys == ImagesOf(gts)
    ensures forall img :: img in amount ==>
      |amount[img]| == |InImage(gts, img)| && forall j :: 0 <= j < |amount[img]| ==> !amount[img][j]
  {
    var counts := CountImages(gts);
    amount := Unmatched(counts);
  }

  /** The `Counter` over the image ids of the ground truths. */
  method CountImages(gts: seq<Record>) returns (counts: map<int, nat>)
    ensures Counts(counts, gts)
  {
    counts := map[];
    var i := 0;
    while i < |gts|
      invariant 0 <= i <= |gts|
      invariant Counts(counts, gts[..i])
    {
      assert gts[..i + 1] == gts[..i] + [gts[i]];
      CountsSnoc(counts, gts[..i], gts[i]);
      var img := gts[i].image;
      counts := counts[img := if img in counts then counts[img] + 1 else 1];
      i := i + 1;
    }
    assert gts[..i] == gts;
  }

  /** A vector of `n` unmatched slots. */
  function Zeros(n: nat): (v: seq<bool>)
    ensures |v| == n && forall j :: 0 <= j < |v| ==> !v[j]
  {
    seq(n, _ => false)
  }

  /** Some element of a non-empty set. */
  lemma Element<T>(s: set<T>) returns (x: T)
    requires s != {}
    ensures x in s
  {
    if forall y :: y !in s {
      assert false;
    } else {
      x :| x in s;
    }
  }

  /** Replaces each count by a vector of that many unmatched slots. */
  method Unmatched(counts: map<int, nat>) returns (amount: map<int, seq<bool>>)
    ensures amount.Keys == counts.Keys
    ensures forall img :: img in amount ==> amount[img] == Zeros(counts[img])
  {
    amount := map[];
    var todo := counts.Keys;
    while todo != {}
      invariant todo <= counts.Keys
      invariant amount.Keys == counts.Keys - todo
      invariant forall img :: img in amount ==> amount[img] == Zeros(counts[img])
      decreases |todo|
    {
      ghost var some := Element(todo);
      var img :| img in todo;
      amount := amount[img := Zeros(counts[img])];
      todo := todo - {img};
    }
  }

  // ---------------------------------------------------------------------------------------------
  // The best ground truth for one detection

  /** The highest IoU seen and where it was first seen; `idx` is -1 while no IoU above 0 was seen. */
  datatype Best = Best(iou: real, idx: int)

  /** The running maximum of the inner loop, over a list of IoUs: starts at 0 and moves only on a
      strictly larger value. */
  function BestOf(ious: seq<real>): (b: Best)
    ensures b.iou >= 0.0
    ensures forall j :: 0 <= j < |ious| ==> ious[j] <= b.iou
    ensures b.iou > 0.0 ==> 0 <= b.idx < |ious| && ious[b.idx] == b.iou && forall j :: 0 <= j < b.idx ==> ious[j] < b.iou
    ensures b.iou == 0.0 ==> b.idx == -1
    decreases |ious|
  {
    if ious == [] then Best(0.0, -1)
    else
      var b := BestOf(ious[..|ious| - 1]);
      if ious[|ious| - 1] > b.iou then Best(ious[|ious| - 1], |ious| - 1) else b
  }

  /** The IoUs of a detection against each ground truth of its image, in order. */
  function Ious(d: Record, gtImg: seq<Record>, f: BoxFormat): (r: seq<real>)
    ensures |r| == |gtImg|
  {
    seq(|gtImg|, j requires 0 <= j < |gtImg| => IouOf(f, d.box, gtImg[j].box))
  }

  /** The inner loop over the ground truths of the detection's image. */
  method BestGroundTruth(d: Record, gtImg: seq<Record>, format: string) returns (r: Result<Best>)
    ensures r.Err? <==> ParseFormat(format).Err? && gtImg != []
    ensures r.Err? ==> r.error == UnknownBoxFormat
    ensures gtImg == [] ==> r == Ok(Best(0.0, -1))
    ensures ParseFormat(format).Ok? ==> r == Ok(BestOf(Ious(d, gtImg, ParseFormat(format).value)))
  {
    var bestIou := 0.0;
    var bestIdx := -1;
    var idx := 0;
    while idx < |gtImg|
      invariant 0 <= idx <= |gtImg|
      invariant ParseFormat(format).Ok? ==>
        Best(bestIou, bestIdx) == BestOf(Ious(d, gtImg[..idx], ParseFormat(format).value))
      invariant ParseFormat(format).Err? ==> idx == 0
      invariant idx == 0 ==> bestIou == 0.0 && bestIdx == -1
    {
      var iou := IntersectOverUnion(d.box, gtImg[idx].box, format);
      if iou.Err? {
        return Err(iou.error);
      }
      ghost var f := ParseFormat(format).value;
      assert Ious(d, gtImg[..idx + 1], f) == Ious(d, gtImg[..idx], f) + [iou.value];
      if iou.value > bestIou {
        bestIou := iou.value;
        bestIdx := idx;
      }
      idx := idx + 1;
    }
    if ParseFormat(format).Ok? {
      assert gtImg[..idx] == gtImg;
    }
    r := Ok(Best(bestIou, bestIdx));
  }

  // ---------------------------------------------------------------------------------------------
  // The greedy matching, specified

  /** The best ground truth for detection `d` among the ground truths `gts` of its image. */
  function BestFor(d: Record, gts: seq<Record>, f: BoxFormat): Best
  {
    BestOf(Ious(d, InImage(gts, d.image), f))
  }

  /** The occupancy slot detection `d` would claim: its image and the index of its best ground truth. */
  function SlotOf(d: Record, gts: seq<Record>, f: BoxFormat): (int, int)
  {
    (d.image, BestFor(d, gts, f).idx)
  }

  /** The slots claimed by the detections flagged true positive among the first |tp|. */
  ghost function Claimed(dets: seq<Record>, gts: seq<Record>, f: BoxFormat, tp: seq<int>): set<(int, int)>
    requires |tp| <= |dets|
    decreases |tp|
  {
    if tp == [] then {}
    else
      var n := |tp| - 1;
      Claimed(dets, gts, f, tp[..n]) + (if tp[n] == 1 then {SlotOf(dets[n], gts, f)} else {})
  }

  /** The flags of the first |tp| detections are those of greedy matching: a detection is a true
      positive exactly when its best IoU is strictly above the threshold and no earlier true
      positive claimed the same ground truth; otherwise it is a false positive. */
  ghost predicate GreedyFlags(dets: seq<Record>, gts: seq<Record>, iouThreshold: real, f: BoxFormat, tp: seq<int>, fp: seq<int>)
  {
    Flagged(tp, fp) && |tp| <= |dets| &&
    forall k {:trigger tp[..k]} :: 0 <= k < |tp| ==>
      (tp[k] == 1 <==> BestFor(dets[k], gts, f).iou > iouThreshold && SlotOf(dets[k], gts, f) !in Claimed(dets, gts, f, tp[..k]))
  }

  /** The greedy condition at one position of greedy flags. */
  lemma GreedyFlagAt(dets: seq<Record>, gts: seq<Record>, iouThreshold: real, f: BoxFormat,
                     tp: seq<int>, fp: seq<int>, k: nat)
    requires GreedyFlags(dets, gts, iouThreshold, f, tp, fp) && k < |tp|
    ensures tp[k] == 1 <==> BestFor(dets[k], gts, f).iou > iouThreshold && SlotOf(dets[k], gts, f) !in Claimed(dets, gts, f, tp[..k])
  {
    // GreedyFlags quantifies with the trigger tp[..k]; mentioning that term instantiates it at k.
    assert tp[..k] == tp[..k];
  }

  /** The TP/FP vectors of one class. */
  datatype Matching = Matching(tp: seq<int>, fp: seq<int>)

  ghost predicate GreedyMatching(dets: seq<Record>, gts: seq<Record>, iouThreshold: real, f: BoxFormat, m: Matching)
  {
    GreedyFlags(dets, gts, iouThreshold, f, m.tp, m.fp) && |m.tp| == |dets|
  }

  lemma ClaimedSnoc(dets: seq<Record>, gts: seq<Record>, f: BoxFormat, tp: seq<int>, t: int)
    requires |tp| < |dets|
    ensures Claimed(dets, gts, f, tp + [t]) ==
      Claimed(dets, gts, f, tp) + (if t == 1 then {SlotOf(dets[|tp|], gts, f)} else {})
  {
    assert (tp + [t])[..|tp|] == tp;
  }

  /** Extending greedy flags by the decision for the next detection. */
  lemma GreedyFlagsSnoc(dets: seq<Record>, gts: seq<Record>, iouThreshold: real, f: BoxFormat,
                        tp: seq<int>, fp: seq<int>, t: int, p: int)
    requires GreedyFlags(dets, gts, iouThreshold, f, tp, fp) && |tp| < |dets|
    requires (t == 1 && p == 0) || (t == 0 && p == 1)
    requires t == 1 <==> BestFor(dets[|tp|], gts, f).iou > iouThreshold &&
                         SlotOf(dets[|tp|], gts, f) !in Claimed(dets, gts, f, tp)
    ensures GreedyFlags(dets, gts, iouThreshold, f, tp + [t], fp + [p])
  {
    var tp', fp' := tp + [t], fp + [p];
    forall k | 0 <= k < |tp'|
      ensures (tp'[k] == 1 && fp'[k] == 0) || (tp'[k] == 0 && fp'[k] == 1)
      ensures tp'[k] == 1 <==> BestFor(dets[k], gts, f).iou > iouThreshold && SlotOf(dets[k], gts, f) !in Claimed(dets, gts, f, tp'[..k])
    {
      assert tp'[..k] == if k < |tp| then tp[..k] else tp;
    }
  }

  /** Cutting greedy flags back to a prefix keeps them greedy. */
  lemma GreedyFlagsPrefix(dets: seq<Record>, gts: seq<Record>, iouThreshold: real, f: BoxFormat,
                          tp: seq<int>, fp: seq<int>, n: nat)
    requires GreedyFlags(dets, gts, iouThreshold, f, tp, fp) && n <= |tp|
    ensures GreedyFlags(dets, gts, iouThreshold, f, tp[..n], fp[..n])
  {
    forall k | 0 <= k < n
      ensures tp[..n][k] == 1 <==> BestFor(dets[k], gts, f).iou > iouThreshold &&
                                   SlotOf(dets[k], gts, f) !in Claimed(dets, gts, f, tp[..n][..k])
    {
      assert tp[..n][..k] == tp[..k];
    }
  }

  // ---------------------------------------------------------------------------------------------
  // Each ground truth is claimed at most once

  /** One slot per ground truth: the pairs (image, index among that image's ground truths). */
  ghost function Slots(gts: seq<Record>): set<(int, int)>
    decreases |gts|
  {
    if gts == [] then {}
    else
      var init, last := gts[..|gts| - 1], gts[|gts| - 1];
      Slots(init) + {(last.image, |InImage(init, last.image)|)}
  }

  lemma {:induction false} SlotsCount(gts: seq<Record>)
    ensures |Slots(gts)| <= |gts|
    decreases |gts|
  {
    if gts != [] {
      SlotsCount(gts[..|gts| - 1]);
    }
  }

  lemma {:induction false} SlotInRange(gts: seq<Record>, img: int, j: int)
    requires 0 <= j < |InImage(gts, img)|
    ensures (img, j) in Slots(gts)
    decreases |gts|
  {
    if gts != [] {
      var init, last := gts[..|gts| - 1], gts[|gts| - 1];
      assert gts == init + [last];
      InImageSnoc(init, last, img);
      if j < |InImage(init, img)| {
        SlotInRange(init, img, j);
      }
    }
  }

  /** The true positives claim distinct slots, so there are exactly as many claimed slots as true
      positives, and every claimed slot belongs to a ground truth. */
  lemma {:induction false} ClaimedSlots(dets: seq<Record>, gts: seq<Record>, iouThreshold: real, f: BoxFormat,
                                        tp: seq<int>, fp: seq<int>)
    requires iouThreshold >= 0.0 && GreedyFlags(dets, gts, iouThreshold, f, tp, fp)
    ensures |Claimed(dets, gts, f, tp)| == Sum(tp)
    ensures Claimed(dets, gts, f, tp) <= Slots(gts)
    decreases |tp|
  {
    if tp != [] {
      var n := |tp| - 1;
      GreedyFlagsPrefix(dets, gts, iouThreshold, f, tp, fp, n);
      ClaimedSlots(dets, gts, iouThreshold, f, tp[..n], fp[..n]);
      assert tp[..n] == tp[..|tp| - 1];
      if tp[n] == 1 {
        var d := dets[n];
        var b := BestFor(d, gts, f);
        assert b.iou > iouThreshold;
        SlotInRange(gts, d.image, b.idx);
      }
    }
  }

  lemma SubsetCardinality<T>(a: set<T>, b: set<T>)
    requires a <= b
    ensures |a| <= |b|
  {
    assert b == a + (b - a);
  }

  /** The number of true positives never exceeds the number of ground truths. */
  lemma TruePositivesBounded(dets: seq<Record>, gts: seq<Record>, iouThreshold: real, f: BoxFormat, m: Matching)
    requires iouThreshold >= 0.0 && GreedyMatching(dets, gts, iouThreshold, f, m)
    ensures Sum(m.tp) <= |gts|
  {
    ClaimedSlots(dets, gts, iouThreshold, f, m.tp, m.fp);
    SubsetCardinality(Claimed(dets, gts, f, m.tp), Slots(gts));
    SlotsCount(gts);
  }

  /** No two true positives claim the same ground truth. */
  lemma TruePositivesDistinct(dets: seq<Record>, gts: seq<Record>, iouThreshold: real, f: BoxFormat, m: Matching, i: nat, j: nat)
    requires GreedyMatching(dets, gts, iouThreshold, f, m)
    requires i < j < |dets| && m.tp[i] == 1 && m.tp[j] == 1
    ensures SlotOf(dets[i], gts, f) != SlotOf(dets[j], gts, f)
  {
    ClaimedContains(dets, gts, f, m.tp[..j], i);
  }

  lemma {:induction false} ClaimedContains(dets: seq<Record>, gts: seq<Record>, f: BoxFormat, tp: seq<int>, i: nat)
    requires |tp| <= |dets| && i < |tp| && tp[i] == 1
    ensures SlotOf(dets[i], gts, f) in Claimed(dets, gts, f, tp)
    decreases |tp|
  {
    var n := |tp| - 1;
    if i < n {
      ClaimedContains(dets, gts, f, tp[..n], i);
    }
  }

  /** The greedy flags are determined by the detections, the ground truths, the threshold and the
      format: two matchings that both satisfy GreedyMatching are equal. */
  lemma {:induction false} GreedyMatchingUnique(dets: seq<Record>, gts: seq<Record>, iouThreshold: real, f: BoxFormat,
                                                m1: Matching, m2: Matching)
    requires GreedyMatching(dets, gts, iouThreshold, f, m1) && GreedyMatching(dets, gts, iouThreshold, f, m2)
    ensures m1 == m2
  {
    GreedyFlagsUnique(dets, gts, iouThreshold, f, m1.tp, m1.fp, m2.tp, m2.fp);
  }

  lemma {:induction false} GreedyFlagsUnique(dets: seq<Record>, gts: seq<Record>, iouThreshold: real, f: BoxFormat,
                                             tp1: seq<int>, fp1: seq<int>, tp2: seq<int>, fp2: seq<int>)
    requires GreedyFlags(dets, gts, iouThreshold, f, tp1, fp1) && GreedyFlags(dets, gts, iouThreshold, f, tp2, fp2)
    requires |tp1| == |tp2|
    ensures tp1 == tp2 && fp1 == fp2
    decreases |tp1|
  {
    if tp1 != [] {
      var n := |tp1| - 1;
      GreedyFlagsPrefix(dets, gts, iouThreshold, f, tp1, fp1, n);
      GreedyFlagsPrefix(dets, gts, iouThreshold, f, tp2, fp2, n);
      GreedyFlagsUnique(dets, gts, iouThreshold, f, tp1[..n], fp1[..n], tp2[..n], fp2[..n]);
      LastFlagAgrees(dets, gts, iouThreshold, f, tp1, fp1, tp2, fp2);
      LastAndPrefix(tp1, tp2);
      LastAndPrefix(fp1, fp2);
    }
  }

  /** Greedy flags that agree before the last detection agree on it too. */
  lemma LastFlagAgrees(dets: seq<Record>, gts: seq<Record>, iouThreshold: real, f: BoxFormat,
                       tp1: seq<int>, fp1: seq<int>, tp2: seq<int>, fp2: seq<int>)
    requires GreedyFlags(dets, gts, iouThreshold, f, tp1, fp1) && GreedyFlags(dets, gts, iouThreshold, f, tp2, fp2)
    requires |tp1| == |tp2| > 0 && tp1[..|tp1| - 1] == tp2[..|tp2| - 1]
    ensures tp1[|tp1| - 1] == tp2[|tp2| - 1] && fp1[|fp1| - 1] == fp2[|fp2| - 1]
  {
    var n := |tp1| - 1;
    var c := Claimed(dets, gts, f, tp1[..n]);
    var best, slot := BestFor(dets[n], gts, f).iou, SlotOf(dets[n], gts, f);
    assert tp1[n] == 1 <==> best > iouThreshold && slot !in c;
    assert tp2[n] == 1 <==> best > iouThreshold && slot !in c;
    assert (tp1[n] == 1 && fp1[n] == 0) || (tp1[n] == 0 && fp1[n] == 1);
    assert (tp2[n] == 1 && fp2[n] == 0) || (tp2[n] == 0 && fp2[n] == 1);
  }

  /** Two non-empty sequences agreeing on their last element and on everything before it are equal. */
  lemma LastAndPrefix<T>(s: seq<T>, t: seq<T>)
    requires |s| == |t| > 0 && s[..|s| - 1] == t[..|t| - 1] && s[|s| - 1] == t[|t| - 1]
    ensures s == t
  {
    assert s == s[..|s| - 1] + [s[|s| - 1]];
    assert t == t[..|t| - 1] + [t[|t| - 1]];
  }

  // ---------------------------------------------------------------------------------------------
  // The matching loop

  /** The format the IoUs are computed in; when the name is unknown no IoU is ever computed on a
      successful run, and any format describes that run. */
  function FormatFor(format: string): BoxFormat
  {
    if ParseFormat(format).Ok? then ParseFormat(format).value else Corners
  }

  /** The matching of one class raises for an unknown format exactly when some detection has a
      ground truth in its image, so that an IoU is computed. */
  ghost predicate MatchingFails(dets: seq<Record>, gts: seq<Record>, format: string)
  {
    ParseFormat(format).Err? && exists d :: d in dets && InImage(gts, d.image) != []
  }

  /** The occupancy map has one vector per image with ground truths, one slot per ground truth. */
  ghost predicate Shaped(amount: map<int, seq<bool>>, gts: seq<Record>)
  {
    amount.Keys == ImagesOf(gts) && forall img :: img in amount ==> |amount[img]| == |InImage(gts, img)|
  }

  /** The occupancy map marks exactly the slots claimed by the true positives so far. */
  ghost predicate Marks(amount: map<int, seq<bool>>, dets: seq<Record>, gts: seq<Record>, f: BoxFormat, tp: seq<int>)
    requires |tp| <= |dets|
  {
    forall img, j :: img in amount && 0 <= j < |amount[img]| ==>
      (amount[img][j] <==> (img, j) in Claimed(dets, gts, f, tp))
  }

  /** The loop state: the flags so far are the greedy ones, and the occupancy map marks exactly the
      claimed slots. */
  ghost predicate MatchState(dets: seq<Record>, gts: seq<Record>, iouThreshold: real, f: BoxFormat,
                             tp: seq<int>, fp: seq<int>, amount: map<int, seq<bool>>)
  {
    GreedyFlags(dets, gts, iouThreshold, f, tp, fp) && Shaped(amount, gts) && Marks(amount, dets, gts, f, tp)
  }

  /** Marking the slot of a new true positive keeps the map in step with the claimed slots. */
  lemma MarksSnoc(amount: map<int, seq<bool>>, dets: seq<Record>, gts: seq<Record>, f: BoxFormat, tp: seq<int>,
                  t: int, amount': map<int, seq<bool>>)
    requires |tp| < |dets| && Marks(amount, dets, gts, f, tp)
    requires var slot := SlotOf(dets[|tp|], gts, f);
      if t == 1 then slot.0 in amount && 0 <= slot.1 < |amount[slot.0]| && amount' == amount[slot.0 := amount[slot.0][slot.1 := true]]
      else amount' == amount
    ensures Marks(amount', dets, gts, f, tp + [t])
  {
    ClaimedSnoc(dets, gts, f, tp, t);
  }

  lemma ImageOfGroundTruth(gts: seq<Record>, img: int)
    requires InImage(gts, img) != []
    ensures img in ImagesOf(gts)
  {
    assert InImage(gts, img)[0] in InImage(gts, img);
  }

  /** The loop's test on the occupancy map is the greedy test on the claimed slots. */
  lemma DecisionIsGreedy(amount: map<int, seq<bool>>, dets: seq<Record>, gts: seq<Record>, iouThreshold: real,
                         f: BoxFormat, tp: seq<int>)
    requires iouThreshold >= 0.0 && |tp| < |dets|
    requires Shaped(amount, gts) && Marks(amount, dets, gts, f, tp)
    ensures var d := dets[|tp|]; var b := BestFor(d, gts, f);
      (b.iou > iouThreshold && d.image in amount && 0 <= b.idx < |amount[d.image]| && !amount[d.image][b.idx]) <==>
      (b.iou > iouThreshold && SlotOf(d, gts, f) !in Claimed(dets, gts, f, tp))
  {
    var d := dets[|tp|];
    var b := BestFor(d, gts, f);
    if b.iou > iouThreshold {
      ImageOfGroundTruth(gts, d.image);
      assert 0 <= b.idx < |amount[d.image]|;
    }
  }

  /** One step of the matching loop keeps the loop state. */
  lemma MatchStep(dets: seq<Record>, gts: seq<Record>, iouThreshold: real, f: BoxFormat,
                  tp: seq<int>, fp: seq<int>, amount: map<int, seq<bool>>,
                  t: int, amount': map<int, seq<bool>>)
    requires iouThreshold >= 0.0
    requires MatchState(dets, gts, iouThreshold, f, tp, fp, amount) && |tp| < |dets|
    requires t == 0 || t == 1
    requires var d := dets[|tp|]; var b := BestFor(d, gts, f);
      t == 1 <==> b.iou > iouThreshold && d.image in amount && 0 <= b.idx < |amount[d.image]| && !amount[d.image][b.idx]
    requires var d := dets[|tp|]; var b := BestFor(d, gts, f);
      if t == 1 then d.image in amount && 0 <= b.idx < |amount[d.image]| && amount' == amount[d.image := amount[d.image][b.idx := true]]
      else amount' == amount
    ensures MatchState(dets, gts, iouThreshold, f, tp + [t], fp + [1 - t], amount')
  {
    DecisionIsGreedy(amount, dets, gts, iouThreshold, f, tp);
    GreedyFlagsSnoc(dets, gts, iouThreshold, f, tp, fp, t, 1 - t);
    MarksSnoc(amount, dets, gts, f, tp, t, amount');
  }

  /** The array holds the flags `s` in its first |s| cells. */
  ghost predicate Mirrors(a: array<int>, s: seq<int>)
    reads a
  {
    |s| <= a.Length && forall j :: 0 <= j < |s| ==> a[j] == s[j]
  }

  /** On an unknown format, none of the first `k` detections had a ground truth in its image. */
  ghost predicate NoFailureYet(dets: seq<Record>, k: nat, gts: seq<Record>, format: string)
    requires k <= |dets|
  {
    ParseFormat(format).Err? ==> forall j :: 0 <= j < k ==> InImage(gts, dets[j].image) == []
  }

  /** The decision of the matching loop for detection `k`: finds its best ground truth among those
      of its image; returns 1 (true positive) and marks that ground truth when the IoU is above the
      threshold and the ground truth is still unmatched, returns 0 (false positive) otherwise. */
  method MatchOne(dets: seq<Record>, k: nat, gts: seq<Record>, iouThreshold: real, format: string,
                  amount: map<int, seq<bool>>, ghost tpSeen: seq<int>, ghost fpSeen: seq<int>)
    returns (r: Result<int>, amount': map<int, seq<bool>>)
    requires iouThreshold >= 0.0 && |tpSeen| == k < |dets|
    requires MatchState(dets, gts, iouThreshold, FormatFor(format), tpSeen, fpSeen, amount)
    requires NoFailureYet(dets, k, gts, format)
    ensures r.Err? <==> ParseFormat(format).Err? && InImage(gts, dets[k].image) != []
    ensures r.Err? ==> r.error == UnknownBoxFormat && MatchingFails(dets, gts, format)
    ensures r.Ok? ==> MatchState(dets, gts, iouThreshold, FormatFor(format), tpSeen + [r.value], fpSeen + [1 - r.value], amount')
    ensures r.Ok? ==> NoFailureYet(dets, k + 1, gts, format)
  {
    var d := dets[k];
    amount' := amount;
    var best := BestGroundTruth(d, InImage(gts, d.image), format);
    if best.Err? {
      MatchingFailsAt(dets, gts, format, k);
      return Err(best.error), amount';
    }
    assert best.value == BestFor(d, gts, FormatFor(format));
    var positive;
    positive, amount' := Judge(dets, k, gts, iouThreshold, FormatFor(format), best.value, amount, tpSeen, fpSeen);
    r := Ok(positive);
  }

  /** The decision for detection `k` once its best ground truth is known. */
  method Judge(dets: seq<Record>, k: nat, gts: seq<Record>, iouThreshold: real, ghost f: BoxFormat, best: Best,
               amount: map<int, seq<bool>>, ghost tpSeen: seq<int>, ghost fpSeen: seq<int>)
    returns (positive: int, amount': map<int, seq<bool>>)
    requires iouThreshold >= 0.0 && |tpSeen| == k < |dets|
    requires MatchState(dets, gts, iouThreshold, f, tpSeen, fpSeen, amount)
    requires best == BestFor(dets[k], gts, f)
    ensures MatchState(dets, gts, iouThreshold, f, tpSeen + [positive], fpSeen + [1 - positive], amount')
  {
    if best.iou > iouThreshold {
      ImageOfGroundTruth(gts, dets[k].image);
    }
    positive, amount' := Claim(amount, dets[k].image, best, iouThreshold);
    MatchStep(dets, gts, iouThreshold, f, tpSeen, fpSeen, amount, positive, amount');
  }

  /** The test and update of mAP.py:50-57 for a detection of image `img` whose best ground truth
      is `best`: a true positive (1) when the IoU is above the threshold and that slot is still
      unmatched, which then becomes matched; a false positive (0) otherwise. */
  method Claim(amount: map<int, seq<bool>>, img: int, best: Best, iouThreshold: real)
    returns (positive: int, amount': map<int, seq<bool>>)
    requires best.iou > iouThreshold ==> img in amount && 0 <= best.idx < |amount[img]|
    ensures positive == 0 || positive == 1
    ensures positive == 1 <==>
      best.iou > iouThreshold && img in amount && 0 <= best.idx < |amount[img]| && !amount[img][best.idx]
    ensures if positive == 1 then amount' == amount[img := amount[img][best.idx := true]] else amount' == amount
  {
    positive, amount' := 0, amount;
    if best.iou > iouThreshold {
      if !amount[img][best.idx] {
        positive := 1;
        amount' := amount[img := amount[img][best.idx := true]];
      }
    }
  }

  /** A detection with ground truths in its image makes the matching fail on an unknown format. */
  lemma MatchingFailsAt(dets: seq<Record>, gts: seq<Record>, format: string, k: nat)
    requires k < |dets| && ParseFormat(format).Err? && InImage(gts, dets[k].image) != []
    ensures MatchingFails(dets, gts, format)
  {
    assert dets[k] in dets;
  }

  /** When no detection has ground truths in its image, the matching does not fail. */
  lemma MatchingSucceeds(dets: seq<Record>, gts: seq<Record>, format: string)
    requires NoFailureYet(dets, |dets|, gts, format)
    ensures !MatchingFails(dets, gts, format)
  {
    if ParseFormat(format).Err? {
      forall d | d in dets
        ensures InImage(gts, d.image) == []
      {
        var j :| 0 <= j < |dets| && dets[j] == d;
      }
    }
  }

  lemma MatchingDone(dets: seq<Record>, gts: seq<Record>, iouThreshold: real, f: BoxFormat,
                     tp: seq<int>, fp: seq<int>, amount: map<int, seq<bool>>)
    requires MatchState(dets, gts, iouThreshold, f, tp, fp, amount) && |tp| == |dets|
    ensures GreedyMatching(dets, gts, iouThreshold, f, Matching(tp, fp))
  {
  }

  /** Step 3 of mAP.py (lines 26-57) for one class: each detection, in order, is compared with the
      ground truths of its image; it is a true positive when its best IoU is above the threshold and
      that ground truth is still unmatched (which it then becomes), a false positive otherwise. */
  method MatchDetections(dets: seq<Record>, gts: seq<Record>, iouThreshold: real, format: string)
    returns (r: Result<Matching>)
    requires iouThreshold >= 0.0
    ensures r.Err? <==> MatchingFails(dets, gts, format)
    ensures r.Err? ==> r.error == UnknownBoxFormat
    ensures r.Ok? ==> GreedyMatching(dets, gts, iouThreshold, FormatFor(format), r.value)
  {
    var amount := Occupancy(gts);
    var tp := new int[|dets|](_ => 0);
    var fp := new int[|dets|](_ => 0);
    ghost var tpSeen, fpSeen := [], [];
    var k := 0;
    while k < |dets|
      invariant 0 <= k <= |dets| && |tpSeen| == |fpSeen| == k
      invariant Mirrors(tp, tpSeen) && Mirrors(fp, fpSeen)
      invariant MatchState(dets, gts, iouThreshold, FormatFor(format), tpSeen, fpSeen, amount)
      invariant NoFailureYet(dets, k, gts, format)
    {
      var positive;
      positive, amount := MatchOne(dets, k, gts, iouThreshold, format, amount, tpSeen, fpSeen);
      if positive.Err? {
        return Err(positive.error);
      }
      tp[k] := positive.value;
      fp[k] := 1 - positive.value;
      tpSeen, fpSeen := tpSeen + [positive.value], fpSeen + [1 - positive.value];
      k := k + 1;
    }
    MatchingSucceeds(dets, gts, format);
    MatchingDone(dets, gts, iouThreshold, FormatFor(format), tpSeen, fpSeen, amount);
    assert tp[..] == tpSeen && fp[..] == fpSeen;
    r := Ok(Matching(tp[..], fp[..]));
  }

  // ---------------------------------------------------------------------------------------------
  // Average precision of one class, and the mean over classes

  lemma {:induction false} SumOfZeros(s: seq<int>)
    requires forall k :: 0 <= k < |s| ==> s[k] == 0
    ensures Sum(s) == 0
    decreases |s|
  {
    if s != [] {
      SumOfZeros(s[..|s| - 1]);
    }
  }

  /** Detections none of which has a ground truth in its image are all false positives. */
  lemma NoTruePositives(dets: seq<Record>, gts: seq<Record>, iouThreshold: real, f: BoxFormat, m: Matching)
    requires iouThreshold >= 0.0 && GreedyMatching(dets, gts, iouThreshold, f, m)
    requires forall k :: 0 <= k < |dets| ==> InImage(gts, dets[k].image) == []
    ensures forall k :: 0 <= k < |m.tp| ==> m.tp[k] == 0
    ensures Sum(m.tp) == 0
  {
    forall k | 0 <= k < |m.tp|
      ensures m.tp[k] == 0
    {
      assert Ious(dets[k], InImage(gts, dets[k].image), f) == [];
      GreedyFlagAt(dets, gts, iouThreshold, f, m.tp, m.fp, k);
    }
    SumOfZeros(m.tp);
  }

  /** Steps 1 to 5 of mAP.py (lines 19-69) for class `c`: the class's detections by
      non-increasing score, matched greedily against the class's ground truths, and the area under the resulting precision/recall curve. */
  method ClassAveragePrecision(preds: seq<Record>, trues: seq<Record>, c: int, iouThreshold: real, format: string)
    returns (r: Result<real>, ghost m: Matching)
    requires iouThreshold >= 0.0
    ensures r.Err? <==> MatchingFails(ClassDetections(preds, c), OfClass(trues, c), format)
    ensures r.Err? ==> r.error == UnknownBoxFormat
    ensures r.Ok? ==>
      GreedyMatching(ClassDetections(preds, c), OfClass(trues, c), iouThreshold, FormatFor(format), m) &&
      r.value == ApOf(m.tp, m.fp, |OfClass(trues, c)|)
    ensures r.Ok? ==> 0.0 <= r.value < 1.0
    ensures r.Ok? && (OfClass(preds, c) == [] || OfClass(trues, c) == [] || ParseFormat(format).Err?) ==> r.value == 0.0
  {
    var detections := OfClass(preds, c);
    var groundTruths := OfClass(trues, c);
    detections := SortDesc(detections, Score);
    var matching := MatchDetections(detections, groundTruths, iouThreshold, format);
    if matching.Err? {
      return Err(matching.error), Matching([], []);
    }
    m := matching.value;
    TruePositivesBounded(detections, groundTruths, iouThreshold, FormatFor(format), m);
    ApBounds(m.tp, m.fp, |groundTruths|);
    if OfClass(preds, c) == [] {
      assert |detections| == |multiset(detections)| == 0;
      SumOfZeros(m.tp);
      ApWithoutTruePositives(m.tp, m.fp, |groundTruths|);
    } else if groundTruths == [] || ParseFormat(format).Err? {
      forall k | 0 <= k < |detections|
        ensures InImage(groundTruths, detections[k].image) == []
      {
        if groundTruths == [] {
          NoRecordsOfImage(groundTruths, detections[k].image);
        } else {
          assert detections[k] in detections;
        }
      }
      NoTruePositives(detections, groundTruths, iouThreshold, FormatFor(format), m);
      ApWithoutTruePositives(m.tp, m.fp, |groundTruths|);
    }
    r := Ok(ApOf(matching.value.tp, matching.value.fp, |groundTruths|));
  }

  /** The evaluation fails at class `c`. */
  ghost predicate ClassFails(preds: seq<Record>, trues: seq<Record>, c: int, format: string)
  {
    MatchingFails(ClassDetections(preds, c), OfClass(trues, c), format)
  }

  /** `aps` and `ms` hold, for each class `c` below their length, its average precision and the
      greedy matching it was computed from; none of these classes failed. */
  ghost predicate PerClass(preds: seq<Record>, trues: seq<Record>, iouThreshold: real, format: string,
                           aps: seq<real>, ms: seq<Matching>)
  {
    |aps| == |ms| &&
    forall c :: 0 <= c < |aps| ==> ClassResult(preds, trues, iouThreshold, format, c, aps[c], ms[c])
  }

  /** Class `c` did not fail, `m` is its greedy matching and `ap` the average precision computed
      from it, which lies in [0, 1). */
  ghost predicate ClassResult(preds: seq<Record>, trues: seq<Record>, iouThreshold: real, format: string,
                              c: int, ap: real, m: Matching)
  {
    !ClassFails(preds, trues, c, format) &&
    GreedyMatching(ClassDetections(preds, c), OfClass(trues, c), iouThreshold, FormatFor(format), m) &&
    ap == ApOf(m.tp, m.fp, |OfClass(trues, c)|) &&
    0.0 <= ap < 1.0
  }

  lemma PerClassSnoc(preds: seq<Record>, trues: seq<Record>, iouThreshold: real, format: string,
                     aps: seq<real>, ms: seq<Matching>, ap: real, m: Matching)
    requires PerClass(preds, trues, iouThreshold, format, aps, ms)
    requires ClassResult(preds, trues, iouThreshold, format, |aps|, ap, m)
    ensures PerClass(preds, trues, iouThreshold, format, aps + [ap], ms + [m])
  {
    var aps', ms' := aps + [ap], ms + [m];
    forall c | 0 <= c < |aps'|
      ensures ClassResult(preds, trues, iouThreshold, format, c, aps'[c], ms'[c])
    {
      if c < |aps| {
        assert aps'[c] == aps[c] && ms'[c] == ms[c];
      }
    }
  }

  lemma PerClassNoFailure(preds: seq<Record>, trues: seq<Record>, iouThreshold: real, format: string,
                          aps: seq<real>, ms: seq<Matching>)
    requires PerClass(preds, trues, iouThreshold, format, aps, ms)
    ensures forall c :: 0 <= c < |aps| ==> !ClassFails(preds, trues, c, format) && 0.0 <= aps[c] < 1.0
  {
    forall c | 0 <= c < |aps|
      ensures !ClassFails(preds, trues, c, format) && 0.0 <= aps[c] < 1.0
    {
      assert ClassResult(preds, trues, iouThreshold, format, c, aps[c], ms[c]);
    }
  }

  /** Step 6 of mAP.py (line 18) and the result (line 71): the average precision of every
      class `0 .. numClasses - 1`, and their mean. */
  method MeanAveragePrecision(preds: seq<Record>, trues: seq<Record>, iouThreshold: real, format: string, numClasses: int)
    returns (r: Result<real>, ghost aps: seq<real>, ghost ms: seq<Matching>)
    requires iouThreshold >= 0.0
    ensures r.Err? <==> numClasses <= 0 || exists c :: 0 <= c < numClasses && ClassFails(preds, trues, c, format)
    ensures numClasses <= 0 ==> r == Err(DivisionByZero)
    ensures numClasses > 0 && r.Err? ==> r.error == UnknownBoxFormat && ParseFormat(format).Err?
    ensures numClasses > 0 && ParseFormat(format).Ok? ==> r.Ok?
    ensures r.Ok? ==> |aps| == numClasses && PerClass(preds, trues, iouThreshold, format, aps, ms)
    ensures r.Ok? ==> r.value == Mean(aps) && 0.0 <= r.value < 1.0
  {
    var averagePrecisions: seq<real> := [];
    ms := [];
    var c := 0;
    while c < numClasses
      invariant 0 <= c && (c <= numClasses || c == 0)
      invariant |averagePrecisions| == c
      invariant PerClass(preds, trues, iouThreshold, format, averagePrecisions, ms)
    {
      var ap, m := ClassAveragePrecision(preds, trues, c, iouThreshold, format);
      if ap.Err? {
        assert ClassFails(preds, trues, c, format);
        return Err(ap.error), averagePrecisions, ms;
      }
      PerClassSnoc(preds, trues, iouThreshold, format, averagePrecisions, ms, ap.value, m);
      averagePrecisions := averagePrecisions + [ap.value];
      ms := ms + [m];
      c := c + 1;
    }
    aps := averagePrecisions;
    PerClassNoFailure(preds, trues, iouThreshold, format, aps, ms);
    if numClasses <= 0 {
      return Err(DivisionByZero), aps, ms;
    }
    MeanBounds(averagePrecisions);
    r := Ok(Mean(averagePrecisions));
  }

  /** The evaluation as the code stands: the precision step of the first class hands the two
      cumulative sums to a device constructor, which rejects them, and with no classes the final
      division asks for the length of the function object itself. Either way the call raises. */
  method MeanAveragePrecisionAsWritten(preds: seq<Record>, trues: seq<Record>, iouThreshold: real, format: string, numClasses: int)
    returns (r: Result<real>)
    requires iouThreshold >= 0.0
    ensures r.Err?
    ensures ParseFormat(format).Ok? || numClasses <= 0 ==> r == Err(TypeMismatch)
  {
    if numClasses > 0 {
      var matching := MatchDetections(ClassDetections(preds, 0), OfClass(trues, 0), iouThreshold, format);
      if matching.Err? {
        return Err(matching.error);
      }
      return Err(TypeMismatch);
    }
    r := Err(TypeMismatch);
  }
}
