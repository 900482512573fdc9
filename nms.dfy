/** Greedy non-maximum suppression (nms.py). */
module Nms {
  import opened Results
  import opened IoU
  import opened Lists

  /** One candidate `[class, prob, x1, y1, x2, y2]`. */
  datatype Candidate = Candidate(cls: int, score: real, box: Box)

  function Score(c: Candidate): real { c.score }

  function ScoreAbove(probThreshold: real): Candidate -> bool
  {
    (b: Candidate) => b.score > probThreshold
  }

  /** The boxes whose score is strictly above `probThreshold`: every occurrence, in input order. */
  function AboveThreshold(boxes: seq<Candidate>, probThreshold: real): (r: seq<Candidate>)
    ensures forall b :: b in r <==> b in boxes && b.score > probThreshold
    ensures forall b :: multiset(r)[b] == if b.score > probThreshold then multiset(boxes)[b] else 0
    ensures Subseq(r, boxes)
  {
    FilterCount(boxes, ScoreAbove(probThreshold));
    FilterKeepsOrder(boxes, ScoreAbove(probThreshold));
    Filter(boxes, ScoreAbove(probThreshold))
  }

  /** The candidates the loop starts from: the survivors of the score filter, by non-increasing score. */
  function Candidates(boxes: seq<Candidate>, probThreshold: real): seq<Candidate>
  {
    SortDesc(AboveThreshold(boxes, probThreshold), Score)
  }

  /** Whether keeping `chosen` removes `box` from the pool (format `f` already parsed). */
  predicate Suppresses(f: BoxFormat, chosen: Candidate, box: Candidate, iouThreshold: real)
  {
    box.cls == chosen.cls && IouOf(f, chosen.box, box.box) >= iouThreshold
  }

  function Spared(f: BoxFormat, chosen: Candidate, iouThreshold: real): Candidate -> bool
  {
    (b: Candidate) => !Suppresses(f, chosen, b, iouThreshold)
  }

  /** What the list comprehension of the loop keeps once `chosen` is kept: every box it does not
      suppress, every occurrence, in order. */
  function Survivors(f: BoxFormat, chosen: Candidate, pool: seq<Candidate>, iouThreshold: real): (r: seq<Candidate>)
    ensures |r| <= |pool|
  {
    Filter(pool, Spared(f, chosen, iouThreshold))
  }

  /** The survivors are every occurrence of the pooled boxes `chosen` does not suppress, in pool order. */
  lemma SurvivorsExact(f: BoxFormat, chosen: Candidate, pool: seq<Candidate>, iouThreshold: real)
    ensures forall b :: b in Survivors(f, chosen, pool, iouThreshold) <==> b in pool && !Suppresses(f, chosen, b, iouThreshold)
    ensures forall b :: multiset(Survivors(f, chosen, pool, iouThreshold))[b] ==
                        (if Suppresses(f, chosen, b, iouThreshold) then 0 else multiset(pool)[b])
    ensures Subseq(Survivors(f, chosen, pool, iouThreshold), pool)
  {
    FilterCount(pool, Spared(f, chosen, iouThreshold));
    FilterKeepsOrder(pool, Spared(f, chosen, iouThreshold));
  }

  /** The list comprehension of the loop body with the format still a string. The IoU is computed
      only for boxes of the chosen box's class, so an unknown format fails only if one is present. */
  function Remaining(chosen: Candidate, pool: seq<Candidate>, iouThreshold: real, format: string)
    : (r: Result<seq<Candidate>>)
    ensures r.Err? <==> ParseFormat(format).Err? && exists b :: b in pool && b.cls == chosen.cls
    ensures r.Err? ==> r.error == UnknownBoxFormat
    ensures ParseFormat(format).Ok? ==> r == Ok(Survivors(ParseFormat(format).value, chosen, pool, iouThreshold))
    ensures r.Ok? && ParseFormat(format).Err? ==> r.value == pool
    decreases |pool|
  {
    if pool == [] then Ok([])
    else
      var box := pool[0];
      assert pool == [box] + pool[1..];
      var rest := Remaining(chosen, pool[1..], iouThreshold, format);
      if box.cls != chosen.cls then
        if rest.Err? then rest else Ok([box] + rest.value)
      else
        match IntersectOverUnion(chosen.box, box.box, format)
        case Err(e) => Err(e)
        case Ok(iou) =>
          if rest.Err? then rest
          else if iou < iouThreshold then Ok([box] + rest.value)
          else Ok(rest.value)
  }

  /** The reference for the loop: keep the head of the pool, filter the rest against it, repeat. */
  function Greedy(f: BoxFormat, pool: seq<Candidate>, iouThreshold: real): seq<Candidate>
    decreases |pool|
  {
    if pool == [] then []
    else [pool[0]] + Greedy(f, Survivors(f, pool[0], pool[1..], iouThreshold), iouThreshold)
  }

  /** Two candidates of the same class, at different positions. */
  predicate SharesClass(s: seq<Candidate>)
  {
    exists i, j :: 0 <= i < j < |s| && s[i].cls == s[j].cls
  }

  /** The candidates before position `n` have no other candidate of their class after them. */
  ghost predicate DistinctClassesBefore(s: seq<Candidate>, n: nat)
  {
    forall i, j :: 0 <= i < n && i < j < |s| ==> s[i].cls != s[j].cls
  }

  /** The `while bboxes:` loop of `nms`: pops the head of the pool into the output and filters the
      rest of the pool against it, until the pool is empty. */
  method KeepGreedily(sorted: seq<Candidate>, iouThreshold: real, format: string)
    returns (r: Result<seq<Candidate>>)
    ensures r.Err? <==> ParseFormat(format).Err? && SharesClass(sorted)
    ensures r.Err? ==> r.error == UnknownBoxFormat
    ensures ParseFormat(format).Ok? ==> r == Ok(Greedy(ParseFormat(format).value, sorted, iouThreshold))
    ensures r.Ok? && ParseFormat(format).Err? ==> r.value == sorted
  {
    var pool := sorted;
    var kept: seq<Candidate> := [];
    while pool != []
      invariant ParseFormat(format).Ok? ==>
        kept + Greedy(ParseFormat(format).value, pool, iouThreshold) == Greedy(ParseFormat(format).value, sorted, iouThreshold)
      invariant ParseFormat(format).Err? ==> kept + pool == sorted && DistinctClassesBefore(sorted, |kept|)
      decreases |pool|
    {
      var chosen := pool[0];
      var rest := Remaining(chosen, pool[1..], iouThreshold, format);
      if rest.Err? {
        SharedClassFound(sorted, kept, pool);
        return Err(rest.error);
      }
      if ParseFormat(format).Ok? {
        GreedyStep(ParseFormat(format).value, sorted, kept, pool, iouThreshold);
      } else {
        DistinctClassStep(sorted, kept, pool);
      }
      pool := rest.value;
      kept := kept + [chosen];
    }
    if ParseFormat(format).Err? {
      assert kept == sorted;
    } else {
      assert kept + Greedy(ParseFormat(format).value, pool, iouThreshold) == kept;
    }
    r := Ok(kept);
  }

  lemma GreedyStep(f: BoxFormat, sorted: seq<Candidate>, kept: seq<Candidate>, pool: seq<Candidate>, iouThreshold: real)
    requires pool != [] && kept + Greedy(f, pool, iouThreshold) == Greedy(f, sorted, iouThreshold)
    ensures kept + [pool[0]] + Greedy(f, Survivors(f, pool[0], pool[1..], iouThreshold), iouThreshold)
         == Greedy(f, sorted, iouThreshold)
  {
    var g := Greedy(f, Survivors(f, pool[0], pool[1..], iouThreshold), iouThreshold);
    assert Greedy(f, pool, iouThreshold) == [pool[0]] + g;
    assert kept + [pool[0]] + g == kept + ([pool[0]] + g);
  }

  /** A same-class box behind the head of the pool is a same-class pair of the candidates. */
  lemma SharedClassFound(sorted: seq<Candidate>, kept: seq<Candidate>, pool: seq<Candidate>)
    requires pool != [] && kept + pool == sorted
    requires exists b :: b in pool[1..] && b.cls == pool[0].cls
    ensures SharesClass(sorted)
  {
    var b :| b in pool[1..] && b.cls == pool[0].cls;
    var m :| 0 <= m < |pool[1..]| && pool[1..][m] == b;
    assert sorted[|kept|] == pool[0] && sorted[|kept| + 1 + m] == b;
  }

  /** With no same-class box behind the head of the pool, the head has no later box of its class. */
  lemma DistinctClassStep(sorted: seq<Candidate>, kept: seq<Candidate>, pool: seq<Candidate>)
    requires pool != [] && kept + pool == sorted && DistinctClassesBefore(sorted, |kept|)
    requires !exists b :: b in pool[1..] && b.cls == pool[0].cls
    ensures kept + [pool[0]] + pool[1..] == sorted && DistinctClassesBefore(sorted, |kept| + 1)
  {
    assert kept + [pool[0]] + pool[1..] == kept + pool;
    forall i, j | 0 <= i < |kept| + 1 && i < j < |sorted|
      ensures sorted[i].cls != sorted[j].cls
    {
      if i == |kept| {
        assert sorted[j] == pool[1..][j - |kept| - 1];
      }
    }
  }

  /** `nms(bboxes, iou_threshold, prob_threshold, box_format)`. */
  method NonMaxSuppression(bboxes: seq<Candidate>, iouThreshold: real, probThreshold: real, format: string)
    returns (r: Result<seq<Candidate>>)
    ensures r.Err? <==> ParseFormat(format).Err? && SharesClass(Candidates(bboxes, probThreshold))
    ensures r.Err? ==> r.error == UnknownBoxFormat
    ensures ParseFormat(format).Ok? ==>
      r == Ok(Greedy(ParseFormat(format).value, Candidates(bboxes, probThreshold), iouThreshold))
    ensures r.Ok? && ParseFormat(format).Err? ==> r.value == Candidates(bboxes, probThreshold)
    ensures r.Ok? ==> forall b :: b in r.value ==> b in bboxes && b.score > probThreshold
    ensures r.Ok? ==> SortedDesc(r.value, Score)
    ensures r.Ok? && AboveThreshold(bboxes, probThreshold) != [] ==>
      r.value != [] && forall b :: b in AboveThreshold(bboxes, probThreshold) ==> b.score <= r.value[0].score
    ensures r.Ok? && ParseFormat(format).Ok? ==> NoSameClassOverlap(ParseFormat(format).value, r.value, iouThreshold)
  {
    var candidates := AboveThreshold(bboxes, probThreshold);
    var sorted := SortDesc(candidates, Score);
    r := KeepGreedily(sorted, iouThreshold, format);
    if r.Ok? {
      if ParseFormat(format).Ok? {
        GreedyShape(ParseFormat(format).value, sorted, iouThreshold);
      } else {
        SubseqRefl(sorted);
      }
      KeptIsOrderedSublist(bboxes, probThreshold, r.value);
    }
  }

  /** What the final kept list inherits from being a sub-list of the sorted candidates that
      starts with the first of them. */
  lemma KeptIsOrderedSublist(bboxes: seq<Candidate>, probThreshold: real, kept: seq<Candidate>)
    requires Subseq(kept, Candidates(bboxes, probThreshold))
    requires Candidates(bboxes, probThreshold) != [] ==>
      kept != [] && kept[0] == Candidates(bboxes, probThreshold)[0]
    ensures forall b :: b in kept ==> b in bboxes && b.score > probThreshold
    ensures SortedDesc(kept, Score)
    ensures AboveThreshold(bboxes, probThreshold) != [] ==>
      kept != [] && forall b :: b in AboveThreshold(bboxes, probThreshold) ==> b.score <= kept[0].score
  {
    var candidates := AboveThreshold(bboxes, probThreshold);
    var sorted := SortDesc(candidates, Score);
    SubseqMembers(kept, sorted);
    SubseqSorted(kept, sorted, Score);
    SortDescMembers(candidates, Score);
    if candidates != [] {
      assert multiset(sorted) == multiset(candidates);
      assert sorted != [];
      SortedHead(sorted, Score);
    }
  }

  // ---------------------------------------------------------------------------------------------
  // What the greedy result is

  /** No two kept boxes of the same class overlap by the threshold or more (the earlier one is
      the first argument of the IoU, as in the source). */
  ghost predicate NoSameClassOverlap(f: BoxFormat, kept: seq<Candidate>, iouThreshold: real)
  {
    forall i, j :: 0 <= i < j < |kept| && kept[i].cls == kept[j].cls ==>
      IouOf(f, kept[i].box, kept[j].box) < iouThreshold
  }

  /** The greedy result is an ordered sub-list of the pool that starts with its first box, and no
      two boxes of one class in it overlap by the threshold or more. */
  lemma {:induction false} GreedyShape(f: BoxFormat, pool: seq<Candidate>, iouThreshold: real)
    ensures Subseq(Greedy(f, pool, iouThreshold), pool)
    ensures pool != [] ==> Greedy(f, pool, iouThreshold) != [] && Greedy(f, pool, iouThreshold)[0] == pool[0]
    ensures NoSameClassOverlap(f, Greedy(f, pool, iouThreshold), iouThreshold)
    decreases |pool|
  {
    if pool != [] {
      var h := pool[0];
      var s := Survivors(f, h, pool[1..], iouThreshold);
      var g := Greedy(f, s, iouThreshold);
      var r := [h] + g;
      assert Greedy(f, pool, iouThreshold) == r;
      GreedyShape(f, s, iouThreshold);
      FilterKeepsOrder(pool[1..], Spared(f, h, iouThreshold));
      SubseqTrans(g, s, pool[1..]);
      assert r[1..] == g;
      SubseqMembers(g, s);
      forall i, j | 0 <= i < j < |r| && r[i].cls == r[j].cls
        ensures IouOf(f, r[i].box, r[j].box) < iouThreshold
      {
        if i == 0 {
          assert r[j] == g[j - 1] && g[j - 1] in s;
        } else {
          assert r[i] == g[i - 1] && r[j] == g[j - 1];
        }
      }
    }
  }

  /** Some box of `kept` suppresses `b`. */
  predicate SuppressedByAny(f: BoxFormat, kept: seq<Candidate>, b: Candidate, iouThreshold: real)
  {
    exists k :: k in kept && Suppresses(f, k, b, iouThreshold)
  }

  function SparedByAll(f: BoxFormat, kept: seq<Candidate>, iouThreshold: real): Candidate -> bool
  {
    (b: Candidate) => !SuppressedByAny(f, kept, b, iouThreshold)
  }

  /** The keep flags of the candidates `t` scanned in order, after the boxes `kept` were kept:
      a candidate is kept when no box kept before it suppresses it. */
  ghost function KeepFlags(f: BoxFormat, kept: seq<Candidate>, t: seq<Candidate>, iouThreshold: real): (m: seq<bool>)
    ensures |m| == |t|
    decreases |t|
  {
    if t == [] then []
    else if SuppressedByAny(f, kept, t[0], iouThreshold) then [false] + KeepFlags(f, kept, t[1..], iouThreshold)
    else [true] + KeepFlags(f, kept + [t[0]], t[1..], iouThreshold)
  }

  /** `keep` marks the candidates greedy suppression keeps, by position: candidate i is kept
      exactly when no kept candidate before it suppresses it. */
  ghost predicate GreedyKeep(f: BoxFormat, s: seq<Candidate>, iouThreshold: real, keep: seq<bool>)
  {
    |keep| == |s| &&
    forall i :: 0 <= i < |s| ==>
      (keep[i] <==> !exists j :: 0 <= j < i && keep[j] && Suppresses(f, s[j], s[i], iouThreshold))
  }

  /** The loop's result, characterised by position: it is the sub-list of the sorted candidates
      at the positions a keep mask marks, and the mask keeps a candidate exactly when no earlier
      kept candidate of its class overlaps it by the threshold or more. So every candidate left
      out was removed by an EARLIER kept box. */
  lemma GreedyIsPositional(f: BoxFormat, s: seq<Candidate>, iouThreshold: real)
    ensures GreedyKeep(f, s, iouThreshold, KeepFlags(f, [], s, iouThreshold))
    ensures Greedy(f, s, iouThreshold) == Select(s, KeepFlags(f, [], s, iouThreshold))
  {
    FilterAll(s, SparedByAll(f, [], iouThreshold));
    GreedySelects(f, [], s, iouThreshold);
    KeepFlagsCharacterised(f, [], s, iouThreshold);
    var m := KeepFlags(f, [], s, iouThreshold);
    forall i | 0 <= i < |s|
      ensures m[i] <==> !exists j :: 0 <= j < i && m[j] && Suppresses(f, s[j], s[i], iouThreshold)
    {
      assert !SuppressedByAny(f, [], s[i], iouThreshold);
    }
  }

  /** The positional characterisation fixes the keep mask, and with it the output. */
  lemma GreedyKeepUnique(f: BoxFormat, s: seq<Candidate>, iouThreshold: real, keep1: seq<bool>, keep2: seq<bool>)
    requires GreedyKeep(f, s, iouThreshold, keep1) && GreedyKeep(f, s, iouThreshold, keep2)
    ensures keep1 == keep2
  {
    KeepPrefixAgrees(f, s, iouThreshold, keep1, keep2, |s|);
  }

  lemma {:induction false} KeepPrefixAgrees(f: BoxFormat, s: seq<Candidate>, iouThreshold: real,
                                            keep1: seq<bool>, keep2: seq<bool>, n: nat)
    requires GreedyKeep(f, s, iouThreshold, keep1) && GreedyKeep(f, s, iouThreshold, keep2) && n <= |s|
    ensures forall i :: 0 <= i < n ==> keep1[i] == keep2[i]
    decreases n
  {
    if n > 0 {
      KeepPrefixAgrees(f, s, iouThreshold, keep1, keep2, n - 1);
      var i := n - 1;
      assert keep1[i] <==> !exists j :: 0 <= j < i && keep1[j] && Suppresses(f, s[j], s[i], iouThreshold);
      assert keep2[i] <==> !exists j :: 0 <= j < i && keep2[j] && Suppresses(f, s[j], s[i], iouThreshold);
    }
  }

  lemma SuppressedByAnySnoc(f: BoxFormat, kept: seq<Candidate>, h: Candidate, b: Candidate, iouThreshold: real)
    ensures SuppressedByAny(f, kept + [h], b, iouThreshold) <==>
      SuppressedByAny(f, kept, b, iouThreshold) || Suppresses(f, h, b, iouThreshold)
  {
    if Suppresses(f, h, b, iouThreshold) {
      assert h in kept + [h];
    }
    if SuppressedByAny(f, kept, b, iouThreshold) {
      var k :| k in kept && Suppresses(f, k, b, iouThreshold);
      assert k in kept + [h];
    }
  }

  /** Filtering against the kept boxes and then against one more is filtering against all of them. */
  lemma {:induction false} FilterSpared(f: BoxFormat, kept: seq<Candidate>, h: Candidate, u: seq<Candidate>, iouThreshold: real)
    ensures Filter(Filter(u, SparedByAll(f, kept, iouThreshold)), Spared(f, h, iouThreshold))
         == Filter(u, SparedByAll(f, kept + [h], iouThreshold))
    decreases |u|
  {
    if u != [] {
      FilterSpared(f, kept, h, u[1..], iouThreshold);
      SuppressedByAnySnoc(f, kept, h, u[0], iouThreshold);
      var inner := Filter(u, SparedByAll(f, kept, iouThreshold));
      if !SuppressedByAny(f, kept, u[0], iouThreshold) {
        assert inner == [u[0]] + Filter(u[1..], SparedByAll(f, kept, iouThreshold));
        assert inner[1..] == Filter(u[1..], SparedByAll(f, kept, iouThreshold));
      }
    }
  }

  /** The greedy loop run on what the kept boxes spare of `t` keeps exactly the flagged boxes of `t`. */
  lemma {:induction false} GreedySelects(f: BoxFormat, kept: seq<Candidate>, t: seq<Candidate>, iouThreshold: real)
    ensures Greedy(f, Filter(t, SparedByAll(f, kept, iouThreshold)), iouThreshold)
         == Select(t, KeepFlags(f, kept, t, iouThreshold))
    decreases |t|
  {
    if t != [] {
      var m := KeepFlags(f, kept, t, iouThreshold);
      if SuppressedByAny(f, kept, t[0], iouThreshold) {
        GreedySelects(f, kept, t[1..], iouThreshold);
        assert m[1..] == KeepFlags(f, kept, t[1..], iouThreshold);
      } else {
        var kept' := kept + [t[0]];
        GreedySelects(f, kept', t[1..], iouThreshold);
        assert m[1..] == KeepFlags(f, kept', t[1..], iouThreshold);
        var pool := Filter(t, SparedByAll(f, kept, iouThreshold));
        var tail := Filter(t[1..], SparedByAll(f, kept, iouThreshold));
        assert pool == [t[0]] + tail;
        assert pool[0] == t[0] && pool[1..] == tail;
        FilterSpared(f, kept, t[0], t[1..], iouThreshold);
        assert Survivors(f, t[0], tail, iouThreshold) == Filter(t[1..], SparedByAll(f, kept', iouThreshold));
      }
    }
  }

  /** The flags computed by the scan are the positional greedy condition, relative to the boxes
      `kept` before the scan. */
  lemma {:induction false} KeepFlagsCharacterised(f: BoxFormat, kept: seq<Candidate>, t: seq<Candidate>, iouThreshold: real)
    ensures var m := KeepFlags(f, kept, t, iouThreshold);
      forall i :: 0 <= i < |t| ==>
        (m[i] <==> !SuppressedByAny(f, kept, t[i], iouThreshold) &&
                   !exists j :: 0 <= j < i && m[j] && Suppresses(f, t[j], t[i], iouThreshold))
    decreases |t|
  {
    if t != [] {
      var m := KeepFlags(f, kept, t, iouThreshold);
      var kept' := if m[0] then kept + [t[0]] else kept;
      var m' := KeepFlags(f, kept', t[1..], iouThreshold);
      assert m == [m[0]] + m';
      KeepFlagsCharacterised(f, kept', t[1..], iouThreshold);
      forall i | 0 < i < |t|
        ensures m[i] <==> !SuppressedByAny(f, kept, t[i], iouThreshold) &&
                          !exists j :: 0 <= j < i && m[j] && Suppresses(f, t[j], t[i], iouThreshold)
      {
        ShiftedCharacterisation(f, kept, t, iouThreshold, m, m', i);
      }
    }
  }

  /** The inductive step of KeepFlagsCharacterised at one position `i > 0`. */
  lemma ShiftedCharacterisation(f: BoxFormat, kept: seq<Candidate>, t: seq<Candidate>, iouThreshold: real,
                                m: seq<bool>, m': seq<bool>, i: nat)
    requires 0 < i < |t| && |m| == |t| && m == [m[0]] + m'
    requires m[0] <==> !SuppressedByAny(f, kept, t[0], iouThreshold)
    requires var kept' := if m[0] then kept + [t[0]] else kept;
      m'[i - 1] <==> !SuppressedByAny(f, kept', t[i], iouThreshold) &&
                     !exists j :: 0 <= j < i - 1 && m'[j] && Suppresses(f, t[1..][j], t[i], iouThreshold)
    ensures m[i] <==> !SuppressedByAny(f, kept, t[i], iouThreshold) &&
                      !exists j :: 0 <= j < i && m[j] && Suppresses(f, t[j], t[i], iouThreshold)
  {
    SuppressedByAnySnoc(f, kept, t[0], t[i], iouThreshold);
    assert m[i] == m'[i - 1];
    EarlierFromShifted(f, t, iouThreshold, m, m', i);
    ShiftedFromEarlier(f, t, iouThreshold, m, m', i);
  }

  lemma EarlierFromShifted(f: BoxFormat, t: seq<Candidate>, iouThreshold: real, m: seq<bool>, m': seq<bool>, i: nat)
    requires 0 < i < |t| && |m| == |t| && m == [m[0]] + m'
    ensures (exists j :: 0 <= j < i - 1 && m'[j] && Suppresses(f, t[1..][j], t[i], iouThreshold)) ==>
            exists j :: 0 <= j < i && m[j] && Suppresses(f, t[j], t[i], iouThreshold)
  {
    if exists j :: 0 <= j < i - 1 && m'[j] && Suppresses(f, t[1..][j], t[i], iouThreshold) {
      var j :| 0 <= j < i - 1 && m'[j] && Suppresses(f, t[1..][j], t[i], iouThreshold);
      assert m[j + 1] && t[j + 1] == t[1..][j];
    }
  }

  lemma ShiftedFromEarlier(f: BoxFormat, t: seq<Candidate>, iouThreshold: real, m: seq<bool>, m': seq<bool>, i: nat)
    requires 0 < i < |t| && |m| == |t| && m == [m[0]] + m'
    ensures (exists j :: 0 <= j < i && m[j] && Suppresses(f, t[j], t[i], iouThreshold)) ==>
            (m[0] && Suppresses(f, t[0], t[i], iouThreshold)) ||
            exists j :: 0 <= j < i - 1 && m'[j] && Suppresses(f, t[1..][j], t[i], iouThreshold)
  {
    if exists j :: 0 <= j < i && m[j] && Suppresses(f, t[j], t[i], iouThreshold) {
      var j :| 0 <= j < i && m[j] && Suppresses(f, t[j], t[i], iouThreshold);
      if j > 0 {
        assert m'[j - 1] && t[1..][j - 1] == t[j];
      }
    }
  }
}
