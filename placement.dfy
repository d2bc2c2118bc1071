/** `place_syllable_visemes` of main.py, as a specification: where the
    visemes of one syllable (or of one whole English word) land, given the
    syllable's time window and the cursor `current_frame`. */
module Placement {
  import opened Utils

  /** `min_hold_frames`: the fewest frames a viseme is held before the next. */
  const MinHoldFrames: int := 3

  /** `VOWEL_VISEMES`. */
  const VowelVisemes: set<string> := {"aa", "E", "ih", "oh", "ou"}

  /** `get_viseme_weight`: a vowel counts twice as long as anything else. */
  function Weight(v: string): real
  {
    if v in VowelVisemes then 2.0 else 1.0
  }

  /** One call of `add_to_output`: a viseme put at a frame. */
  datatype Event = Event(frame: int, viseme: string)

  /** What placing something produces: the events, in call order, and the
      new value of the cursor. */
  datatype Placement = Placement(events: seq<Event>, cursor: int)

  // ---------------------------------------------------------------------
  // pick_primary_vowel
  // ---------------------------------------------------------------------

  /** No vowel viseme occurs in `vs` before index `i`. */
  ghost predicate NoVowelBefore(vs: seq<string>, i: int)
    requires 0 <= i <= |vs|
  {
    forall j | 0 <= j < i :: vs[j] !in VowelVisemes
  }

  /** `v` is the viseme shown when only one fits: the first vowel of `vs`,
      or the first viseme when there is no vowel. */
  ghost predicate IsPrimaryVowel(vs: seq<string>, v: string)
  {
    exists i | 0 <= i < |vs| ::
      vs[i] == v && NoVowelBefore(vs, i) && (v in VowelVisemes || (i == 0 && NoVowelBefore(vs, |vs|)))
  }

  /** The first vowel of `vs` from index `i` on, or `fallback` if none. */
  function FirstVowelOr(vs: seq<string>, i: nat, fallback: string): (v: string)
    requires i <= |vs|
    ensures NoVowelBefore(vs, i) ==>
      if NoVowelBefore(vs, |vs|) then v == fallback
      else exists k | i <= k < |vs| :: vs[k] == v && v in VowelVisemes && NoVowelBefore(vs, k)
    decreases |vs| - i
  {
    if i == |vs| then fallback
    else if vs[i] in VowelVisemes then vs[i]
    else FirstVowelOr(vs, i + 1, fallback)
  }

  /** `pick_primary_vowel`: the first vowel, else the first viseme, else the
      silence `sli` for an empty list. */
  function PrimaryVowel(vs: seq<string>): (v: string)
    ensures vs == [] ==> v == "sli"
    ensures vs != [] ==> IsPrimaryVowel(vs, v) && v in vs
  {
    if vs == [] then "sli"
    else
      var v := FirstVowelOr(vs, 0, vs[0]);
      assert NoVowelBefore(vs, 0);
      assert v == vs[0] ==> vs[0] in VowelVisemes || NoVowelBefore(vs, |vs|);
      v
  }

  // ---------------------------------------------------------------------
  // Weights and time shares
  // ---------------------------------------------------------------------

  /** The weight of the first `j` visemes. */
  function PrefixWeight(vs: seq<string>, j: nat): real
    requires j <= |vs|
  {
    if j == 0 then 0.0 else PrefixWeight(vs, j - 1) + Weight(vs[j - 1])
  }

  /** `total_weight`. */
  function TotalWeight(vs: seq<string>): real
  {
    PrefixWeight(vs, |vs|)
  }

  /** Each viseme weighs 1 or 2, so `j` of them weigh between `j` and `2j`. */
  lemma {:induction false} PrefixWeightBounds(vs: seq<string>, j: nat)
    requires j <= |vs|
    ensures j as real <= PrefixWeight(vs, j) <= 2.0 * j as real
  {
    if j > 0 {
      PrefixWeightBounds(vs, j - 1);
    }
  }

  /** The time share `weight / total * duration` of `main.py:219`. */
  function Share(weight: real, total: real, duration: real): real
    requires total != 0.0
  {
    (weight / total) * duration
  }

  /** Shares add up like their weights. */
  lemma ShareAdd(a: real, b: real, total: real, duration: real)
    requires total != 0.0
    ensures Share(a, total, duration) + Share(b, total, duration) == Share(a + b, total, duration)
  {
    assert a / total + b / total == (a + b) / total;
  }

  // ---------------------------------------------------------------------
  // place_syllable_visemes
  // ---------------------------------------------------------------------

  /** The fixed data of one weighted placement: the syllable's start time,
      its duration, the total weight, `effective_start` and the syllable's
      end frame. */
  datatype Window = Window(start: real, duration: real, total: real, effectiveStart: int, endFrame: int)

  /** `place_syllable_visemes(vs, sylStart, sylEnd, cur)`. */
  function PlaceSyllable(vs: seq<string>, sylStart: real, sylEnd: real, cur: int, fps: int): Placement
  {
    if vs == [] then Placement([], cur)
    else
      var startFrame := CalcFrame(sylStart, fps);
      var endFrame := CalcFrame(sylEnd, fps);
      var effectiveStart := Max(cur, startFrame);
      if endFrame - effectiveStart < MinHoldFrames then
        Placement([Event(effectiveStart, PrimaryVowel(vs))], effectiveStart)
      else
        var duration := sylEnd - sylStart;
        if duration <= 0.0 then Placement([], cur)
        else
          var total := if TotalWeight(vs) == 0.0 then |vs| as real else TotalWeight(vs);
          Planned(vs, 0, Window(sylStart, duration, total, effectiveStart, endFrame), effectiveStart, fps)
  }

  // ---------------------------------------------------------------------
  // What a placement looks like
  // ---------------------------------------------------------------------

  /** The frame the `j`-th viseme asks for, given the frame `prev` of the one
      placed before it: its weighted start time, but never before
      `effective_start` (the first) or within the hold of `prev` (the
      others). */
  function Candidate(vs: seq<string>, j: nat, w: Window, prev: int, fps: int): int
    requires j <= |vs| && w.total != 0.0
  {
    var wanted := CalcFrame(w.start + Share(PrefixWeight(vs, j), w.total, w.duration), fps);
    if j == 0 then Max(wanted, w.effectiveStart) else Max(wanted, prev + MinHoldFrames)
  }

  /** The placement of `vs[i..]` in closed form: each viseme goes to its
      candidate frame, and the first candidate past the end frame stops the
      syllable. */
  function Planned(vs: seq<string>, i: nat, w: Window, prev: int, fps: int): Placement
    requires i <= |vs| && w.total != 0.0
    decreases |vs| - i
  {
    if i == |vs| then Placement([], prev)
    else
      var f := Candidate(vs, i, w, prev, fps);
      if f > w.endFrame then Placement([], prev)
      else
        var rest := Planned(vs, i + 1, w, f, fps);
        Placement([Event(f, vs[i])] + rest.events, rest.cursor)
  }

  /** The shape of a closed-form placement: a prefix of `vs[i..]`, each
      viseme at least the hold after the previous frame `prev` and no later
      than the end frame; the cursor ends on the last frame placed. */
  lemma {:induction false} PlannedShape(vs: seq<string>, i: nat, w: Window, prev: int, fps: int)
    requires i <= |vs| && w.total != 0.0
    ensures var r := Planned(vs, i, w, prev, fps);
      && |r.events| <= |vs| - i
      && (forall j | 0 <= j < |r.events| :: r.events[j].viseme == vs[i + j])
      && (forall j | 0 <= j < |r.events| :: r.events[j].frame <= w.endFrame)
      && (forall j | 0 < j < |r.events| :: r.events[j].frame >= r.events[j - 1].frame + MinHoldFrames)
      && (i > 0 && r.events != [] ==> r.events[0].frame >= prev + MinHoldFrames)
      && r.cursor == (if r.events == [] then prev else r.events[|r.events| - 1].frame)
    decreases |vs| - i
  {
    if i < |vs| {
      var f := Candidate(vs, i, w, prev, fps);
      if f <= w.endFrame {
        PlannedShape(vs, i + 1, w, f, fps);
        var rest := Planned(vs, i + 1, w, f, fps);
        var r := Planned(vs, i, w, prev, fps);
        assert r.events == [Event(f, vs[i])] + rest.events;
        forall j | 0 < j < |r.events|
          ensures r.events[j] == rest.events[j - 1]
        {
        }
      }
    }
  }

  /** A closed-form placement stops only at a candidate past the end frame,
      or at the end of the list. */
  lemma {:induction false} PlannedStops(vs: seq<string>, i: nat, w: Window, prev: int, fps: int)
    requires i <= |vs| && w.total != 0.0
    ensures var r := Planned(vs, i, w, prev, fps);
      |r.events| < |vs| - i ==> Candidate(vs, i + |r.events|, w, r.cursor, fps) > w.endFrame
    decreases |vs| - i
  {
    if i < |vs| {
      var f := Candidate(vs, i, w, prev, fps);
      if f <= w.endFrame {
        PlannedStops(vs, i + 1, w, f, fps);
      }
    }
  }

  /** Each placed viseme sits exactly at the candidate frame computed from
      the frame placed just before it. */
  lemma {:induction false} PlannedFrames(vs: seq<string>, i: nat, w: Window, prev: int, fps: int)
    requires i <= |vs| && w.total != 0.0
    ensures var r := Planned(vs, i, w, prev, fps);
      && |r.events| <= |vs| - i
      && (r.events != [] ==> r.events[0].frame == Candidate(vs, i, w, prev, fps))
      && (forall j | 0 < j < |r.events| :: r.events[j].frame == Candidate(vs, i + j, w, r.events[j - 1].frame, fps))
    decreases |vs| - i
  {
    if i < |vs| {
      var f := Candidate(vs, i, w, prev, fps);
      if f <= w.endFrame {
        PlannedFrames(vs, i + 1, w, f, fps);
        var rest := Planned(vs, i + 1, w, f, fps);
        var r := Planned(vs, i, w, prev, fps);
        assert r.events == [Event(f, vs[i])] + rest.events;
        forall j | 0 < j < |r.events|
          ensures r.events[j] == rest.events[j - 1]
        {
        }
        if |rest.events| > 0 {
          assert r.events[1] == rest.events[0];
        }
      }
    }
  }

  // ---------------------------------------------------------------------
  // What place_syllable_visemes promises
  // ---------------------------------------------------------------------

  /** A window too narrow to hold two visemes shows exactly one, the primary
      vowel, at `effective_start`, and moves the cursor there; an empty list
      places nothing. */
  lemma NarrowWindow(vs: seq<string>, sylStart: real, sylEnd: real, cur: int, fps: int)
    ensures vs == [] ==> PlaceSyllable(vs, sylStart, sylEnd, cur, fps) == Placement([], cur)
    ensures var eff := Max(cur, CalcFrame(sylStart, fps));
      vs != [] && CalcFrame(sylEnd, fps) - eff < MinHoldFrames ==>
        var r := PlaceSyllable(vs, sylStart, sylEnd, cur, fps);
        && |r.events| == 1 && r.events[0].frame == eff && r.cursor == eff
        && IsPrimaryVowel(vs, r.events[0].viseme)
  {
  }

  /** In a window with room for more than one viseme, the syllable really
      lasts: its end comes after its start. */
  lemma WideWindowHasDuration(vs: seq<string>, sylStart: real, sylEnd: real, cur: int, fps: int)
    requires fps >= 0
    requires CalcFrame(sylEnd, fps) - Max(cur, CalcFrame(sylStart, fps)) >= MinHoldFrames
    ensures sylEnd - sylStart > 0.0
  {
    LaterFrameMeansLaterTime(sylStart, sylEnd, fps);
  }

  /** A non-empty list weighs at least its length, so the fallback for a
      zero total weight is never taken. */
  lemma TotalWeightPositive(vs: seq<string>)
    ensures TotalWeight(vs) >= |vs| as real
    ensures vs != [] ==> TotalWeight(vs) != 0.0
  {
    PrefixWeightBounds(vs, |vs|);
  }

  /** A non-empty list always has a primary viseme of its own: the `sli`
      answer of `pick_primary_vowel` is only for the empty list. */
  lemma PrimaryVowelNeverSilence(vs: seq<string>)
    requires vs != [] && "sli" !in vs
    ensures PrimaryVowel(vs) != "sli"
  {
  }

  /** The window of a wide placement. */
  function WideWindow(vs: seq<string>, sylStart: real, sylEnd: real, cur: int, fps: int): Window
  {
    Window(sylStart, sylEnd - sylStart, TotalWeight(vs), Max(cur, CalcFrame(sylStart, fps)), CalcFrame(sylEnd, fps))
  }

  /** In a wide window the syllable goes through the weighted placement,
      with the true total weight. */
  lemma WideIsPlanned(vs: seq<string>, sylStart: real, sylEnd: real, cur: int, fps: int)
    requires fps >= 0 && vs != []
    requires CalcFrame(sylEnd, fps) - Max(cur, CalcFrame(sylStart, fps)) >= MinHoldFrames
    ensures TotalWeight(vs) != 0.0
    ensures var w := WideWindow(vs, sylStart, sylEnd, cur, fps);
      PlaceSyllable(vs, sylStart, sylEnd, cur, fps) == Planned(vs, 0, w, w.effectiveStart, fps)
  {
    WideWindowHasDuration(vs, sylStart, sylEnd, cur, fps);
    TotalWeightPositive(vs);
  }

  /** Weighted placement in a wide window: the visemes shown are a prefix of
      the list, in order, the first at `effective_start`; each later one at
      least the hold after the previous one; none past the end frame, and the
      first left out would have been; the cursor ends on the last frame
      placed, never before the old cursor. */
  lemma WidePlacement(vs: seq<string>, sylStart: real, sylEnd: real, cur: int, fps: int)
    requires fps >= 0 && vs != []
    requires CalcFrame(sylEnd, fps) - Max(cur, CalcFrame(sylStart, fps)) >= MinHoldFrames
    ensures var r := PlaceSyllable(vs, sylStart, sylEnd, cur, fps);
      var w := WideWindow(vs, sylStart, sylEnd, cur, fps);
      && 0 < |r.events| <= |vs|
      && r.events[0] == Event(w.effectiveStart, vs[0])
      && (forall j | 0 <= j < |r.events| :: r.events[j].viseme == vs[j])
      && (forall j | 0 < j < |r.events| :: r.events[j].frame >= r.events[j - 1].frame + MinHoldFrames)
      && (forall j | 0 <= j < |r.events| :: r.events[j].frame <= w.endFrame)
      && r.cursor == r.events[|r.events| - 1].frame
      && r.cursor >= cur
  {
    WideIsPlanned(vs, sylStart, sylEnd, cur, fps);
    var w := WideWindow(vs, sylStart, sylEnd, cur, fps);
    assert CalcFrame(w.start, fps) <= w.effectiveStart <= w.endFrame && cur <= w.effectiveStart;
    PlannedFromStart(vs, w, fps);
  }

  /** The weighted walk from `effective_start` over a window with room. */
  lemma {:induction false} PlannedFromStart(vs: seq<string>, w: Window, fps: int)
    requires vs != [] && w.total != 0.0
    requires CalcFrame(w.start, fps) <= w.effectiveStart <= w.endFrame
    ensures var r := Planned(vs, 0, w, w.effectiveStart, fps);
      0 < |r.events| <= |vs| && r.events[0] == Event(w.effectiveStart, vs[0])
    ensures var r := Planned(vs, 0, w, w.effectiveStart, fps);
      forall j | 0 <= j < |r.events| :: r.events[j].viseme == vs[j]
    ensures var r := Planned(vs, 0, w, w.effectiveStart, fps);
      forall j | 0 < j < |r.events| :: r.events[j].frame >= r.events[j - 1].frame + MinHoldFrames
    ensures var r := Planned(vs, 0, w, w.effectiveStart, fps);
      forall j | 0 <= j < |r.events| :: r.events[j].frame <= w.endFrame
    ensures var r := Planned(vs, 0, w, w.effectiveStart, fps);
      r.events != [] && r.cursor == r.events[|r.events| - 1].frame && r.cursor >= w.effectiveStart
  {
    PlannedShape(vs, 0, w, w.effectiveStart, fps);
    PlannedHead(vs, 0, w, w.effectiveStart, fps);
    ShapeFromStart(Planned(vs, 0, w, w.effectiveStart, fps), vs, w.effectiveStart, w.endFrame);
  }

  /** The shape of a placement of a prefix of `vs` that starts at `start`,
      grows by the hold and ends its cursor on its last event. */
  lemma ShapeFromStart(r: Placement, vs: seq<string>, start: int, endFrame: int)
    requires |r.events| <= |vs| - 0
    requires forall j | 0 <= j < |r.events| :: r.events[j].viseme == vs[0 + j]
    requires forall j | 0 <= j < |r.events| :: r.events[j].frame <= endFrame
    requires forall j | 0 < j < |r.events| :: r.events[j].frame >= r.events[j - 1].frame + MinHoldFrames
    requires r.cursor == (if r.events == [] then start else r.events[|r.events| - 1].frame)
    requires r.events != [] && r.events[0] == Event(start, vs[0])
    ensures 0 < |r.events| <= |vs| && r.events[0] == Event(start, vs[0])
    ensures forall j | 0 <= j < |r.events| :: r.events[j].viseme == vs[j]
    ensures r.cursor == r.events[|r.events| - 1].frame && r.cursor >= start
  {
    FramesGrowBetween(r.events, 0, |r.events| - 1);
  }

  /** Where each viseme of a wide placement lands: the frame of its weighted
      start time `syl_start + weight-so-far / total * duration`, raised to the
      hold after the viseme before it; and the first viseme left out is left
      out because that frame would lie past the syllable's end. */
  lemma WideFrames(vs: seq<string>, sylStart: real, sylEnd: real, cur: int, fps: int)
    requires fps >= 0 && vs != []
    requires CalcFrame(sylEnd, fps) - Max(cur, CalcFrame(sylStart, fps)) >= MinHoldFrames
    ensures TotalWeight(vs) != 0.0
    ensures var r := PlaceSyllable(vs, sylStart, sylEnd, cur, fps);
      var w := WideWindow(vs, sylStart, sylEnd, cur, fps);
      && |r.events| <= |vs|
      && (forall j | 0 < j < |r.events| ::
            r.events[j].frame == Max(CalcFrame(sylStart + Share(PrefixWeight(vs, j), w.total, w.duration), fps),
                                     r.events[j - 1].frame + MinHoldFrames))
      && (|r.events| < |vs| ==> Candidate(vs, |r.events|, w, r.cursor, fps) > w.endFrame)
  {
    WideIsPlanned(vs, sylStart, sylEnd, cur, fps);
    var w := WideWindow(vs, sylStart, sylEnd, cur, fps);
    PlannedFrames(vs, 0, w, w.effectiveStart, fps);
    PlannedStops(vs, 0, w, w.effectiveStart, fps);
  }

  /** A candidate no later than the end frame is placed, first. */
  lemma PlannedHead(vs: seq<string>, i: nat, w: Window, prev: int, fps: int)
    requires i < |vs| && w.total != 0.0
    requires Candidate(vs, i, w, prev, fps) <= w.endFrame
    ensures var r := Planned(vs, i, w, prev, fps);
      r.events != [] && r.events[0] == Event(Candidate(vs, i, w, prev, fps), vs[i])
  {
  }

  /** A placement only moves forward from the cursor `cur`: its events come at
      non-decreasing frames, none before `cur`, and the new cursor is at or
      after all of them. */
  ghost predicate Forward(p: Placement, cur: int)
  {
    && cur <= p.cursor
    && (forall j | 0 <= j < |p.events| :: cur <= p.events[j].frame <= p.cursor)
    && (forall j | 0 < j < |p.events| :: p.events[j - 1].frame <= p.events[j].frame)
  }

  /** Whatever branch `place_syllable_visemes` takes, it moves forward from
      the cursor and shows only visemes of its list. */
  lemma PlaceSyllableForward(vs: seq<string>, sylStart: real, sylEnd: real, cur: int, fps: int)
    requires fps >= 0
    ensures var r := PlaceSyllable(vs, sylStart, sylEnd, cur, fps);
      && Forward(r, cur)
      && (forall j | 0 <= j < |r.events| :: r.events[j].viseme in vs)
  {
    var eff := Max(cur, CalcFrame(sylStart, fps));
    if vs != [] && CalcFrame(sylEnd, fps) - eff >= MinHoldFrames {
      WidePlacement(vs, sylStart, sylEnd, cur, fps);
      var r := PlaceSyllable(vs, sylStart, sylEnd, cur, fps);
      forall j | 0 <= j < |r.events|
        ensures cur <= r.events[j].frame <= r.cursor
      {
        FramesGrowBetween(r.events, 0, j);
        FramesGrowBetween(r.events, j, |r.events| - 1);
      }
    }
  }

  /** Events each at least the hold after the one before are in frame order. */
  lemma {:induction false} FramesGrowBetween(es: seq<Event>, i: nat, j: nat)
    requires i <= j < |es|
    requires forall k | 0 < k < |es| :: es[k].frame >= es[k - 1].frame + MinHoldFrames
    ensures es[i].frame <= es[j].frame
    decreases j - i
  {
    if i < j {
      FramesGrowBetween(es, i, j - 1);
    }
  }

  /** Placing one thing and then, from a cursor no earlier than where the
      first left it, another, still only moves forward. */
  lemma ForwardThen(p: Placement, cur: int, q: Placement, mid: int)
    requires Forward(p, cur) && p.cursor <= mid && Forward(q, mid)
    ensures Forward(Placement(p.events + q.events, q.cursor), cur)
  {
    var es := p.events + q.events;
    forall j | 0 < j < |es|
      ensures es[j - 1].frame <= es[j].frame
    {
      if j == |p.events| {
        assert es[j - 1] == p.events[j - 1] && es[j] == q.events[0];
      } else if j < |p.events| {
        assert es[j - 1] == p.events[j - 1] && es[j] == p.events[j];
      } else {
        assert es[j - 1] == q.events[j - 1 - |p.events|] && es[j] == q.events[j - |p.events|];
      }
    }
    forall j | 0 <= j < |es|
      ensures cur <= es[j].frame <= q.cursor
    {
      if j < |p.events| {
        assert es[j] == p.events[j];
      } else {
        assert es[j] == q.events[j - |p.events|];
      }
    }
  }
}
