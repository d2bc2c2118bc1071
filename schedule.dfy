/** The word loop of `calc_frame_data` in main.py, as a specification: the
    sequence of `add_to_output` calls it makes, in call order, and where it
    leaves the cursor `current_frame`. */
module Schedule {
  import opened Utils
  import opened Words
  import opened Visemes
  import P = Placement

  type Event = P.Event
  type Placement = P.Placement

  /** The symbols of a word that is not split into syllable groups: an English
      phoneme string is read one character at a time, and an empty group list
      holds no symbol. */
  function FlatSymbols(d: PhonemeData): seq<string>
  {
    match d
    case Text(t) => Chars(t)
    case Grouped(_) => []
  }

  /** The silence keyframe that may come before word `index`: before the first
      word when it starts after `silence_seconds`, a little before its start
      but at least the hold after the cursor; before a later word when the gap
      since the previous word is at least `silence_seconds`, just after the
      previous word's end but at least the hold after the cursor. */
  function GapSilence(words: seq<Word>, index: nat, cur: int, silenceSeconds: real, fps: int): Placement
    requires index < |words|
  {
    var word := words[index];
    if index == 0 then
      if word.startTime > silenceSeconds then
        var f := Max(cur + P.MinHoldFrames, CalcFrame(word.startTime - 0.03, fps));
        P.Placement([P.Event(f, "sli")], f)
      else P.Placement([], cur)
    else
      var prev := words[index - 1];
      var gap := word.startTime - prev.endTime;
      if gap >= silenceSeconds then
        var c := CalcFrame(prev.endTime + 0.02, fps);
        var f := if c < cur + P.MinHoldFrames then cur + P.MinHoldFrames else c;
        P.Placement([P.Event(f, "sli")], f)
      else P.Placement([], cur)
  }

  /** The syllable groups of a Chinese word from group `k` on: group `k` gets
      the window starting `k` syllable durations after the word's start, and a
      group without known symbols places nothing. */
  function Syllables(table: map<string, string>, gs: seq<seq<string>>, k: nat, start: real, sylDuration: real, cur: int, fps: int): Placement
    requires k <= |gs|
    decreases |gs| - k
  {
    if k == |gs| then P.Placement([], cur)
    else
      var vs := KnownVisemes(table, gs[k]);
      if vs == [] then Syllables(table, gs, k + 1, start, sylDuration, cur, fps)
      else
        var sylStart := SyllableStart(start, k, sylDuration);
        var p := P.PlaceSyllable(vs, sylStart, sylStart + sylDuration, cur, fps);
        var rest := Syllables(table, gs, k + 1, start, sylDuration, p.cursor, fps);
        P.Placement(p.events + rest.events, rest.cursor)
  }

  /** Where the window of syllable group `k` starts: `k` syllable durations
      after the word's start. */
  function SyllableStart(wordStart: real, k: nat, sylDuration: real): real
  {
    wordStart + (k as real) * sylDuration
  }

  /** The visemes of one word, placed from cursor `cur`: nothing for a word
      without duration; one equal window per syllable group for a grouped
      word; otherwise the whole word as one syllable. */
  function WordBody(table: map<string, string>, word: Word, data: PhonemeData, cur: int, fps: int): Placement
  {
    var duration := word.endTime - word.startTime;
    if duration <= 0.0 then P.Placement([], cur)
    else if IsGrouped(data) then
      Syllables(table, data.syllables, 0, word.startTime, duration / (|data.syllables| as real), cur, fps)
    else
      var vs := KnownVisemes(table, FlatSymbols(data));
      if vs == [] then P.Placement([], cur)
      else P.PlaceSyllable(vs, word.startTime, word.endTime, cur, fps)
  }

  /** One turn of the word loop: the gap silence, the cursor raised to the
      word's start frame, then the word's own visemes. */
  function WordStep(table: map<string, string>, words: seq<Word>, phonemes: seq<PhonemeData>, index: nat, cur: int, silenceSeconds: real, fps: int): Placement
    requires index < |words| <= |phonemes|
  {
    var s := GapSilence(words, index, cur, silenceSeconds, fps);
    var clamped := Max(s.cursor, CalcFrame(words[index].startTime, fps));
    var b := WordBody(table, words[index], phonemes[index], clamped, fps);
    P.Placement(s.events + b.events, b.cursor)
  }

  /** The word loop from word `index` on. */
  function WordsFrom(table: map<string, string>, words: seq<Word>, phonemes: seq<PhonemeData>, index: nat, cur: int, silenceSeconds: real, fps: int): Placement
    requires index <= |words| <= |phonemes|
    decreases |words| - index
  {
    if index == |words| then P.Placement([], cur)
    else
      var step := WordStep(table, words, phonemes, index, cur, silenceSeconds, fps);
      var rest := WordsFrom(table, words, phonemes, index + 1, step.cursor, silenceSeconds, fps);
      P.Placement(step.events + rest.events, rest.cursor)
  }

  /** The frame of the closing silence: the hold after the cursor, but at
      least one frame past the last word's end. */
  function TrailingFrame(words: seq<Word>, cur: int, fps: int): int
    requires words != []
  {
    Max(cur + P.MinHoldFrames, CalcFrame(words[|words| - 1].endTime, fps) + 1)
  }

  /** Every `add_to_output` call of `calc_frame_data`, in call order: the
      leading silence at frame 0 when the first word starts after 0.01 s, the
      word loop from frame 0, and the closing silence. */
  function Schedule(table: map<string, string>, words: seq<Word>, phonemes: seq<PhonemeData>, silenceSeconds: real, fps: int): seq<Event>
    requires |words| <= |phonemes|
  {
    var lead := if words != [] && words[0].startTime > 0.01 then [P.Event(0, "sli")] else [];
    var body := WordsFrom(table, words, phonemes, 0, 0, silenceSeconds, fps);
    var trail := if words == [] then [] else [P.Event(TrailingFrame(words, body.cursor, fps), "sli")];
    lead + body.events + trail
  }

  // ---------------------------------------------------------------------
  // What the word loop promises
  // ---------------------------------------------------------------------

  /** Every event shows one of `vals`. */
  ghost predicate ShowsOnly(es: seq<Event>, vals: set<string>)
  {
    forall j | 0 <= j < |es| :: es[j].viseme in vals
  }

  /** Every silence in `es` lies at frame `bound` or later. */
  ghost predicate SilencesFrom(es: seq<Event>, bound: int)
  {
    forall j | 0 <= j < |es| :: es[j].viseme == "sli" ==> es[j].frame >= bound
  }

  lemma ShowsOnlyAppend(a: seq<Event>, b: seq<Event>, vals: set<string>)
    requires ShowsOnly(a, vals) && ShowsOnly(b, vals)
    ensures ShowsOnly(a + b, vals)
  {
    forall j | 0 <= j < |a + b|
      ensures (a + b)[j].viseme in vals
    {
      if j < |a| { assert (a + b)[j] == a[j]; } else { assert (a + b)[j] == b[j - |a|]; }
    }
  }

  lemma SilencesFromAppend(a: seq<Event>, b: seq<Event>, bound: int)
    requires SilencesFrom(a, bound) && SilencesFrom(b, bound)
    ensures SilencesFrom(a + b, bound)
  {
    forall j | 0 <= j < |a + b| && (a + b)[j].viseme == "sli"
      ensures (a + b)[j].frame >= bound
    {
      if j < |a| { assert (a + b)[j] == a[j]; } else { assert (a + b)[j] == b[j - |a|]; }
    }
  }

  /** The syllable groups move forward from the cursor and show only table
      visemes. */
  lemma {:induction false} SyllablesForward(table: map<string, string>, gs: seq<seq<string>>, k: nat, start: real, sylDuration: real, cur: int, fps: int)
    requires k <= |gs| && fps >= 0
    ensures var r := Syllables(table, gs, k, start, sylDuration, cur, fps);
      P.Forward(r, cur) && ShowsOnly(r.events, table.Values)
    decreases |gs| - k
  {
    if k < |gs| {
      var vs := KnownVisemes(table, gs[k]);
      if vs == [] {
        SyllablesForward(table, gs, k + 1, start, sylDuration, cur, fps);
      } else {
        var sylStart := SyllableStart(start, k, sylDuration);
        var p := P.PlaceSyllable(vs, sylStart, sylStart + sylDuration, cur, fps);
        P.PlaceSyllableForward(vs, sylStart, sylStart + sylDuration, cur, fps);
        SyllablesForward(table, gs, k + 1, start, sylDuration, p.cursor, fps);
        var rest := Syllables(table, gs, k + 1, start, sylDuration, p.cursor, fps);
        P.ForwardThen(p, cur, rest, p.cursor);
        ShowsOnlyAppend(p.events, rest.events, table.Values);
      }
    }
  }

  /** The visemes of one word move forward from the cursor and show only
      table visemes. */
  lemma WordBodyForward(table: map<string, string>, word: Word, data: PhonemeData, cur: int, fps: int)
    requires fps >= 0
    ensures var r := WordBody(table, word, data, cur, fps);
      P.Forward(r, cur) && ShowsOnly(r.events, table.Values)
  {
    var duration := word.endTime - word.startTime;
    if duration > 0.0 {
      if IsGrouped(data) {
        SyllablesForward(table, data.syllables, 0, word.startTime, duration / (|data.syllables| as real), cur, fps);
      } else {
        var vs := KnownVisemes(table, FlatSymbols(data));
        P.PlaceSyllableForward(vs, word.startTime, word.endTime, cur, fps);
      }
    }
  }

  /** One turn of the word loop moves forward from the cursor; it shows only
      table visemes and silences, and its silences lie at least the hold after
      the cursor. */
  lemma WordStepForward(table: map<string, string>, words: seq<Word>, phonemes: seq<PhonemeData>, index: nat, cur: int, silenceSeconds: real, fps: int)
    requires index < |words| <= |phonemes| && fps >= 0 && "sli" !in table.Values
    ensures var r := WordStep(table, words, phonemes, index, cur, silenceSeconds, fps);
      && P.Forward(r, cur)
      && ShowsOnly(r.events, table.Values + {"sli"})
      && SilencesFrom(r.events, cur + P.MinHoldFrames)
  {
    var s := GapSilence(words, index, cur, silenceSeconds, fps);
    var clamped := Max(s.cursor, CalcFrame(words[index].startTime, fps));
    var b := WordBody(table, words[index], phonemes[index], clamped, fps);
    WordBodyForward(table, words[index], phonemes[index], clamped, fps);
    assert P.Forward(s, cur);
    P.ForwardThen(s, cur, b, clamped);
    assert ShowsOnly(b.events, table.Values + {"sli"});
    ShowsOnlyAppend(s.events, b.events, table.Values + {"sli"});
    assert SilencesFrom(b.events, cur + P.MinHoldFrames);
    SilencesFromAppend(s.events, b.events, cur + P.MinHoldFrames);
  }

  /** The word loop moves forward from the cursor, shows only table visemes
      and silences, and puts no silence within the hold of where it started. */
  lemma {:induction false} WordsFromForward(table: map<string, string>, words: seq<Word>, phonemes: seq<PhonemeData>, index: nat, cur: int, silenceSeconds: real, fps: int)
    requires index <= |words| <= |phonemes| && fps >= 0 && "sli" !in table.Values
    ensures var r := WordsFrom(table, words, phonemes, index, cur, silenceSeconds, fps);
      && P.Forward(r, cur)
      && ShowsOnly(r.events, table.Values + {"sli"})
      && SilencesFrom(r.events, cur + P.MinHoldFrames)
    decreases |words| - index
  {
    if index < |words| {
      var step := WordStep(table, words, phonemes, index, cur, silenceSeconds, fps);
      WordStepForward(table, words, phonemes, index, cur, silenceSeconds, fps);
      WordsFromForward(table, words, phonemes, index + 1, step.cursor, silenceSeconds, fps);
      var rest := WordsFrom(table, words, phonemes, index + 1, step.cursor, silenceSeconds, fps);
      P.ForwardThen(step, cur, rest, step.cursor);
      ShowsOnlyAppend(step.events, rest.events, table.Values + {"sli"});
      assert SilencesFrom(rest.events, cur + P.MinHoldFrames);
      SilencesFromAppend(step.events, rest.events, cur + P.MinHoldFrames);
    }
  }

  /** The calls of `calc_frame_data` come at non-negative, non-decreasing
      frames, each showing a table viseme or a silence; with at least one word
      the last call is the closing silence, at least the hold after every
      earlier call. */
  lemma ScheduleOrdered(table: map<string, string>, words: seq<Word>, phonemes: seq<PhonemeData>, silenceSeconds: real, fps: int)
    requires |words| <= |phonemes| && fps >= 0 && "sli" !in table.Values
    ensures var s := Schedule(table, words, phonemes, silenceSeconds, fps);
      && (forall j | 0 < j < |s| :: s[j - 1].frame <= s[j].frame)
      && (forall j | 0 <= j < |s| :: s[j].frame >= 0)
      && ShowsOnly(s, table.Values + {"sli"})
      && (words != [] ==>
            && s[|s| - 1].viseme == "sli"
            && forall j | 0 <= j < |s| - 1 :: s[j].frame + P.MinHoldFrames <= s[|s| - 1].frame)
  {
    var lead := if words != [] && words[0].startTime > 0.01 then [P.Event(0, "sli")] else [];
    var body := WordsFrom(table, words, phonemes, 0, 0, silenceSeconds, fps);
    var trail := if words == [] then [] else [P.Event(TrailingFrame(words, body.cursor, fps), "sli")];
    WordsFromForward(table, words, phonemes, 0, 0, silenceSeconds, fps);
    var s := lead + body.events + trail;
    assert s == Schedule(table, words, phonemes, silenceSeconds, fps);
    var leadP := P.Placement(lead, 0);
    assert P.Forward(leadP, 0);
    P.ForwardThen(leadP, 0, body, 0);
    var front := P.Placement(lead + body.events, body.cursor);
    if words != [] {
      var t := TrailingFrame(words, body.cursor, fps);
      P.ForwardThen(front, 0, P.Placement(trail, t), t);
      forall j | 0 <= j < |s| - 1
        ensures s[j].frame + P.MinHoldFrames <= s[|s| - 1].frame
      {
        assert s[j] == front.events[j];
      }
    } else {
      assert s == front.events;
    }
    ShowsOnlyAppend(lead, body.events, table.Values + {"sli"});
    ShowsOnlyAppend(lead + body.events, trail, table.Values + {"sli"});
  }

  /** A silence at frame 0 is shown exactly when there are words and the
      first starts after 0.01 s: every other silence lies at least the hold
      after frame 0, and the table shows no silence. */
  lemma LeadingSilence(table: map<string, string>, words: seq<Word>, phonemes: seq<PhonemeData>, silenceSeconds: real, fps: int)
    requires |words| <= |phonemes| && fps >= 0 && "sli" !in table.Values
    ensures var s := Schedule(table, words, phonemes, silenceSeconds, fps);
      (exists j | 0 <= j < |s| :: s[j] == P.Event(0, "sli")) <==> words != [] && words[0].startTime > 0.01
  {
    var s := Schedule(table, words, phonemes, silenceSeconds, fps);
    var body := WordsFrom(table, words, phonemes, 0, 0, silenceSeconds, fps);
    WordsFromForward(table, words, phonemes, 0, 0, silenceSeconds, fps);
    if words != [] && words[0].startTime > 0.01 {
      assert s[0] == P.Event(0, "sli");
    } else {
      var trail := if words == [] then [] else [P.Event(TrailingFrame(words, body.cursor, fps), "sli")];
      assert s == body.events + trail;
      forall j | 0 <= j < |s|
        ensures s[j] != P.Event(0, "sli")
      {
        if j < |body.events| {
          assert s[j] == body.events[j];
        } else {
          assert s[j] == trail[0];
        }
      }
    }
  }

  /** Some event of `es` is a silence. */
  ghost predicate HasSilence(es: seq<Event>)
  {
    exists j | 0 <= j < |es| :: es[j].viseme == "sli"
  }

  /** The silences of one turn of the word loop are those of its gap. */
  lemma WordStepSilences(table: map<string, string>, words: seq<Word>, phonemes: seq<PhonemeData>, index: nat, cur: int, silenceSeconds: real, fps: int)
    requires index < |words| <= |phonemes| && fps >= 0 && "sli" !in table.Values
    ensures var r := WordStep(table, words, phonemes, index, cur, silenceSeconds, fps);
      var g := GapSilence(words, index, cur, silenceSeconds, fps);
      && (HasSilence(r.events) <==> g.events != [])
      && (g.events != [] ==> r.events[0] == g.events[0])
  {
    var r := WordStep(table, words, phonemes, index, cur, silenceSeconds, fps);
    var g := GapSilence(words, index, cur, silenceSeconds, fps);
    var clamped := Max(g.cursor, CalcFrame(words[index].startTime, fps));
    var b := WordBody(table, words[index], phonemes[index], clamped, fps);
    WordBodyForward(table, words[index], phonemes[index], clamped, fps);
    assert r.events == g.events + b.events;
    if g.events != [] {
      assert r.events[0].viseme == "sli";
    } else {
      assert r.events == b.events;
    }
  }

  /** The first word is preceded by a silence exactly when it starts after
      `silence_seconds`; the silence comes a little before the word's start,
      but at least the hold after the cursor. */
  lemma FirstWordSilence(table: map<string, string>, words: seq<Word>, phonemes: seq<PhonemeData>, cur: int, silenceSeconds: real, fps: int)
    requires 0 < |words| <= |phonemes| && fps >= 0 && "sli" !in table.Values
    ensures var r := WordStep(table, words, phonemes, 0, cur, silenceSeconds, fps);
      && (HasSilence(r.events) <==> words[0].startTime > silenceSeconds)
      && (words[0].startTime > silenceSeconds ==>
            r.events[0] == P.Event(Max(cur + P.MinHoldFrames, CalcFrame(words[0].startTime - 0.03, fps)), "sli"))
  {
    WordStepSilences(table, words, phonemes, 0, cur, silenceSeconds, fps);
  }

  /** A later word is preceded by a silence exactly when the gap since the
      previous word is at least `silence_seconds`; the silence comes 0.02 s
      after the previous word's end, raised to the hold after the cursor. */
  lemma GapWordSilence(table: map<string, string>, words: seq<Word>, phonemes: seq<PhonemeData>, index: nat, cur: int, silenceSeconds: real, fps: int)
    requires 0 < index < |words| <= |phonemes| && fps >= 0 && "sli" !in table.Values
    ensures var r := WordStep(table, words, phonemes, index, cur, silenceSeconds, fps);
      var gap := words[index].startTime - words[index - 1].endTime;
      && (HasSilence(r.events) <==> gap >= silenceSeconds)
      && (gap >= silenceSeconds ==>
            r.events[0] == P.Event(Max(CalcFrame(words[index - 1].endTime + 0.02, fps), cur + P.MinHoldFrames), "sli"))
  {
    WordStepSilences(table, words, phonemes, index, cur, silenceSeconds, fps);
  }

  /** A word that does not last places nothing of its own: at most its gap
      silence is shown, and the cursor is still raised to the word's start
      frame. */
  lemma ZeroDurationWord(table: map<string, string>, words: seq<Word>, phonemes: seq<PhonemeData>, index: nat, cur: int, silenceSeconds: real, fps: int)
    requires index < |words| <= |phonemes|
    requires words[index].endTime <= words[index].startTime
    ensures var r := WordStep(table, words, phonemes, index, cur, silenceSeconds, fps);
      && |r.events| <= 1
      && (forall j | 0 <= j < |r.events| :: r.events[j].viseme == "sli")
      && r.cursor >= CalcFrame(words[index].startTime, fps)
      && r.cursor >= cur
  {
  }

  /** A group with known symbols is placed in its window, and the groups
      after it follow from where it leaves the cursor. */
  lemma SyllablesPlaced(table: map<string, string>, gs: seq<seq<string>>, k: nat, start: real, sylDuration: real, cur: int, fps: int)
    requires k < |gs| && KnownVisemes(table, gs[k]) != []
    ensures var sylStart := SyllableStart(start, k, sylDuration);
      var p := P.PlaceSyllable(KnownVisemes(table, gs[k]), sylStart, sylStart + sylDuration, cur, fps);
      var rest := Syllables(table, gs, k + 1, start, sylDuration, p.cursor, fps);
      Syllables(table, gs, k, start, sylDuration, cur, fps) == P.Placement(p.events + rest.events, rest.cursor)
  {
  }

  /** Groups without known symbols pass the cursor on unchanged. */
  lemma {:induction false} SkipEmptyGroups(table: map<string, string>, gs: seq<seq<string>>, i: nat, k: nat, start: real, sylDuration: real, cur: int, fps: int)
    requires i <= k <= |gs|
    requires forall m | i <= m < k :: KnownVisemes(table, gs[m]) == []
    ensures Syllables(table, gs, i, start, sylDuration, cur, fps) == Syllables(table, gs, k, start, sylDuration, cur, fps)
    decreases k - i
  {
    if i < k {
      SkipEmptyGroups(table, gs, i + 1, k, start, sylDuration, cur, fps);
    }
  }

  /** A group keeps the window of its own index: when every earlier group
      comes out empty, group `k` is still placed in the window `k` syllable
      durations after the word's start. */
  lemma EmptyGroupsKeepWindows(table: map<string, string>, gs: seq<seq<string>>, k: nat, start: real, sylDuration: real, cur: int, fps: int)
    requires k < |gs|
    requires forall m | 0 <= m < k :: KnownVisemes(table, gs[m]) == []
    requires KnownVisemes(table, gs[k]) != []
    ensures var sylStart := SyllableStart(start, k, sylDuration);
      var p := P.PlaceSyllable(KnownVisemes(table, gs[k]), sylStart, sylStart + sylDuration, cur, fps);
      var rest := Syllables(table, gs, k + 1, start, sylDuration, p.cursor, fps);
      Syllables(table, gs, 0, start, sylDuration, cur, fps) == P.Placement(p.events + rest.events, rest.cursor)
  {
    SkipEmptyGroups(table, gs, 0, k, start, sylDuration, cur, fps);
  }

  /** The groups from `i` on are the groups `i` to `k - 1` (the groups of
      `gs[..k]`), then the groups from `k` on, continuing from the cursor the
      first part leaves. */
  lemma {:induction false} SyllablesSplit(table: map<string, string>, gs: seq<seq<string>>, i: nat, k: nat, start: real, sylDuration: real, cur: int, fps: int)
    requires i <= k <= |gs|
    ensures var before := Syllables(table, gs[..k], i, start, sylDuration, cur, fps);
      var after := Syllables(table, gs, k, start, sylDuration, before.cursor, fps);
      Syllables(table, gs, i, start, sylDuration, cur, fps) == P.Placement(before.events + after.events, after.cursor)
    decreases k - i
  {
    if i < k {
      var pre := gs[..k];
      assert pre[i] == gs[i];
      var vs := KnownVisemes(table, gs[i]);
      if vs == [] {
        SyllablesSplit(table, gs, i + 1, k, start, sylDuration, cur, fps);
      } else {
        var sylStart := SyllableStart(start, i, sylDuration);
        var p := P.PlaceSyllable(vs, sylStart, sylStart + sylDuration, cur, fps);
        SyllablesSplit(table, gs, i + 1, k, start, sylDuration, p.cursor, fps);
        var before := Syllables(table, pre, i + 1, start, sylDuration, p.cursor, fps);
        var after := Syllables(table, gs, k, start, sylDuration, before.cursor, fps);
        assert p.events + (before.events + after.events) == (p.events + before.events) + after.events;
      }
    }
  }

  /** The window of group `k + 1` starts where that of group `k` ends. */
  lemma SyllableStartNext(start: real, k: nat, sylDuration: real)
    ensures SyllableStart(start, k + 1, sylDuration) == SyllableStart(start, k, sylDuration) + sylDuration
  {
  }

  /** What group `k` adds, from cursor `cur`: the placement of its known
      visemes in window `k`, which runs from `k` to `k + 1` syllable durations
      after the word's start; nothing for a group without known visemes. */
  function GroupPart(table: map<string, string>, gs: seq<seq<string>>, k: nat, start: real, sylDuration: real, cur: int, fps: int): Placement
    requires k < |gs|
  {
    var vs := KnownVisemes(table, gs[k]);
    if vs == [] then P.Placement([], cur)
    else P.PlaceSyllable(vs, SyllableStart(start, k, sylDuration), SyllableStart(start, k + 1, sylDuration), cur, fps)
  }

  /** The groups from `k` on are group `k`'s part, then the groups after it
      from the cursor that part leaves. */
  lemma SyllablesStep(table: map<string, string>, gs: seq<seq<string>>, k: nat, start: real, sylDuration: real, cur: int, fps: int)
    requires k < |gs|
    ensures var p := GroupPart(table, gs, k, start, sylDuration, cur, fps);
      var rest := Syllables(table, gs, k + 1, start, sylDuration, p.cursor, fps);
      Syllables(table, gs, k, start, sylDuration, cur, fps) == P.Placement(p.events + rest.events, rest.cursor)
  {
    SyllableStartNext(start, k, sylDuration);
    var vs := KnownVisemes(table, gs[k]);
    if vs == [] {
      var rest := Syllables(table, gs, k + 1, start, sylDuration, cur, fps);
      assert [] + rest.events == rest.events;
    }
  }

  /** Group `k`, whatever the groups before it hold: its events come right
      after those of groups `0` to `k - 1` and are its part placed from the
      cursor those groups leave; the later groups follow from its cursor. */
  lemma GroupWindow(table: map<string, string>, gs: seq<seq<string>>, k: nat, start: real, sylDuration: real, cur: int, fps: int)
    requires k < |gs|
    ensures var before := Syllables(table, gs[..k], 0, start, sylDuration, cur, fps);
      var p := GroupPart(table, gs, k, start, sylDuration, before.cursor, fps);
      var rest := Syllables(table, gs, k + 1, start, sylDuration, p.cursor, fps);
      Syllables(table, gs, 0, start, sylDuration, cur, fps) == P.Placement(before.events + p.events + rest.events, rest.cursor)
  {
    SyllablesSplit(table, gs, 0, k, start, sylDuration, cur, fps);
    var before := Syllables(table, gs[..k], 0, start, sylDuration, cur, fps);
    SyllablesStep(table, gs, k, start, sylDuration, before.cursor, fps);
    var p := GroupPart(table, gs, k, start, sylDuration, before.cursor, fps);
    var rest := Syllables(table, gs, k + 1, start, sylDuration, p.cursor, fps);
    assert before.events + (p.events + rest.events) == before.events + p.events + rest.events;
  }

  /** `g` windows of a `g`-th of the word's duration end with the word. */
  lemma LastWindowEndsWord(startTime: real, endTime: real, g: nat)
    requires g > 0
    ensures SyllableStart(startTime, g, (endTime - startTime) / (g as real)) == endTime
  {
    var d := (endTime - startTime) / (g as real);
    assert (g as real) * d == endTime - startTime;
  }

  /** A grouped word: its body is the groups in windows of a `g`-th of its
      duration each, for `g` groups empty ones included, so every group `k`,
      whatever the groups before it hold, is placed in its own window right
      after groups `0` to `k - 1`; and the last window ends with the word. */
  lemma GroupedWordWindows(table: map<string, string>, word: Word, data: PhonemeData, k: nat, cur: int, fps: int)
    requires IsGrouped(data) && word.endTime > word.startTime
    requires k < |data.syllables|
    ensures var gs := data.syllables;
      var sylDuration := (word.endTime - word.startTime) / (|gs| as real);
      var before := Syllables(table, gs[..k], 0, word.startTime, sylDuration, cur, fps);
      var p := GroupPart(table, gs, k, word.startTime, sylDuration, before.cursor, fps);
      var rest := Syllables(table, gs, k + 1, word.startTime, sylDuration, p.cursor, fps);
      WordBody(table, word, data, cur, fps) == P.Placement(before.events + p.events + rest.events, rest.cursor)
    ensures var g := |data.syllables|;
      SyllableStart(word.startTime, g, (word.endTime - word.startTime) / (g as real)) == word.endTime
  {
    var gs := data.syllables;
    var sylDuration := (word.endTime - word.startTime) / (|gs| as real);
    assert WordBody(table, word, data, cur, fps) == Syllables(table, gs, 0, word.startTime, sylDuration, cur, fps);
    GroupWindow(table, gs, k, word.startTime, sylDuration, cur, fps);
    LastWindowEndsWord(word.startTime, word.endTime, |gs|);
  }
}
