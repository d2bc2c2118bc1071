/** `calc_frame_data` of main.py as a program: the closure state it shares
    among its nested helpers (the `output` dictionary and the statistics) is
    an object, and the nested helpers that change it are its methods. */
module Scheduler {
  import opened Utils
  import opened Words
  import opened Visemes
  import opened Placement
  import S = Schedule
  import K = Keyframes
  import FD = FrameData

  /** The state `calc_frame_data` builds: the frame-to-id dictionary and the
      per-viseme call counts, with the viseme map, the statistics switch and
      the frame rate it reads. `log` records every `add_to_output` call. */
  class FrameScheduler {
    const visemeMap: map<string, int>
    const stats: bool
    const fps: int
    var output: map<int, int>
    var statsData: map<string, int>
    ghost var log: seq<Event>

    /** The dictionary and the counts are those the logged calls build. */
    ghost predicate Valid()
      reads this
    {
      && K.Mapped(visemeMap, log)
      && output == K.Store(visemeMap, log)
      && statsData == (if stats then K.Tally(log) else map[])
    }

    constructor(visemeMap: map<string, int>, stats: bool, fps: int)
      ensures Valid() && log == []
      ensures this.visemeMap == visemeMap && this.stats == stats && this.fps == fps
      ensures output == map[] && statsData == map[]
    {
      this.visemeMap := visemeMap;
      this.stats := stats;
      this.fps := fps;
      output := map[];
      statsData := map[];
      log := [];
    }

    /** `add_to_output`: stores the viseme's id at the frame, replacing what
        was there, and counts the call when statistics are on. */
    method AddToOutput(frameNum: int, viseme: string)
      requires Valid() && viseme in visemeMap
      modifies this
      ensures Valid() && log == old(log) + [Event(frameNum, viseme)]
      ensures output == old(output)[frameNum := visemeMap[viseme]]
    {
      output := output[frameNum := visemeMap[viseme]];
      if stats {
        statsData := statsData[viseme := (if viseme in statsData then statsData[viseme] else 0) + 1];
      }
      log := log + [Event(frameNum, viseme)];
      assert log[..|log| - 1] == old(log);
    }

    /** `place_syllable_visemes`: shows the visemes of one syllable in its
        window and returns the new cursor, making the calls `PlaceSyllable`
        describes. */
    method PlaceSyllableVisemes(sylVisemes: seq<string>, sylStart: real, sylEnd: real, curFrame: int) returns (newFrame: int)
      requires Valid() && forall j | 0 <= j < |sylVisemes| :: sylVisemes[j] in visemeMap
      modifies this
      ensures Valid()
      ensures log == old(log) + PlaceSyllable(sylVisemes, sylStart, sylEnd, curFrame, fps).events
      ensures newFrame == PlaceSyllable(sylVisemes, sylStart, sylEnd, curFrame, fps).cursor
    {
      if sylVisemes == [] {
        return curFrame;
      }
      var sylStartFrame := CalcFrame(sylStart, fps);
      var sylEndFrame := CalcFrame(sylEnd, fps);
      var effectiveStart := Max(curFrame, sylStartFrame);
      var availableFrames := sylEndFrame - effectiveStart;
      if availableFrames < MinHoldFrames {
        var frameIdx := effectiveStart;
        AddToOutput(frameIdx, PrimaryVowel(sylVisemes));
        return frameIdx;
      }
      var sylDuration := sylEnd - sylStart;
      if sylDuration <= 0.0 {
        return curFrame;
      }
      var totalWeight := TotalWeight(sylVisemes);
      if totalWeight == 0.0 {
        totalWeight := |sylVisemes| as real;
      }
      newFrame := PlaceWeighted(sylVisemes, Window(sylStart, sylDuration, totalWeight, effectiveStart, sylEndFrame));
    }

    /** The weighted loop of `place_syllable_visemes`: each viseme at the
        frame of its share-weighted start time, held at least the hold after
        the previous one, until one would fall past the end frame. */
    method PlaceWeighted(sylVisemes: seq<string>, w: Window) returns (localFrame: int)
      requires Valid() && forall j | 0 <= j < |sylVisemes| :: sylVisemes[j] in visemeMap
      requires w.total != 0.0
      modifies this
      ensures Valid()
      ensures log == old(log) + Planned(sylVisemes, 0, w, w.effectiveStart, fps).events
      ensures localFrame == Planned(sylVisemes, 0, w, w.effectiveStart, fps).cursor
    {
      ghost var planned := Planned(sylVisemes, 0, w, w.effectiveStart, fps);
      var localTime := 0.0;
      localFrame := w.effectiveStart;
      var firstInSyllable := true;
      var i := 0;
      while i < |sylVisemes|
        invariant 0 <= i <= |sylVisemes| && (firstInSyllable <==> i == 0)
        invariant Valid()
        invariant i < |sylVisemes| ==> localTime == Share(PrefixWeight(sylVisemes, i), w.total, w.duration)
        invariant log + Planned(sylVisemes, i, w, localFrame, fps).events == old(log) + planned.events
        invariant Planned(sylVisemes, i, w, localFrame, fps).cursor == planned.cursor
        decreases |sylVisemes| - i
      {
        var viseme := sylVisemes[i];
        var weight := Weight(viseme);
        var vDur;
        if i == |sylVisemes| - 1 {
          vDur := w.duration - localTime;
        } else {
          vDur := Share(weight, w.total, w.duration);
        }
        var frameIdx := CalcFrame(w.start + localTime, fps);
        if firstInSyllable {
          frameIdx := Max(frameIdx, w.effectiveStart);
          firstInSyllable := false;
        } else {
          if frameIdx < localFrame + MinHoldFrames {
            frameIdx := localFrame + MinHoldFrames;
          }
        }
        StepCandidate(sylVisemes, i, w, localFrame, localTime, frameIdx, fps);
        if frameIdx > w.endFrame {
          break;
        }
        ghost var rest := Planned(sylVisemes, i + 1, w, frameIdx, fps);
        AddToOutput(frameIdx, viseme);
        assert log + rest.events == old(log) + planned.events;
        if i + 1 < |sylVisemes| {
          ShareAdd(PrefixWeight(sylVisemes, i), weight, w.total, w.duration);
        }
        localFrame := frameIdx;
        localTime := localTime + vDur;
        i := i + 1;
      }
    }

    /** The silence step of the word loop for word `index`: a silence before
        the first word when it starts late, or before a later word after a
        long enough gap. */
    method PlaceGapSilence(words: seq<Word>, index: nat, currentFrame: int, silenceSeconds: real) returns (newFrame: int)
      requires Valid() && index < |words| && "sli" in visemeMap
      modifies this
      ensures Valid()
      ensures log == old(log) + S.GapSilence(words, index, currentFrame, silenceSeconds, fps).events
      ensures newFrame == S.GapSilence(words, index, currentFrame, silenceSeconds, fps).cursor
    {
      newFrame := currentFrame;
      var word := words[index];
      if index == 0 {
        if word.startTime > silenceSeconds {
          var sliFrame := Max(currentFrame + MinHoldFrames, CalcFrame(word.startTime - 0.03, fps));
          AddToOutput(sliFrame, "sli");
          newFrame := sliFrame;
        }
      } else {
        var prevWord := words[index - 1];
        var gap := word.startTime - prevWord.endTime;
        if gap >= silenceSeconds {
          var sliFrame := CalcFrame(prevWord.endTime + 0.02, fps);
          if sliFrame < currentFrame + MinHoldFrames {
            sliFrame := currentFrame + MinHoldFrames;
          }
          AddToOutput(sliFrame, "sli");
          newFrame := sliFrame;
        }
      }
    }

    /** The syllable loop of a grouped word: group `k` in the window `k`
        syllable durations after the word's start, skipping groups without
        known symbols. */
    method PlaceSyllableGroups(table: map<string, string>, syllableGroups: seq<seq<string>>, wordStart: real, sylDuration: real, currentFrame: int) returns (newFrame: int)
      requires Valid() && "UNK" !in table.Values
      requires forall p | p in table :: table[p] in visemeMap
      modifies this
      ensures Valid()
      ensures log == old(log) + S.Syllables(table, syllableGroups, 0, wordStart, sylDuration, currentFrame, fps).events
      ensures newFrame == S.Syllables(table, syllableGroups, 0, wordStart, sylDuration, currentFrame, fps).cursor
    {
      newFrame := currentFrame;
      ghost var whole := S.Syllables(table, syllableGroups, 0, wordStart, sylDuration, currentFrame, fps);
      for sylIdx := 0 to |syllableGroups|
        invariant Valid()
        invariant log + S.Syllables(table, syllableGroups, sylIdx, wordStart, sylDuration, newFrame, fps).events
                  == old(log) + whole.events
        invariant S.Syllables(table, syllableGroups, sylIdx, wordStart, sylDuration, newFrame, fps).cursor == whole.cursor
      {
        newFrame := PlaceGroup(table, syllableGroups, sylIdx, wordStart, sylDuration, newFrame);
      }
    }

    /** One turn of the syllable loop: the known visemes of group `k` placed
        in the group's window, or nothing when it has none. What this leaves
        to do is what the groups after it do, from the new cursor. */
    method PlaceGroup(table: map<string, string>, gs: seq<seq<string>>, k: nat, wordStart: real, sylDuration: real, cur: int) returns (newFrame: int)
      requires Valid() && k < |gs| && "UNK" !in table.Values
      requires forall p | p in table :: table[p] in visemeMap
      modifies this
      ensures Valid()
      ensures log + S.Syllables(table, gs, k + 1, wordStart, sylDuration, newFrame, fps).events
              == old(log) + S.Syllables(table, gs, k, wordStart, sylDuration, cur, fps).events
      ensures S.Syllables(table, gs, k + 1, wordStart, sylDuration, newFrame, fps).cursor
              == S.Syllables(table, gs, k, wordStart, sylDuration, cur, fps).cursor
    {
      var sylVisemes := GetVisemes(table, gs[k]);
      if sylVisemes == [] {
        S.SkipEmptyGroups(table, gs, k, k + 1, wordStart, sylDuration, cur, fps);
        return cur;
      }
      var sylStart := S.SyllableStart(wordStart, k, sylDuration);
      var sylEnd := sylStart + sylDuration;
      GroupStep(table, gs, k, wordStart, sylDuration, cur, fps, log, log + S.Syllables(table, gs, k, wordStart, sylDuration, cur, fps).events);
      newFrame := PlaceSyllableVisemes(sylVisemes, sylStart, sylEnd, cur);
    }

    /** Every `add_to_output` call of `calc_frame_data`, on a fresh state:
        the leading silence, the word loop from frame 0, and the closing
        silence. */
    method PlaceAll(table: map<string, string>, words: seq<Word>, phonemes: seq<PhonemeData>, silenceSeconds: real)
      requires Valid() && log == [] && |words| <= |phonemes|
      requires "UNK" !in table.Values && "sli" in visemeMap
      requires forall p | p in table :: table[p] in visemeMap
      modifies this
      ensures Valid() && log == S.Schedule(table, words, phonemes, silenceSeconds, fps)
    {
      if words != [] && words[0].startTime > 0.01 {
        AddToOutput(0, "sli");
      }
      ghost var lead := log;
      assert lead == if words != [] && words[0].startTime > 0.01 then [Event(0, "sli")] else [];
      ghost var body := S.WordsFrom(table, words, phonemes, 0, 0, silenceSeconds, fps);
      var currentFrame := 0;
      for index := 0 to |words|
        invariant Valid()
        invariant log + S.WordsFrom(table, words, phonemes, index, currentFrame, silenceSeconds, fps).events == lead + body.events
        invariant S.WordsFrom(table, words, phonemes, index, currentFrame, silenceSeconds, fps).cursor == body.cursor
      {
        WordTurn(table, words, phonemes, index, currentFrame, silenceSeconds, fps, log, lead + body.events);
        ghost var step := S.WordStep(table, words, phonemes, index, currentFrame, silenceSeconds, fps);
        ghost var before := log;
        currentFrame := PlaceWord(table, words, phonemes, index, currentFrame, silenceSeconds);
        assert log == before + step.events && currentFrame == step.cursor;
      }
      assert log == lead + body.events && currentFrame == body.cursor;
      if words != [] {
        var lastEndFrame := CalcFrame(words[|words| - 1].endTime, fps);
        var sliFrame := Max(currentFrame + MinHoldFrames, lastEndFrame + 1);
        assert sliFrame == S.TrailingFrame(words, body.cursor, fps);
        AddToOutput(sliFrame, "sli");
      }
    }

    /** One turn of the word loop: the silence step, the cursor raised to
        the word's start frame, and, for a word that lasts, its visemes. What
        this leaves to do is what the words after it do, from the new
        cursor. */
    method PlaceWord(table: map<string, string>, words: seq<Word>, phonemes: seq<PhonemeData>, index: nat, currentFrame: int, silenceSeconds: real) returns (newFrame: int)
      requires Valid() && index < |words| <= |phonemes| && "UNK" !in table.Values && "sli" in visemeMap
      requires forall p | p in table :: table[p] in visemeMap
      modifies this
      ensures Valid()
      ensures log == old(log) + S.WordStep(table, words, phonemes, index, currentFrame, silenceSeconds, fps).events
      ensures newFrame == S.WordStep(table, words, phonemes, index, currentFrame, silenceSeconds, fps).cursor
    {
      var phonemeData := phonemes[index];
      var word := words[index];
      var wordStartFrame := CalcFrame(word.startTime, fps);
      newFrame := PlaceGapSilence(words, index, currentFrame, silenceSeconds);
      newFrame := Max(newFrame, wordStartFrame);
      ghost var before := log;
      var duration := word.endTime - word.startTime;
      if duration <= 0.0 {
        assert log == before + S.WordBody(table, word, phonemeData, newFrame, fps).events;
        return;
      }
      newFrame := PlaceWordBody(table, word, phonemeData, newFrame);
    }

    /** The rest of one turn of the word loop, for a word that lasts: a
        grouped word syllable group by syllable group in equal windows, any
        other word as one syllable. */
    method PlaceWordBody(table: map<string, string>, word: Word, phonemeData: PhonemeData, currentFrame: int) returns (newFrame: int)
      requires Valid() && "UNK" !in table.Values
      requires forall p | p in table :: table[p] in visemeMap
      requires word.endTime - word.startTime > 0.0
      modifies this
      ensures Valid()
      ensures log == old(log) + S.WordBody(table, word, phonemeData, currentFrame, fps).events
      ensures newFrame == S.WordBody(table, word, phonemeData, currentFrame, fps).cursor
    {
      newFrame := currentFrame;
      var duration := word.endTime - word.startTime;
      if IsGrouped(phonemeData) {
        var syllableGroups := phonemeData.syllables;
        var numSyls := |syllableGroups|;
        // `num_syls == 0` cannot happen here: a grouped list is non-empty
        var sylDuration := duration / (numSyls as real);
        newFrame := PlaceSyllableGroups(table, syllableGroups, word.startTime, sylDuration, currentFrame);
      } else {
        var flatPhonemes := S.FlatSymbols(phonemeData);
        var wordVisemes := GetVisemes(table, flatPhonemes);
        if wordVisemes == [] {
          return;
        }
        newFrame := PlaceSyllableVisemes(wordVisemes, word.startTime, word.endTime, newFrame);
      }
    }
  }

  /** `calc_frame_data`: the keyframe text for the timed words and their
      phoneme data, and the per-viseme call counts (empty when statistics are
      off). Both are what the calls `Schedule` lists leave behind: the text is
      the sorted, thinned-out dictionary they fill, one line per keyframe. */
  method CalcFrameData(table: map<string, string>, words: seq<Word>, phonemes: seq<PhonemeData>, visemeMap: map<string, int>, stats: bool, silenceSeconds: real, fps: int)
    returns (frameData: string, visemeStats: map<string, int>)
    requires |words| <= |phonemes|
    requires IsVisemeTable(table) && VisemeKeys <= visemeMap.Keys
    ensures var events := S.Schedule(table, words, phonemes, silenceSeconds, fps);
      && K.Mapped(visemeMap, events)
      && frameData == K.Render(K.Normalized(K.SortedItems(K.Store(visemeMap, events))))
      && visemeStats == (if stats then K.Tally(events) else map[])
    ensures fps >= 0 ==> frameData == K.Render(FD.FinalKeyframes(table, words, phonemes, visemeMap, silenceSeconds, fps))
  {
    VisemeTableValues(table);
    var s := new FrameScheduler(visemeMap, stats, fps);
    s.PlaceAll(table, words, phonemes, silenceSeconds);
    var sortedFrames := K.SortedItems(s.output);
    var final := K.Normalize(sortedFrames);
    frameData := K.Render(final);
    visemeStats := s.statsData;
  }

  /** One turn of the word loop keeps its invariant: the calls made so far,
      then the gap silence, the word's own calls and those of the words left,
      are the calls of the whole loop. */
  lemma WordTurn(table: map<string, string>, words: seq<Word>, phonemes: seq<PhonemeData>, index: nat, cur: int, silenceSeconds: real, fps: int, before: seq<Event>, target: seq<Event>)
    requires index < |words| <= |phonemes|
    requires before + S.WordsFrom(table, words, phonemes, index, cur, silenceSeconds, fps).events == target
    ensures var step := S.WordStep(table, words, phonemes, index, cur, silenceSeconds, fps);
      var rest := S.WordsFrom(table, words, phonemes, index + 1, step.cursor, silenceSeconds, fps);
      && (before + step.events) + rest.events == target
      && rest.cursor == S.WordsFrom(table, words, phonemes, index, cur, silenceSeconds, fps).cursor
  {
    var step := S.WordStep(table, words, phonemes, index, cur, silenceSeconds, fps);
    var rest := S.WordsFrom(table, words, phonemes, index + 1, step.cursor, silenceSeconds, fps);
    assert (before + step.events) + rest.events == before + (step.events + rest.events);
  }

  /** The frame the loop of `place_syllable_visemes` computes for viseme `i`
      is its candidate frame. */
  lemma StepCandidate(vs: seq<string>, i: nat, w: Window, localFrame: int, localTime: real, frameIdx: int, fps: int)
    requires i < |vs| && w.total != 0.0
    requires localTime == Share(PrefixWeight(vs, i), w.total, w.duration)
    requires var c := CalcFrame(w.start + localTime, fps);
      frameIdx == (if i == 0 then Max(c, w.effectiveStart)
                   else if c < localFrame + MinHoldFrames then localFrame + MinHoldFrames else c)
    ensures frameIdx == Candidate(vs, i, w, localFrame, fps)
  {
  }

  /** One turn of the syllable loop keeps its invariant: the calls made so
      far, then those of the groups left, are the calls of the whole word. */
  lemma GroupStep(table: map<string, string>, gs: seq<seq<string>>, k: nat, start: real, sylDuration: real, cur: int, fps: int, before: seq<Event>, target: seq<Event>)
    requires k < |gs| && KnownVisemes(table, gs[k]) != []
    requires before + S.Syllables(table, gs, k, start, sylDuration, cur, fps).events == target
    ensures var sylStart := S.SyllableStart(start, k, sylDuration);
      var p := PlaceSyllable(KnownVisemes(table, gs[k]), sylStart, sylStart + sylDuration, cur, fps);
      var rest := S.Syllables(table, gs, k + 1, start, sylDuration, p.cursor, fps);
      && (before + p.events) + rest.events == target
      && rest.cursor == S.Syllables(table, gs, k, start, sylDuration, cur, fps).cursor
  {
    var sylStart := S.SyllableStart(start, k, sylDuration);
    var p := PlaceSyllable(KnownVisemes(table, gs[k]), sylStart, sylStart + sylDuration, cur, fps);
    var rest := S.Syllables(table, gs, k + 1, start, sylDuration, p.cursor, fps);
    S.SyllablesPlaced(table, gs, k, start, sylDuration, cur, fps);
    assert (before + p.events) + rest.events == before + (p.events + rest.events);
  }
}
