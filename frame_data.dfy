/** The keyframes `calc_frame_data` in main.py writes out, as a function of
    its inputs, and what its final text promises: nothing for no words, and
    otherwise spaced keyframes with changing ids that end on the silence. */
module FrameData {
  import opened Words
  import opened Visemes
  import S = Schedule
  import K = Keyframes
  import P = Placement

  /** Every call of `calc_frame_data` shows a viseme the map has an id for. */
  lemma ScheduleMapped(table: map<string, string>, words: seq<Word>, phonemes: seq<PhonemeData>, vmap: map<string, int>, silenceSeconds: real, fps: int)
    requires |words| <= |phonemes| && fps >= 0
    requires IsVisemeTable(table) && VisemeKeys <= vmap.Keys
    ensures K.Mapped(vmap, S.Schedule(table, words, phonemes, silenceSeconds, fps))
  {
    VisemeTableValues(table);
    S.ScheduleOrdered(table, words, phonemes, silenceSeconds, fps);
  }

  /** The dictionary of `calc_frame_data`, sorted by frame. */
  function SortedOutput(table: map<string, string>, words: seq<Word>, phonemes: seq<PhonemeData>, vmap: map<string, int>, silenceSeconds: real, fps: int): seq<K.Keyframe>
    requires |words| <= |phonemes| && fps >= 0
    requires IsVisemeTable(table) && VisemeKeys <= vmap.Keys
  {
    ScheduleMapped(table, words, phonemes, vmap, silenceSeconds, fps);
    K.SortedItems(K.Store(vmap, S.Schedule(table, words, phonemes, silenceSeconds, fps)))
  }

  /** The keyframes `calc_frame_data` writes out, one per line. */
  function FinalKeyframes(table: map<string, string>, words: seq<Word>, phonemes: seq<PhonemeData>, vmap: map<string, int>, silenceSeconds: real, fps: int): seq<K.Keyframe>
    requires |words| <= |phonemes| && fps >= 0
    requires IsVisemeTable(table) && VisemeKeys <= vmap.Keys
  {
    K.Normalized(SortedOutput(table, words, phonemes, vmap, silenceSeconds, fps))
  }

  /** The text is empty exactly when there are no words. */
  lemma EmptyTextIffNoWords(table: map<string, string>, words: seq<Word>, phonemes: seq<PhonemeData>, vmap: map<string, int>, silenceSeconds: real, fps: int)
    requires |words| <= |phonemes| && fps >= 0
    requires IsVisemeTable(table) && VisemeKeys <= vmap.Keys
    ensures K.Render(FinalKeyframes(table, words, phonemes, vmap, silenceSeconds, fps)) == "" <==> words == []
  {
    var es := S.Schedule(table, words, phonemes, silenceSeconds, fps);
    ScheduleMapped(table, words, phonemes, vmap, silenceSeconds, fps);
    var m := K.Store(vmap, es);
    var ks := K.SortedItems(m);
    K.StoreKeys(vmap, es);
    K.SortedItemsEntries(m);
    K.NormalizedSpaced(ks);
    K.RenderLines(K.Normalized(ks));
    if words != [] {
      S.ScheduleOrdered(table, words, phonemes, silenceSeconds, fps);
      assert es[|es| - 1].frame in K.Frames(es);
    }
  }

  /** With at least one word the last line carries the id of `sli`: the
      closing silence comes the hold after every other call, so its frame is
      the latest in the dictionary and its id the last one written. */
  lemma LastLineIsSilence(table: map<string, string>, words: seq<Word>, phonemes: seq<PhonemeData>, vmap: map<string, int>, silenceSeconds: real, fps: int)
    requires |words| <= |phonemes| && fps >= 0
    requires IsVisemeTable(table) && VisemeKeys <= vmap.Keys
    requires words != []
    ensures var f := FinalKeyframes(table, words, phonemes, vmap, silenceSeconds, fps);
      && f != [] && f[|f| - 1].1 == vmap["sli"]
      && var t := K.Render(f); var l := K.Line(f[|f| - 1]); |l| <= |t| && t[|t| - |l|..] == l
  {
    var es := S.Schedule(table, words, phonemes, silenceSeconds, fps);
    ScheduleMapped(table, words, phonemes, vmap, silenceSeconds, fps);
    VisemeTableValues(table);
    S.ScheduleOrdered(table, words, phonemes, silenceSeconds, fps);
    K.LastCallIsLastKeyframe(vmap, es);
    K.RenderLines(FinalKeyframes(table, words, phonemes, vmap, silenceSeconds, fps));
  }

  /** The keyframes written out have strictly increasing frames the hold
      apart and ids that change from line to line; they are the sorted
      dictionary with some entries left out, the first entry always kept. The
      sorted dictionary holds one entry per frame some call used. */
  lemma KeyframesSpacedSubsequence(table: map<string, string>, words: seq<Word>, phonemes: seq<PhonemeData>, vmap: map<string, int>, silenceSeconds: real, fps: int)
    requires |words| <= |phonemes| && fps >= 0
    requires IsVisemeTable(table) && VisemeKeys <= vmap.Keys
    ensures var ks := SortedOutput(table, words, phonemes, vmap, silenceSeconds, fps);
      var f := FinalKeyframes(table, words, phonemes, vmap, silenceSeconds, fps);
      && K.Increasing(ks)
      && K.FramesOf(ks) == K.Frames(S.Schedule(table, words, phonemes, silenceSeconds, fps))
      && K.Spaced(f) && K.Increasing(f)
      && K.Subsequence(f, ks)
      && (ks != [] ==> f != [] && f[0] == ks[0])
  {
    var es := S.Schedule(table, words, phonemes, silenceSeconds, fps);
    ScheduleMapped(table, words, phonemes, vmap, silenceSeconds, fps);
    var m := K.Store(vmap, es);
    var ks := K.SortedItems(m);
    K.StoreKeys(vmap, es);
    K.SortedItemsIncreasing(m);
    K.SortedItemsComplete(m);
    K.NormalizedSpaced(ks);
    K.NormalizedSubsequence(ks);
    K.SpacedIncreasing(K.Normalized(ks));
  }

  /** A call can only land on a frame already in the dictionary when that is
      the frame of the call just before it; there it overwrites the stored
      id. */
  lemma OverwriteOnlyLatest(table: map<string, string>, words: seq<Word>, phonemes: seq<PhonemeData>, vmap: map<string, int>, silenceSeconds: real, fps: int, k: nat)
    requires |words| <= |phonemes| && fps >= 0
    requires IsVisemeTable(table) && VisemeKeys <= vmap.Keys
    requires var es := S.Schedule(table, words, phonemes, silenceSeconds, fps);
      0 < k < |es| && K.Mapped(vmap, es) && es[k].frame in K.Store(vmap, es[..k])
    ensures var es := S.Schedule(table, words, phonemes, silenceSeconds, fps);
      es[k].frame == es[k - 1].frame
  {
    var es := S.Schedule(table, words, phonemes, silenceSeconds, fps);
    VisemeTableValues(table);
    S.ScheduleOrdered(table, words, phonemes, silenceSeconds, fps);
    K.StoreOverwritesLatest(vmap, es, k);
  }
}
