# Lip-sync keyframe scheduler

The project models the scheduler core of a lip-sync tool. The tool reads a transcript of timed words and their phoneme data. It turns them into the keyframe text an animation rig reads, one `frame id` line per keyframe, with the ids taken from an ARKit-style viseme map.

## What is modelled

- **The phoneme table and the viseme names.**
  - The `phoneme_to_viseme_arkit_v2` table is modelled heading by heading (`PhonemeToViseme`).
  - `Visemes` holds the key-set test of the viseme map and the viseme sequence builder `get_visemes`.
- **Words.**
  - The `Word` record and the segment-flattening loop of `get_words_data` are in `Words`.
  - Per-word phoneme data is a datatype: `Text` is the string the phonemizer gives an English word. `Grouped` is the per-syllable symbol lists of a Chinese word.
- **Helpers.** `calc_frame` (banker's rounding of `seconds * fps`) and `remove_lang_codes` are in `Utils`.
- **`calc_frame_data` as specification functions.**
  - `Placement` covers one syllable: `place_syllable_visemes` with `get_viseme_weight` and `pick_primary_vowel`.
  - `Schedule` covers the word loop, as the sequence of `add_to_output` calls it makes and the cursor it leaves.
  - `Keyframes` covers the output dictionary, the statistics, the sorting, the normalisation pass and the text.
- **`calc_frame_data` as a program.**
  - The closure state is the class `Scheduler.FrameScheduler`. It holds the `output` dictionary, the statistics counts, and a ghost log of every call.
  - The nested helpers and the loops are its methods, each proved equal to the specification functions.
  - `Scheduler.CalcFrameData` puts the pieces together.
- **End-to-end promises.** `FrameData` proves what the final text promises.

Time is a `real` number of seconds. The frame rate (the global `frame`) and `silence_seconds` are parameters. The hold `min_hold_frames` is the constant 3. The phoneme table is a parameter `table` of the scheduler functions. Their precondition `IsVisemeTable(table)` is met by `phoneme_to_viseme_arkit_v2` (`Visemes.ArkitIsVisemeTable`).

Two behaviours of the code are worth naming:

- **Repeated frames.** A second `add_to_output` at a frame already in the dictionary overwrites the stored id: the last writer wins, as the dict assignment at main.py:164 does.
- **Empty syllable groups.** `num_syls` counts every syllable group, and a group whose viseme list comes out empty keeps its time window (main.py:287-298).

## Model

| member | source | states |
|---|---|---|
| Utils.Round | main.py:36 | Python's `round`: the result is within one half of its argument, and an exact half goes to the even neighbour |
| Utils.RoundMonotone | main.py:36 | rounding never decreases when its argument grows |
| Utils.CalcFrameMonotone | main.py:35-36 | `calc_frame` is monotone for a non-negative frame rate: a later instant never gets an earlier frame |
| Utils.LaterFrameMeansLaterTime | main.py:35-36 | a strictly later frame comes only from a strictly later instant |
| Utils.RemoveAll | main.py:31 | `str.replace(tag, "")` never makes the text longer |
| Utils.RemoveAllUnchangedIff | main.py:31 | replacing leaves the text unchanged exactly when the tag does not occur in it |
| Utils.RemoveLangCodes | main.py:28-32 | the loop strips every `(en)` and then every `(cmn)` (each a single non-overlapping pass); the result is never longer, and is the input itself when neither tag occurs |
| Words.FlattenAppend | main.py:58-61 | flattening the segment list distributes over concatenation |
| Words.FlattenLayout | main.py:58-61 | word `j` of segment `i` sits at the segment's offset plus `j`, between that offset and the next segment's |
| Words.FlattenLength | main.py:58-61 | the flat list holds exactly as many words as the segments hold together |
| Words.GetWordsData | main.py:55-63 | the loop yields the flattened words in segment order, and the text list is aligned with them entry by entry |
| Visemes.ReadVisemeMap | main.py:70-91 | the map is accepted exactly when its key set is the fifteen viseme names; an accepted map is returned unchanged, a rejected one raises `A wrong in <file>` |
| Visemes.MissingKeyRejected | main.py:70-87 | a map without `CH` is rejected |
| Visemes.ExtraKeyRejected | main.py:70-87 | a map with a key outside the fifteen names is rejected |
| Visemes.TableLookupCannotMiss | main.py:164 | once a map is accepted, every viseme of the phoneme table has an id in it, and none is `sli` |
| Visemes.ArkitIsVisemeTable | phoneme_to_viseme.py:4-99 | the table maps only to viseme names, never to `sli` or the marker `UNK`, as the scheduler requires |
| Visemes.KnownVisemes | main.py:138-145 | the known visemes are at most as many as the symbols, and each is a value of the table |
| Visemes.Without | main.py:142-143 | removing a marker leaves none of it and never lengthens the list |
| Visemes.FirstIndex | main.py:143 | `list.remove` takes out the first occurrence: the index holds the marker, and nothing before it does |
| Visemes.RemoveOneKeepsRest | main.py:142-143 | taking out one occurrence leaves the same list once every occurrence is gone, which is why the while loop ends with all markers removed |
| Visemes.WithoutAbsent | main.py:142 | with no marker present the loop leaves the list alone |
| Visemes.LookupsWithoutMarker | main.py:139-143 | when no table value is `UNK`, striking the markers from the lookups leaves exactly the known visemes in input order |
| Visemes.GetVisemes | main.py:138-145 | the method returns the table value of every symbol that is a key, in input order, and drops the rest |
| Visemes.KnownVisemesAppend | main.py:138-145 | the builder works symbol by symbol and keeps order: the visemes of a concatenation are the concatenation of the visemes |
| Visemes.KnownVisemesKeepsAll | main.py:138-145 | nothing is dropped exactly when every symbol is a key of the table |
| Visemes.TextNeverShows | main.py:306-309 | a viseme reached only through multi-character keys never comes out of a phoneme string |
| Visemes.EnglishTextNeverShowsCH | main.py:306-309 | `CH` never comes out of an English phoneme string |
| PhonemeToViseme.GroupVisemeIsNamed | phoneme_to_viseme.py:10-98 | every heading's viseme is a consonant or vowel viseme name, never `sli` or `UNK` |
| PhonemeToViseme.TableValues | phoneme_to_viseme.py:4-99 | every value of the table is one of the fourteen speaking visemes, so no phoneme maps to `sli` (the silence entries are commented out) |
| PhonemeToViseme.NoSymbolListedTwice | phoneme_to_viseme.py:4-99 | the table has 74 entries, one per listed symbol, so no entry of the literal is overridden by a later one |
| PhonemeToViseme.ConsonantGroupSizes | phoneme_to_viseme.py:10-61 | each consonant heading lists the number of distinct symbols the literal shows |
| PhonemeToViseme.VowelGroupSizes | phoneme_to_viseme.py:62-98 | each vowel heading lists the number of distinct symbols the literal shows |
| PhonemeToViseme.ConsonantCount | phoneme_to_viseme.py:10-61 | the consonant headings list 42 distinct symbols |
| PhonemeToViseme.VowelCount | phoneme_to_viseme.py:62-98 | the vowel headings list 32 distinct symbols |
| PhonemeToViseme.ConsonantsAreNotVowels | phoneme_to_viseme.py:10-98 | no symbol is listed under both a consonant and a vowel heading |
| PhonemeToViseme.ClosedLipsViseme | phoneme_to_viseme.py:10-13 | the closed-lips symbols map to `PP` |
| PhonemeToViseme.TeethOnLipViseme | phoneme_to_viseme.py:14-16 | the teeth-on-lip symbols map to `FF` |
| PhonemeToViseme.TongueBetweenTeethViseme | phoneme_to_viseme.py:17-19 | the tongue-between-teeth symbols map to `TH` |
| PhonemeToViseme.AffricatesViseme | phoneme_to_viseme.py:20-22 | the affricates map to `CH` |
| PhonemeToViseme.NarrowFricativesViseme | phoneme_to_viseme.py:23-25 | the narrow fricatives map to `SS` |
| PhonemeToViseme.ShSoundsViseme | phoneme_to_viseme.py:26-30 | the sh-sounds map to `SS` |
| PhonemeToViseme.RLikeViseme | phoneme_to_viseme.py:31-37 | the r-like symbols map to `RR` |
| PhonemeToViseme.DefaultConsonantsViseme | phoneme_to_viseme.py:38-51 | the default consonants map to `DD` |
| PhonemeToViseme.VelarStopsViseme | phoneme_to_viseme.py:52-54 | the velar stops map to `kk` |
| PhonemeToViseme.NasalsAndLViseme | phoneme_to_viseme.py:55-61 | the nasals and `l` map to `nn` |
| PhonemeToViseme.OpenVowelsViseme | phoneme_to_viseme.py:62-72 | the open vowels map to `aa` |
| PhonemeToViseme.MidFrontVowelsViseme | phoneme_to_viseme.py:73-78 | the mid front vowels map to `E` |
| PhonemeToViseme.HighFrontVowelsViseme | phoneme_to_viseme.py:79-84 | the high front vowels map to `ih` |
| PhonemeToViseme.MidBackVowelsViseme | phoneme_to_viseme.py:85-91 | the mid back vowels map to `oh` |
| PhonemeToViseme.HighBackVowelsViseme | phoneme_to_viseme.py:92-98 | the high back vowels, `w` among them, map to `ou` |
| PhonemeToViseme.ConsonantHeadings | phoneme_to_viseme.py:10-61 | every key under a consonant heading maps to a non-vowel viseme, which weighs 1.0 |
| PhonemeToViseme.VowelHeadings | phoneme_to_viseme.py:62-98 | every key under a vowel heading maps into {aa, E, ih, oh, ou}, which weighs 2.0; `w` maps to `ou` |
| PhonemeToViseme.BilabialsAndSibilants | phoneme_to_viseme.py:11-30 | m, b and p map to `PP`; s, z, ʃ, ʒ, ɕ and ʑ map to `SS` |
| PhonemeToViseme.AffricatesAreTwoCharacters | phoneme_to_viseme.py:20-22 | every key mapping to `CH` is two characters long |
| Placement.FirstVowelOr | main.py:170-173 | when nothing before the position is a vowel, the scan returns the fallback when the list has no vowel, and otherwise the first vowel viseme from the position on |
| Placement.PrimaryVowel | main.py:168-173 | `pick_primary_vowel` returns `sli` for an empty list; otherwise an element of the list that is its first vowel, or else the first element when the list has no vowel |
| Placement.PrimaryVowelNeverSilence | main.py:173 | for a non-empty list without `sli` the `sli` fallback is never returned |
| Placement.PrefixWeightBounds | main.py:158-161 | the weights of the first `j` visemes sum to between `j` and `2j` |
| Placement.TotalWeightPositive | main.py:206-208 | the total weight is at least the number of visemes, so the `total_weight == 0` fallback is dead for a non-empty list |
| Placement.PlannedShape | main.py:214-238 | the weighted loop places a prefix of the visemes in order, none past the end frame, each at least the hold after the one before |
| Placement.PlannedStops | main.py:230-232 | the loop stops early only because the next viseme's frame would lie past the end frame |
| Placement.PlannedFrames | main.py:221-228 | the first viseme lands on its candidate frame, and each later one on the frame of its weighted start time, raised to the hold after the one before |
| Placement.PlannedFromStart | main.py:214-238 | the weighted loop from `effective_start` in a window with room places the first viseme on `effective_start`, then a prefix of the rest in order, each the hold after the one before, none past the end frame, the cursor on the last one |
| Placement.NarrowWindow | main.py:183-199 | an empty list places nothing and keeps the cursor; a narrow window places exactly one event, the primary vowel at `effective_start`, and returns that frame |
| Placement.WideWindowHasDuration | main.py:202-204 | past the narrow check the syllable lasts, so the `syl_duration <= 0` fallback is dead |
| Placement.WideIsPlanned | main.py:202-211 | a wide window is placed by the weighted loop with the real total weight |
| Placement.WidePlacement | main.py:210-238 | wide placement shows a non-empty prefix of the list in order, the first at `effective_start`, each later one at least the hold after the previous one, all within the end frame; it returns the last placed frame, which is not before the old cursor |
| Placement.WideFrames | main.py:214-232 | each later viseme lands on the frame of `syl_start` plus its weighted time share, raised to the hold after the previous one; the first viseme left out is left out because its frame passes the end frame |
| Placement.PlaceSyllableForward | main.py:175-238 | a syllable's events lie between the old and the new cursor in non-decreasing order, and show only visemes of the list |
| Schedule.SyllablesForward | main.py:293-303 | the syllable loop moves forward from the cursor and shows only table visemes |
| Schedule.WordBodyForward | main.py:272-315 | one word's own events move forward from the cursor and show only table visemes |
| Schedule.WordStepForward | main.py:249-315 | one turn of the word loop moves forward; its silences lie at least the hold after the cursor |
| Schedule.WordsFromForward | main.py:246-315 | the word loop never moves the cursor back, emits every event at or after the cursor, and leaves the cursor at or after every event |
| Schedule.ScheduleOrdered | main.py:240-321 | all calls come at non-negative, non-decreasing frames and show a table viseme or `sli`; with words, the last call is the closing `sli`, at least the hold after every earlier call |
| Schedule.LeadingSilence | main.py:241-242 | `sli` is placed at frame 0 exactly when there are words and the first starts after 0.01 s |
| Schedule.WordStepSilences | main.py:251-268 | a turn of the word loop shows a silence exactly when its gap step places one, and that silence comes first |
| Schedule.FirstWordSilence | main.py:252-259 | the first word is preceded by `sli` exactly when it starts after `silence_seconds`, at `max(cursor + hold, calc_frame(start - 0.03))` |
| Schedule.GapWordSilence | main.py:260-268 | a later word is preceded by `sli` exactly when its gap is at least `silence_seconds`, at `calc_frame(prev.end + 0.02)` raised to the cursor plus the hold |
| Schedule.ZeroDurationWord | main.py:270-274 | a word with `end <= start` places at most its gap silence; the cursor is still raised to the word's start frame |
| Schedule.SkipEmptyGroups | main.py:294-296 | groups without known symbols place nothing and pass the cursor on |
| Schedule.EmptyGroupsKeepWindows | main.py:293-299 | a group keeps the window of its original index even when every group before it is empty |
| Schedule.SyllablesSplit | main.py:293-303 | the group loop from group `i` is the groups before `k`, then the groups from `k` on, continuing from the cursor the first part leaves |
| Schedule.SyllablesStep | main.py:293-303 | one turn of the group loop adds group `k`'s part, and the later groups continue from its cursor |
| Schedule.GroupWindow | main.py:293-303 | whatever the earlier groups hold, group `k`'s events come right after theirs and are its known visemes placed in window `k` (from `k` to `k + 1` syllable durations after the start) from the cursor they leave; an empty group adds nothing |
| Schedule.LastWindowEndsWord | main.py:291-299 | `g` windows of a `g`-th of the duration each end with the word |
| Schedule.GroupedWordWindows | main.py:284-303 | a grouped word's body gives every group `k`, empty ones included, its own window of `duration / num_syls`, placed right after groups `0` to `k - 1` from the cursor they leave; the last window ends with the word |
| Keyframes.StoreKeys | main.py:163-164 | the dictionary holds exactly the frames some call used |
| Keyframes.StoreLastWriter | main.py:164 | a frame holds the id of the last call that used it |
| Keyframes.StoreOverwritesLatest | main.py:163-164 | with non-decreasing call frames, a call can only land on a used frame when it is the previous call's frame |
| Keyframes.TallyCounts | main.py:165-166 | the statistics count every call per viseme, overwritten ones included |
| Keyframes.SortedItemsEntries | main.py:324 | sorting lists only entries of the dictionary, as many as it has |
| Keyframes.SortedItemsIncreasing | main.py:324 | the sorted entries have strictly increasing frames |
| Keyframes.SortedItemsComplete | main.py:324 | the sorted entries cover every frame of the dictionary |
| Keyframes.SortedLastIsLatest | main.py:324 | a frame the hold after all others comes last in the sorted entries |
| Keyframes.LatestIsLast | main.py:324 | in increasing keyframes listing a dictionary's entries, the frame the hold after all others is the last, with its id |
| Keyframes.NormalizedSpaced | main.py:325-332 | the kept keyframes are the hold apart with changing ids, there are no more of them than the input, and the first input keyframe is always kept |
| Keyframes.NormalizedSubsequence | main.py:325-332 | the kept keyframes are the input with some entries left out |
| Keyframes.NormalizedElements | main.py:325-332 | every kept keyframe is an input keyframe |
| Keyframes.NormalizedFixedIff | main.py:325-332 | the pass changes nothing exactly when the input is already spaced |
| Keyframes.NormalizedIdempotent | main.py:325-332 | running the pass twice gives what running it once gives |
| Keyframes.NormalizedKeepsLastId | main.py:325-332 | when the last input keyframe comes the hold after all the others, the output ends with its id |
| Keyframes.LastCallIsLastKeyframe | main.py:318-332 | a last call the hold after every other call decides the id of the last keyframe written |
| Keyframes.Normalize | main.py:325-332 | the loop builds exactly the normalised keyframes |
| Keyframes.NatToString | main.py:334 | a non-negative number is written as decimal digits that read back as the number; a leading `0` occurs only in `"0"` itself |
| Keyframes.IntToString | main.py:334 | a number is written without spaces or newlines, as an optional minus sign and digits that read back as the number; a minus sign is followed by a non-zero digit, and a leading `0` occurs only in `"0"` |
| Keyframes.Line | main.py:334 | a keyframe line is non-empty and has no newline |
| Keyframes.LineInjective | main.py:334 | the line `f"{f} {v}"` determines the keyframe: different keyframes give different lines |
| Keyframes.RenderLines | main.py:334 | the text is empty exactly when there are no keyframes; it holds one newline fewer than keyframes and ends with the last keyframe's line |
| Keyframes.RenderSplits | main.py:334 | cutting the text at its newlines gives back the line of every keyframe, in order |
| Keyframes.LinesAt | main.py:334 | line `i` of that list is the line `f"{f} {v}"` of keyframe `i` |
| Keyframes.SplitAfterNewline | main.py:334 | a newline followed by a piece without newlines adds that piece as the last line |
| Scheduler.FrameScheduler.constructor | main.py:153-154 | the state starts with an empty dictionary, empty statistics and no calls |
| Scheduler.FrameScheduler.AddToOutput | main.py:163-166 | one call stores the viseme's id at the frame, replacing what was there, and counts the call when statistics are on |
| Scheduler.FrameScheduler.PlaceSyllableVisemes | main.py:175-238 | the method makes exactly the calls of one syllable's placement and returns its cursor |
| Scheduler.FrameScheduler.PlaceWeighted | main.py:210-238 | the weighted loop makes exactly the calls of the weighted placement and returns its last frame |
| Scheduler.FrameScheduler.PlaceGapSilence | main.py:251-268 | the silence step makes the gap silence call, if any, and returns the cursor after it |
| Scheduler.FrameScheduler.PlaceSyllableGroups | main.py:293-303 | the syllable loop makes exactly the calls of all groups in their windows |
| Scheduler.FrameScheduler.PlaceGroup | main.py:294-303 | one turn of the syllable loop leaves exactly the calls of the remaining groups to make |
| Scheduler.FrameScheduler.PlaceWordBody | main.py:276-315 | a lasting word makes the calls of its groups, or of its whole span as one syllable |
| Scheduler.FrameScheduler.PlaceWord | main.py:247-315 | one turn of the word loop: silence step, clamp to the word's start frame, zero-duration skip, then the word's calls |
| Scheduler.FrameScheduler.PlaceAll | main.py:240-321 | from a fresh state the calls are exactly those the schedule lists: leading silence, word loop from frame 0, closing silence |
| Scheduler.CalcFrameData | main.py:148-344 | the text is the sorted, normalised dictionary those calls fill, one line per keyframe, and the statistics are their counts |
| FrameData.ScheduleMapped | main.py:164 | every call shows a viseme that an accepted map has an id for |
| FrameData.EmptyTextIffNoWords | main.py:318-334 | the text is empty exactly when there are no words |
| FrameData.LastLineIsSilence | main.py:318-334 | with words, the text ends with a line carrying the id of `sli` |
| FrameData.KeyframesSpacedSubsequence | main.py:324-332 | the written keyframes have strictly increasing frames, the hold apart, with changing ids; they are the sorted dictionary with entries left out, its first entry kept; the dictionary holds one entry per frame used |
| FrameData.OverwriteOnlyLatest | main.py:244-321 | a call lands on a frame already in the dictionary only when that is the previous call's frame, where it overwrites the id |

## Left out

- File and JSON I/O are not modelled: `open` and `json.load` in `get_words_data` and `read_viseme_map`, and `write_to_file`. The transcript segments and the loaded map are parameters. The file name is only used in the error message.
- Logging is not modelled, nor is the `pprint` of the statistics sorted by count. `Scheduler.CalcFrameData` returns the counts dictionary instead of printing it.
- `setup_argparse` and `main` are not modelled; they are command-line handling. The frame rate and `silence_seconds` are parameters. `min_gap_seconds` is parsed but never read by the scheduler, so it does not appear.
- `get_phonemes` is not modelled. It calls pypinyin, espeak through phonemizer, and `pinyin_to_phoneme`, and none of these is part of this model. Its per-word output is the input datatype `PhonemeData`.
- `get_viseme_priority`, `visemes_priority` and `UNSKIPPABLE_VISEMES` are not modelled; main.py never uses them.
- Seconds are exact reals, not IEEE-754 floats. `calc_frame` rounds the exact product. No lemma asserts a frame number that depends on float error.
- The lemmas that use monotonicity of `calc_frame` assume a frame rate of at least 0. The program's default rate is 30 (main.py:361), but it takes `--frame` without checking it (main.py:405), so a zero or negative rate is accepted there; the lemmas say nothing about such a rate, and the methods need no such requirement.
- The scheduler requires at least as many phoneme entries as words. With fewer, `phonemes[index]` raises `IndexError`, and the model does not reproduce the crash.
- A flat phoneme entry that is a list of strings is not representable. `get_phonemes` never produces one: an English word gives a string, and a Chinese word gives a (possibly empty) list of lists. An empty list of lists takes the flat path and yields nothing, as in the code.
