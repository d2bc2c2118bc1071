/** The timed words of main.py: the `Word` record, the flattening of a
    transcript's segments into one word list (`get_words_data`), and the
    per-word phoneme data the scheduler reads. */
module Words {

  /** One word entry of a transcript segment: its text and its start and end
      in seconds. */
  datatype TranscriptWord = TranscriptWord(word: string, start: real, end: real)

  /** One segment of the transcript. */
  datatype Segment = Segment(words: seq<TranscriptWord>)

  /** `Word`: a word with its start and end time in seconds. */
  datatype Word = Word(text: string, startTime: real, endTime: real)

  /** The phoneme data of one word. English text comes out of the phonemizer
      as one string per word; Chinese text as one list of phonetic symbols
      per syllable. */
  datatype PhonemeData = Text(text: string) | Grouped(syllables: seq<seq<string>>)

  /** The scheduler's test for syllable groups: a non-empty list of lists.
      An empty list is not grouped. */
  predicate IsGrouped(d: PhonemeData)
  {
    d.Grouped? && |d.syllables| > 0
  }

  function ToWord(w: TranscriptWord): Word
  {
    Word(w.word, w.start, w.end)
  }

  /** The words of one segment, in order. */
  function SegmentWords(s: Segment): (r: seq<Word>)
    ensures |r| == |s.words|
    ensures forall j | 0 <= j < |r| :: r[j] == ToWord(s.words[j])
  {
    seq(|s.words|, j requires 0 <= j < |s.words| => ToWord(s.words[j]))
  }

  /** The words of all segments, segment after segment. */
  function Flatten(segments: seq<Segment>): seq<Word>
  {
    if segments == [] then []
    else Flatten(segments[..|segments| - 1]) + SegmentWords(segments[|segments| - 1])
  }

  /** Where the words of segment `i` begin in the flattened list. */
  function Offset(segments: seq<Segment>, i: nat): nat
    requires i <= |segments|
  {
    |Flatten(segments[..i])|
  }

  /** Flattening distributes over concatenation of the segment lists. */
  lemma {:induction false} FlattenAppend(a: seq<Segment>, b: seq<Segment>)
    ensures Flatten(a + b) == Flatten(a) + Flatten(b)
    decreases |b|
  {
    if b == [] {
      assert a + b == a;
    } else {
      var c, last := b[..|b| - 1], b[|b| - 1];
      assert (a + b)[..|a + b| - 1] == a + c;
      assert (a + b)[|a + b| - 1] == last;
      FlattenAppend(a, c);
      calc {
        Flatten(a + b);
        Flatten(a + c) + SegmentWords(last);
        Flatten(a) + Flatten(c) + SegmentWords(last);
        Flatten(a) + (Flatten(c) + SegmentWords(last));
        Flatten(a) + Flatten(b);
      }
    }
  }

  /** The order-preserving layout: the `j`-th word of segment `i` sits at
      `Offset(segments, i) + j`, and the list holds nothing else. */
  lemma {:induction false} FlattenLayout(segments: seq<Segment>, i: nat, j: nat)
    requires i < |segments| && j < |segments[i].words|
    ensures Offset(segments, i) + j < Offset(segments, i + 1) <= |Flatten(segments)|
    ensures Flatten(segments)[Offset(segments, i) + j] == ToWord(segments[i].words[j])
    decreases |segments|
  {
    var n := |segments|;
    var init := segments[..n - 1];
    var f := Flatten(segments);
    assert f == Flatten(init) + SegmentWords(segments[n - 1]);
    if i == n - 1 {
      assert segments[..i + 1] == segments;
      assert init == segments[..i];
      var a := Flatten(init);
      assert f[|a| + j] == SegmentWords(segments[i])[j];
    } else {
      FlattenLayout(init, i, j);
      assert init[..i] == segments[..i] && init[..i + 1] == segments[..i + 1] && init[i] == segments[i];
      assert Offset(init, i) == Offset(segments, i) && Offset(init, i + 1) == Offset(segments, i + 1);
      var k := Offset(segments, i) + j;
      assert f[k] == Flatten(init)[k];
    }
  }

  /** Every word comes from some segment: the length is the total count. */
  lemma {:induction false} FlattenLength(segments: seq<Segment>)
    ensures |Flatten(segments)| == WordCount(segments)
    decreases |segments|
  {
    if segments != [] {
      FlattenLength(segments[..|segments| - 1]);
    }
  }

  function WordCount(segments: seq<Segment>): nat
  {
    if segments == [] then 0
    else WordCount(segments[..|segments| - 1]) + |segments[|segments| - 1].words|
  }

  /** The flattening loop of `get_words_data`: every word of every segment,
      in order, together with the list of their texts. */
  method GetWordsData(segments: seq<Segment>) returns (words: seq<Word>, wordsOnlyText: seq<string>)
    ensures words == Flatten(segments)
    ensures |wordsOnlyText| == |words|
    ensures forall k | 0 <= k < |words| :: wordsOnlyText[k] == words[k].text
  {
    words, wordsOnlyText := [], [];
    for i := 0 to |segments|
      invariant words == Flatten(segments[..i])
      invariant |wordsOnlyText| == |words|
      invariant forall k | 0 <= k < |words| :: wordsOnlyText[k] == words[k].text
    {
      var segment := segments[i];
      for j := 0 to |segment.words|
        invariant words == Flatten(segments[..i]) + SegmentWords(segment)[..j]
        invariant |wordsOnlyText| == |words|
        invariant forall k | 0 <= k < |words| :: wordsOnlyText[k] == words[k].text
      {
        var word := segment.words[j];
        assert SegmentWords(segment)[..j + 1] == SegmentWords(segment)[..j] + [ToWord(word)];
        wordsOnlyText := wordsOnlyText + [word.word];
        words := words + [Word(word.word, word.start, word.end)];
      }
      assert segments[..i + 1][..i] == segments[..i];
      assert SegmentWords(segment)[..|segment.words|] == SegmentWords(segment);
    }
    assert segments[..|segments|] == segments;
  }
}
