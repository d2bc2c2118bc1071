/** The small helpers of main.py: turning seconds into an animation frame
    number, and stripping the language tags that the phonemizer leaves in its
    output. */
module Utils {

  /** The language tags `SOME_ISO_639_3`, in the order `remove_lang_codes`
      strips them. */
  const LangCodes: seq<string> := ["en", "cmn"]

  function Max(a: int, b: int): int { if a < b then b else a }

  /** The outcome of an operation that raises an exception on bad input. */
  datatype Result<T> = Ok(value: T) | Err(message: string)

  // ---------------------------------------------------------------------
  // Time quantisation
  // ---------------------------------------------------------------------

  /** Python's built-in `round` on one number: nearest integer, and at an
      exact half the even neighbour ("banker's rounding"). */
  function Round(x: real): (n: int)
    ensures x - 0.5 <= n as real <= x + 0.5
    ensures (n as real - x == 0.5 || x - n as real == 0.5) ==> n % 2 == 0
  {
    var f := (x + 0.5).Floor;
    if f as real == x + 0.5 && f % 2 == 1 then f - 1 else f
  }

  /** `calc_frame`: the frame shown at time `seconds` when the animation runs
      at `fps` frames per second (the global `frame` of main.py). */
  function CalcFrame(seconds: real, fps: int): int
  {
    Round(Scaled(seconds, fps))
  }

  /** The instant `seconds` measured in frames. */
  function Scaled(seconds: real, fps: int): real
  {
    seconds * (fps as real)
  }

  lemma ScaledMonotone(a: real, b: real, fps: int)
    requires a <= b && fps >= 0
    ensures Scaled(a, fps) <= Scaled(b, fps)
  {
    MulMonotone(a, b, fps as real);
  }

  /** Rounding never decreases when its argument grows. */
  lemma RoundMonotone(x: real, y: real)
    requires x <= y
    ensures Round(x) <= Round(y)
  {
    var fx, fy := (x + 0.5).Floor, (y + 0.5).Floor;
    assert fx <= fy;
    if fx == fy && fy as real == y + 0.5 {
      // y is a tie, so x, lying in the same unit interval below it, is y itself
      assert x == y;
    }
  }

  /** `calc_frame` is monotone in time, for any non-negative frame rate: a
      later instant never gets an earlier frame. */
  lemma CalcFrameMonotone(a: real, b: real, fps: int)
    requires a <= b && fps >= 0
    ensures CalcFrame(a, fps) <= CalcFrame(b, fps)
  {
    ScaledMonotone(a, b, fps);
    RoundMonotone(Scaled(a, fps), Scaled(b, fps));
  }

  /** The contrapositive used by the scheduler: a strictly later frame can only
      come from a strictly later instant. */
  lemma LaterFrameMeansLaterTime(a: real, b: real, fps: int)
    requires fps >= 0 && CalcFrame(a, fps) < CalcFrame(b, fps)
    ensures a < b
  {
    if b <= a {
      CalcFrameMonotone(b, a, fps);
    }
  }

  lemma MulMonotone(a: real, b: real, c: real)
    requires a <= b && c >= 0.0
    ensures a * c <= b * c
  {
    assert b * c - a * c == (b - a) * c;
  }

  // ---------------------------------------------------------------------
  // Language-tag removal
  // ---------------------------------------------------------------------

  /** `pat` occurs somewhere inside `s`. */
  ghost predicate Occurs(pat: string, s: string)
  {
    exists i :: 0 <= i && OccursAt(pat, s, i)
  }

  /** `pat` occurs in `s` starting at index `i`. */
  predicate OccursAt(pat: string, s: string, i: int)
  {
    0 <= i && i + |pat| <= |s| && s[i..i + |pat|] == pat
  }

  /** Python's `s.replace(pat, "")`: scan from the left, and delete every
      occurrence of `pat` that does not overlap an occurrence already
      deleted. */
  function RemoveAll(s: string, pat: string): (r: string)
    requires |pat| > 0
    ensures |r| <= |s|
    decreases |s|
  {
    if |s| < |pat| then s
    else if s[..|pat|] == pat then RemoveAll(s[|pat|..], pat)
    else [s[0]] + RemoveAll(s[1..], pat)
  }

  /** An occurrence in the tail of `s` is an occurrence in `s`. */
  lemma OccursInTail(pat: string, s: string)
    requires |s| > 0
    ensures Occurs(pat, s[1..]) ==> Occurs(pat, s)
  {
    if Occurs(pat, s[1..]) {
      var i :| 0 <= i && OccursAt(pat, s[1..], i);
      assert s[i + 1..i + 1 + |pat|] == s[1..][i..i + |pat|];
      assert OccursAt(pat, s, i + 1);
    }
  }

  /** Removal leaves the text alone exactly when the pattern does not occur. */
  lemma {:induction false} RemoveAllUnchangedIff(s: string, pat: string)
    requires |pat| > 0
    ensures RemoveAll(s, pat) == s <==> !Occurs(pat, s)
    decreases |s|
  {
    if |s| < |pat| {
    } else if s[..|pat|] == pat {
      assert OccursAt(pat, s, 0);
      assert |RemoveAll(s[|pat|..], pat)| <= |s| - |pat| < |s|;
    } else {
      var t := s[1..];
      RemoveAllUnchangedIff(t, pat);
      assert RemoveAll(s, pat) == [s[0]] + RemoveAll(t, pat);
      if Occurs(pat, s) {
        var i :| 0 <= i && OccursAt(pat, s, i);
        assert i != 0;
        assert t[i - 1..i - 1 + |pat|] == pat;
        assert OccursAt(pat, t, i - 1);
        assert Occurs(pat, t);
        assert RemoveAll(t, pat) != t;
        assert RemoveAll(s, pat)[1..] == RemoveAll(t, pat);
      } else {
        OccursInTail(pat, s);
        assert RemoveAll(t, pat) == t;
        assert [s[0]] + t == s;
      }
    }
  }

  /** The tags removed by `remove_lang_codes`, one `(code)` per language in
      `codes`, each stripped from the result of stripping the previous ones. */
  function StripTags(text: string, codes: seq<string>): string
    decreases |codes|
  {
    if codes == [] then text
    else RemoveAll(StripTags(text, codes[..|codes| - 1]), "(" + codes[|codes| - 1] + ")")
  }

  /** `remove_lang_codes`: strips every `(en)` tag and then every `(cmn)` tag
      from a phonemizer output string. */
  method RemoveLangCodes(text: string) returns (t: string)
    ensures t == RemoveAll(RemoveAll(text, "(en)"), "(cmn)")
    ensures |t| <= |text|
    ensures !Occurs("(en)", text) && !Occurs("(cmn)", text) ==> t == text
  {
    t := text;
    for i := 0 to |LangCodes|
      invariant t == StripTags(text, LangCodes[..i])
    {
      assert LangCodes[..i + 1][..i] == LangCodes[..i];
      t := RemoveAll(t, "(" + LangCodes[i] + ")");
    }
    assert LangCodes[..2] == LangCodes;
    assert LangCodes[..2][..1] == ["en"];
    assert LangCodes[..1][..0] == [];
    assert "(" + LangCodes[0] + ")" == "(en)";
    assert "(" + LangCodes[1] + ")" == "(cmn)";
    assert StripTags(text, ["en"]) == RemoveAll(text, "(en)");
    assert StripTags(text, LangCodes) == RemoveAll(RemoveAll(text, "(en)"), "(cmn)");
    RemoveAllUnchangedIff(text, "(en)");
    RemoveAllUnchangedIff(text, "(cmn)");
  }
}
