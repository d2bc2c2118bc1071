/** What `calc_frame_data` in main.py does with its `add_to_output` calls:
    the frame-to-id dictionary they fill (a later call at a used frame
    overwrites it), the per-viseme call counts, and the final pass that sorts
    the frames, drops repeats and crowded frames, and writes one
    `"frame id"` line per keyframe. */
module Keyframes {
  import P = Placement

  type Event = P.Event

  /** A keyframe of the output: a frame and a viseme id. */
  type Keyframe = (int, int)

  /** Every event shows a viseme the map has an id for. */
  predicate Mapped(vmap: map<string, int>, es: seq<Event>)
  {
    forall j | 0 <= j < |es| :: es[j].viseme in vmap
  }

  // ---------------------------------------------------------------------
  // The output dictionary and the statistics
  // ---------------------------------------------------------------------

  /** The dictionary `output` after the calls `es`: each call stores the
      viseme's id at its frame, replacing whatever was stored there. */
  function Store(vmap: map<string, int>, es: seq<Event>): map<int, int>
    requires Mapped(vmap, es)
    decreases |es|
  {
    if es == [] then map[]
    else
      var e := es[|es| - 1];
      Store(vmap, es[..|es| - 1])[e.frame := vmap[e.viseme]]
  }

  /** The frames of the calls `es`. */
  ghost function Frames(es: seq<Event>): set<int>
  {
    set j | 0 <= j < |es| :: es[j].frame
  }

  /** The dictionary holds exactly the frames that some call used. */
  lemma {:induction false} StoreKeys(vmap: map<string, int>, es: seq<Event>)
    requires Mapped(vmap, es)
    ensures Store(vmap, es).Keys == Frames(es)
    decreases |es|
  {
    if es != [] {
      var pre := es[..|es| - 1];
      StoreKeys(vmap, pre);
      forall f | f in Frames(es)
        ensures f in Frames(pre) + {es[|es| - 1].frame}
      {
        var j :| 0 <= j < |es| && es[j].frame == f;
        if j < |pre| {
          assert pre[j] == es[j];
        }
      }
      forall f | f in Frames(pre)
        ensures f in Frames(es)
      {
        var j :| 0 <= j < |pre| && pre[j].frame == f;
        assert es[j] == pre[j];
      }
      assert es[|es| - 1].frame in Frames(es);
    }
  }

  /** The last writer wins: at the frame of call `j`, no later call of which
      uses that frame, the dictionary holds the id of call `j`'s viseme. */
  lemma {:induction false} StoreLastWriter(vmap: map<string, int>, es: seq<Event>, j: nat)
    requires Mapped(vmap, es) && j < |es|
    requires forall k | j < k < |es| :: es[k].frame != es[j].frame
    ensures es[j].frame in Store(vmap, es) && Store(vmap, es)[es[j].frame] == vmap[es[j].viseme]
    decreases |es|
  {
    if j < |es| - 1 {
      var pre := es[..|es| - 1];
      assert pre[j] == es[j];
      forall k | j < k < |pre|
        ensures pre[k].frame != pre[j].frame
      {
        assert pre[k] == es[k];
      }
      StoreLastWriter(vmap, pre, j);
    }
  }

  /** When the calls come at non-decreasing frames, a call can only land on a
      frame already in use if it is the most recent one: overwriting only
      ever replaces the latest keyframe. */
  lemma StoreOverwritesLatest(vmap: map<string, int>, es: seq<Event>, k: nat)
    requires Mapped(vmap, es) && 0 < k < |es|
    requires forall j | 0 < j < |es| :: es[j - 1].frame <= es[j].frame
    requires es[k].frame in Store(vmap, es[..k])
    ensures es[k].frame == es[k - 1].frame
  {
    var pre := es[..k];
    StoreKeys(vmap, pre);
    var j :| 0 <= j < k && pre[j].frame == es[k].frame;
    FramesNonDecreasing(es, j, k - 1);
  }

  lemma {:induction false} FramesNonDecreasing(es: seq<Event>, i: nat, j: nat)
    requires i <= j < |es|
    requires forall k | 0 < k < |es| :: es[k - 1].frame <= es[k].frame
    ensures es[i].frame <= es[j].frame
    decreases j - i
  {
    if i < j {
      FramesNonDecreasing(es, i, j - 1);
    }
  }

  /** The visemes of the calls, in call order. */
  function Visemes(es: seq<Event>): (r: seq<string>)
    ensures |r| == |es| && forall j | 0 <= j < |es| :: r[j] == es[j].viseme
  {
    seq(|es|, j requires 0 <= j < |es| => es[j].viseme)
  }

  /** `vieseme_stats_data` after the calls `es`: each call adds one to the
      count of its viseme. */
  function Tally(es: seq<Event>): map<string, int>
    decreases |es|
  {
    if es == [] then map[]
    else
      var t := Tally(es[..|es| - 1]);
      var v := es[|es| - 1].viseme;
      t[v := (if v in t then t[v] else 0) + 1]
  }

  /** The statistics count every call, overwritten or not: a viseme has an
      entry exactly when some call showed it, and the entry is the number of
      those calls. */
  lemma {:induction false} TallyCounts(es: seq<Event>)
    ensures forall v :: v in Tally(es) <==> v in multiset(Visemes(es))
    ensures forall v | v in Tally(es) :: Tally(es)[v] == multiset(Visemes(es))[v]
    decreases |es|
  {
    if es != [] {
      var pre := es[..|es| - 1];
      TallyCounts(pre);
      assert Visemes(es) == Visemes(pre) + [es[|es| - 1].viseme];
    }
  }

  // ---------------------------------------------------------------------
  // Sorting the dictionary
  // ---------------------------------------------------------------------

  /** A non-empty set has an element. */
  lemma HasElement(s: set<int>)
    requires s != {}
    ensures exists y :: y in s
  {
    if forall y :: y !in s {
      assert false;
    }
  }

  /** Every finite set of frames has a least one. */
  lemma {:induction false} HasLeast(s: set<int>)
    requires s != {}
    ensures exists k :: k in s && forall x | x in s :: k <= x
    decreases |s|
  {
    HasElement(s);
    var x :| x in s;
    if s == {x} {
      assert forall y | y in s :: x <= y;
    } else {
      HasLeast(s - {x});
      var k :| k in s - {x} && forall y | y in s - {x} :: k <= y;
      LeastWithOneMore(s, x, k);
    }
  }

  /** Adding `x` back to a set whose least frame is `k` makes the smaller of
      the two the least. */
  lemma LeastWithOneMore(s: set<int>, x: int, k: int)
    requires x in s && k in s - {x}
    requires forall y | y in s - {x} :: k <= y
    ensures exists j :: j in s && forall y | y in s :: j <= y
  {
    var least := if x < k then x else k;
    forall y | y in s
      ensures least <= y
    {
      if y != x {
        assert y in s - {x};
      }
    }
  }

  /** The least frame of a non-empty set. */
  function Least(s: set<int>): (k: int)
    requires s != {}
    ensures k in s && forall x | x in s :: k <= x
  {
    HasLeast(s);
    var k :| k in s && forall x | x in s :: k <= x;
    k
  }

  /** `sorted(output.items())`: the entries of the dictionary by increasing
      frame. */
  function SortedItems(m: map<int, int>): seq<Keyframe>
    decreases |m|
  {
    if m == map[] then []
    else
      var k := Least(m.Keys);
      [(k, m[k])] + SortedItems(m - {k})
  }

  /** The frames strictly increase along `ks`. */
  ghost predicate Increasing(ks: seq<Keyframe>)
  {
    forall j | 0 < j < |ks| :: ks[j - 1].0 < ks[j].0
  }

  /** Sorting lists entries of the dictionary only, as many as it has. */
  lemma {:induction false} SortedItemsEntries(m: map<int, int>)
    ensures var ks := SortedItems(m);
      && |ks| == |m|
      && (forall i | 0 <= i < |ks| :: ks[i].0 in m && m[ks[i].0] == ks[i].1)
    decreases |m|
  {
    if m != map[] {
      var k := Least(m.Keys);
      var m' := m - {k};
      SortedItemsEntries(m');
      assert m'.Keys == m.Keys - {k};
      var ks := SortedItems(m);
      forall i | 0 < i < |ks|
        ensures ks[i] == SortedItems(m')[i - 1]
      {
      }
    }
  }

  /** Sorting puts the frames in strictly increasing order. */
  lemma {:induction false} SortedItemsIncreasing(m: map<int, int>)
    ensures Increasing(SortedItems(m))
    decreases |m|
  {
    if m != map[] {
      var k := Least(m.Keys);
      var m' := m - {k};
      assert m'.Keys == m.Keys - {k};
      SortedItemsIncreasing(m');
      SortedItemsEntries(m');
      var ks := SortedItems(m);
      var rest := SortedItems(m');
      assert ks == [(k, m[k])] + rest;
      if rest != [] {
        assert rest[0].0 in m' && ks[1] == rest[0];
      }
      forall j | 1 < j < |ks|
        ensures ks[j - 1].0 < ks[j].0
      {
        assert ks[j - 1] == rest[j - 2] && ks[j] == rest[j - 1];
      }
    }
  }

  /** The frames of keyframes `ks`. */
  ghost function FramesOf(ks: seq<Keyframe>): set<int>
  {
    set i | 0 <= i < |ks| :: ks[i].0
  }

  lemma FramesOfCons(x: Keyframe, ks: seq<Keyframe>)
    ensures FramesOf([x] + ks) == {x.0} + FramesOf(ks)
  {
    var xs := [x] + ks;
    forall f | f in FramesOf(xs)
      ensures f in {x.0} + FramesOf(ks)
    {
      var i :| 0 <= i < |xs| && xs[i].0 == f;
      if i > 0 {
        assert ks[i - 1] == xs[i];
      }
    }
    forall f | f in FramesOf(ks)
      ensures f in FramesOf(xs)
    {
      var i :| 0 <= i < |ks| && ks[i].0 == f;
      assert xs[i + 1] == ks[i];
    }
    assert xs[0] == x;
  }

  /** Sorting lists every frame of the dictionary. */
  lemma {:induction false} SortedItemsComplete(m: map<int, int>)
    ensures FramesOf(SortedItems(m)) == m.Keys
    decreases |m|
  {
    if m != map[] {
      var k := Least(m.Keys);
      var m' := m - {k};
      assert m'.Keys == m.Keys - {k};
      SortedItemsComplete(m');
      FramesOfCons((k, m[k]), SortedItems(m'));
    }
  }

  // ---------------------------------------------------------------------
  // Dropping repeats and crowded frames
  // ---------------------------------------------------------------------

  /** The final pass over the sorted keyframes: a keyframe is kept unless it
      repeats the id of the last kept one or comes within the hold of it. */
  function Normalized(ks: seq<Keyframe>): seq<Keyframe>
    decreases |ks|
  {
    if ks == [] then []
    else
      var f := Normalized(ks[..|ks| - 1]);
      var x := ks[|ks| - 1];
      if f != [] && (f[|f| - 1].1 == x.1 || x.0 - f[|f| - 1].0 < P.MinHoldFrames) then f
      else f + [x]
  }

  /** Neighbouring keyframes are the hold apart and show different ids. */
  ghost predicate Spaced(ks: seq<Keyframe>)
  {
    forall j | 0 < j < |ks| :: ks[j].0 - ks[j - 1].0 >= P.MinHoldFrames && ks[j].1 != ks[j - 1].1
  }

  /** Keyframes the hold apart come at strictly increasing frames. */
  lemma SpacedIncreasing(ks: seq<Keyframe>)
    requires Spaced(ks)
    ensures Increasing(ks)
  {
  }

  /** `a` is `b` with some entries left out. */
  ghost predicate Subsequence(a: seq<Keyframe>, b: seq<Keyframe>)
    decreases |b|
  {
    if a == [] then true
    else if b == [] then false
    else if a[|a| - 1] == b[|b| - 1] then Subsequence(a[..|a| - 1], b[..|b| - 1])
    else Subsequence(a, b[..|b| - 1])
  }

  /** The final pass keeps keyframes spaced by the hold with changing ids,
      and always keeps the first. */
  lemma {:induction false} NormalizedSpaced(ks: seq<Keyframe>)
    ensures var f := Normalized(ks);
      && Spaced(f)
      && |f| <= |ks|
      && (ks != [] ==> f != [] && f[0] == ks[0])
    decreases |ks|
  {
    if ks != [] {
      var pre := ks[..|ks| - 1];
      NormalizedSpaced(pre);
      var f := Normalized(pre);
      var x := ks[|ks| - 1];
      if !(f != [] && (f[|f| - 1].1 == x.1 || x.0 - f[|f| - 1].0 < P.MinHoldFrames)) {
        var g := f + [x];
        forall j | 0 < j < |g|
          ensures g[j].0 - g[j - 1].0 >= P.MinHoldFrames && g[j].1 != g[j - 1].1
        {
          if j < |f| {
            assert g[j] == f[j] && g[j - 1] == f[j - 1];
          }
        }
        if pre == [] {
          assert f == [];
        }
      }
    }
  }

  /** The final pass only leaves keyframes out; it keeps the others in their
      order. */
  lemma {:induction false} NormalizedSubsequence(ks: seq<Keyframe>)
    ensures Subsequence(Normalized(ks), ks)
    decreases |ks|
  {
    if ks != [] {
      var pre := ks[..|ks| - 1];
      NormalizedSubsequence(pre);
      var f := Normalized(pre);
      var x := ks[|ks| - 1];
      assert pre + [x] == ks;
      if f != [] && (f[|f| - 1].1 == x.1 || x.0 - f[|f| - 1].0 < P.MinHoldFrames) {
        SubsequenceExtend(f, pre, x);
      } else {
        var g := f + [x];
        assert g[..|g| - 1] == f;
      }
    }
  }

  /** Leaving out a final entry keeps a subsequence a subsequence. */
  lemma {:induction false} SubsequenceExtend(a: seq<Keyframe>, b: seq<Keyframe>, x: Keyframe)
    requires Subsequence(a, b)
    ensures Subsequence(a, b + [x])
    decreases |b|, 1
  {
    var bx := b + [x];
    assert bx[..|bx| - 1] == b;
    if a != [] && a[|a| - 1] == x {
      SubsequenceDrop(a, b);
    }
  }

  /** Leaving out the last entry of a subsequence keeps a subsequence. */
  lemma {:induction false} SubsequenceDrop(a: seq<Keyframe>, b: seq<Keyframe>)
    requires a != [] && Subsequence(a, b)
    ensures Subsequence(a[..|a| - 1], b)
    decreases |b|, 0
  {
    var b' := b[..|b| - 1];
    assert b' + [b[|b| - 1]] == b;
    if a[|a| - 1] != b[|b| - 1] {
      SubsequenceDrop(a, b');
    }
    SubsequenceExtend(a[..|a| - 1], b', b[|b| - 1]);
  }

  /** The final pass changes nothing exactly when the keyframes are already
      spaced: it leaves out only what breaks the spacing. */
  lemma {:induction false} NormalizedFixedIff(ks: seq<Keyframe>)
    ensures Normalized(ks) == ks <==> Spaced(ks)
    decreases |ks|
  {
    NormalizedSpaced(ks);
    if ks != [] && Spaced(ks) {
      var pre := ks[..|ks| - 1];
      SpacedPrefix(ks);
      NormalizedFixedIff(pre);
      if |pre| > 0 {
        assert ks[|ks| - 1].0 - ks[|ks| - 2].0 >= P.MinHoldFrames;
      }
      assert pre + [ks[|ks| - 1]] == ks;
    }
  }

  /** Dropping the last keyframe keeps the rest spaced. */
  lemma SpacedPrefix(ks: seq<Keyframe>)
    requires ks != [] && Spaced(ks)
    ensures Spaced(ks[..|ks| - 1])
  {
    var pre := ks[..|ks| - 1];
    forall j | 0 < j < |pre|
      ensures pre[j].0 - pre[j - 1].0 >= P.MinHoldFrames && pre[j].1 != pre[j - 1].1
    {
      assert pre[j] == ks[j] && pre[j - 1] == ks[j - 1];
    }
  }

  /** Running the final pass twice keeps what one run keeps. */
  lemma NormalizedIdempotent(ks: seq<Keyframe>)
    ensures Normalized(Normalized(ks)) == Normalized(ks)
  {
    NormalizedSpaced(ks);
    NormalizedFixedIff(Normalized(ks));
  }

  /** Every kept keyframe is one of the input's. */
  lemma {:induction false} NormalizedElements(ks: seq<Keyframe>)
    ensures forall i | 0 <= i < |Normalized(ks)| :: Normalized(ks)[i] in ks
    decreases |ks|
  {
    if ks != [] {
      var pre := ks[..|ks| - 1];
      NormalizedElements(pre);
      var f := Normalized(pre);
      forall i | 0 <= i < |f|
        ensures f[i] in ks
      {
        assert f[i] in pre;
        var j :| 0 <= j < |pre| && pre[j] == f[i];
        assert ks[j] == pre[j];
      }
    }
  }

  /** A final keyframe at least the hold after all the others decides the id
      of the last line: it is either kept, or left out for repeating the id of
      the last kept one. */
  lemma NormalizedKeepsLastId(ks: seq<Keyframe>)
    requires ks != []
    requires forall j | 0 <= j < |ks| - 1 :: ks[j].0 + P.MinHoldFrames <= ks[|ks| - 1].0
    ensures var f := Normalized(ks);
      f != [] && f[|f| - 1].1 == ks[|ks| - 1].1
  {
    NormalizedSpaced(ks);
    var pre := ks[..|ks| - 1];
    var f := Normalized(pre);
    NormalizedElements(pre);
    if f != [] {
      var last := f[|f| - 1];
      assert last in pre;
      var j :| 0 <= j < |pre| && pre[j] == last;
      assert ks[j] == last;
    }
  }

  /** A last call at least the hold after every other call decides the id of
      the last keyframe: the final pass ends with its viseme's id, whether it
      keeps that call's keyframe or drops it for repeating the id before. */
  lemma LastCallIsLastKeyframe(vmap: map<string, int>, es: seq<Event>)
    requires Mapped(vmap, es) && es != []
    requires forall j | 0 <= j < |es| - 1 :: es[j].frame + P.MinHoldFrames <= es[|es| - 1].frame
    ensures var f := Normalized(SortedItems(Store(vmap, es)));
      f != [] && f[|f| - 1].1 == vmap[es[|es| - 1].viseme]
  {
    var m := Store(vmap, es);
    var t := es[|es| - 1].frame;
    StoreKeys(vmap, es);
    StoreLastWriter(vmap, es, |es| - 1);
    forall x | x in m && x != t
      ensures x + P.MinHoldFrames <= t
    {
      var j :| 0 <= j < |es| && es[j].frame == x;
    }
    SortedLastIsLatest(m, t);
    NormalizedKeepsLastId(SortedItems(m));
  }

  /** When frame `t` of the dictionary lies the hold after all its other
      frames, sorting puts its entry last and every other the hold before. */
  lemma SortedLastIsLatest(m: map<int, int>, t: int)
    requires t in m
    requires forall x | x in m && x != t :: x + P.MinHoldFrames <= t
    ensures var ks := SortedItems(m);
      && ks != [] && ks[|ks| - 1] == (t, m[t])
      && forall j | 0 <= j < |ks| - 1 :: ks[j].0 + P.MinHoldFrames <= ks[|ks| - 1].0
  {
    SortedItemsEntries(m);
    SortedItemsIncreasing(m);
    SortedItemsComplete(m);
    LatestIsLast(SortedItems(m), m, t);
  }

  /** Increasing keyframes listing exactly the entries of `m` end with the
      entry at frame `t` when `t` lies the hold after every other frame. */
  lemma LatestIsLast(ks: seq<Keyframe>, m: map<int, int>, t: int)
    requires Increasing(ks) && FramesOf(ks) == m.Keys
    requires forall i | 0 <= i < |ks| :: ks[i].0 in m && m[ks[i].0] == ks[i].1
    requires t in m
    requires forall x | x in m && x != t :: x + P.MinHoldFrames <= t
    ensures ks != [] && ks[|ks| - 1] == (t, m[t])
    ensures forall j | 0 <= j < |ks| - 1 :: ks[j].0 + P.MinHoldFrames <= ks[|ks| - 1].0
  {
    assert t in FramesOf(ks);
    var i :| 0 <= i < |ks| && ks[i].0 == t;
    if i < |ks| - 1 {
      FrameIncreasing(ks, i, |ks| - 1);
      assert false;
    }
    forall j | 0 <= j < |ks| - 1
      ensures ks[j].0 + P.MinHoldFrames <= ks[|ks| - 1].0
    {
      FrameIncreasing(ks, j, |ks| - 1);
      assert ks[j].0 in m;
    }
  }

  lemma {:induction false} FrameIncreasing(ks: seq<Keyframe>, i: nat, j: nat)
    requires Increasing(ks) && i <= j < |ks|
    ensures ks[i].0 + (j - i) <= ks[j].0
    decreases j - i
  {
    if i < j {
      FrameIncreasing(ks, i, j - 1);
    }
  }

  // ---------------------------------------------------------------------
  // The text written out
  // ---------------------------------------------------------------------

  function DigitChar(d: int): (c: char)
    requires 0 <= d < 10
    ensures '0' <= c <= '9' && DigitValue(c) == d
  {
    "0123456789"[d]
  }

  /** The number a decimal digit stands for. */
  function DigitValue(c: char): int
    requires '0' <= c <= '9'
  {
    c as int - '0' as int
  }

  ghost predicate AllDigits(s: string)
  {
    forall i | 0 <= i < |s| :: '0' <= s[i] <= '9'
  }

  /** The number a string of decimal digits spells, as `int(s)` reads it. */
  function DigitsValue(s: string): nat
    requires AllDigits(s)
    decreases |s|
  {
    if s == [] then 0
    else DigitsValue(s[..|s| - 1]) * 10 + DigitValue(s[|s| - 1])
  }

  /** The decimal digits of `n`, as Python's `str` writes a non-negative
      integer: they spell `n`, with no leading zero. */
  function NatToString(n: nat): (r: string)
    ensures |r| > 0 && AllDigits(r)
    ensures DigitsValue(r) == n
    ensures r[0] == '0' ==> r == "0"
    decreases n
  {
    if n < 10 then [DigitChar(n)]
    else
      var high := NatToString(n / 10);
      var r := high + [DigitChar(n % 10)];
      assert r[..|r| - 1] == high;
      r
  }

  /** How `int(s)` reads an optionally signed decimal. */
  function SignedValue(s: string): int
    requires s != [] && (if s[0] == '-' then AllDigits(s[1..]) else AllDigits(s))
  {
    if s[0] == '-' then -(DigitsValue(s[1..]) as int) else DigitsValue(s)
  }

  /** Python's `str` of an integer: a minus sign before the digits of a
      negative one; reading it back gives the integer. */
  function IntToString(n: int): (r: string)
    ensures |r| > 0 && '\n' !in r && ' ' !in r
    ensures if r[0] == '-' then AllDigits(r[1..]) else AllDigits(r)
    ensures r[0] == '-' ==> |r| > 1 && r[1] != '0'
    ensures r[0] != '-' && r[0] == '0' ==> r == "0"
    ensures SignedValue(r) == n
  {
    if n < 0 then
      var r := "-" + NatToString(-n);
      assert r[1..] == NatToString(-n);
      r
    else NatToString(n)
  }

  /** The line `f"{f} {v}"` of one keyframe. */
  function Line(k: Keyframe): (r: string)
    ensures |r| > 0 && '\n' !in r
  {
    IntToString(k.0) + " " + IntToString(k.1)
  }

  /** Different keyframes give different lines: the line determines the frame
      and the id. */
  lemma LineInjective(a: Keyframe, b: Keyframe)
    requires Line(a) == Line(b)
    ensures a == b
  {
    SplitAtSpace(IntToString(a.0), IntToString(a.1), IntToString(b.0), IntToString(b.1));
  }

  /** Joining two space-free texts by a space can be undone. */
  lemma SplitAtSpace(x: string, y: string, u: string, v: string)
    requires ' ' !in x && ' ' !in u
    requires x + " " + y == u + " " + v
    ensures x == u && y == v
  {
    var l := x + " " + y;
    FirstSpace(x, y);
    FirstSpace(u, v);
    assert l[|x|] == ' ' && l[|u|] == ' ';
    assert x == l[..|x|] == u;
    assert y == l[|x| + 1..] == v;
  }

  /** In `x + " " + y` with `x` space-free, the first space is the one after `x`. */
  lemma FirstSpace(x: string, y: string)
    requires ' ' !in x
    ensures var l := x + " " + y;
      l[|x|] == ' ' && forall i | 0 <= i < |x| :: l[i] != ' '
  {
    var l := x + " " + y;
    forall i | 0 <= i < |x|
      ensures l[i] != ' '
    {
      assert l[i] == x[i];
    }
  }

  /** `"\n".join(...)` of the lines of `ks`. */
  function Render(ks: seq<Keyframe>): string
    decreases |ks|
  {
    if ks == [] then ""
    else if |ks| == 1 then Line(ks[0])
    else Render(ks[..|ks| - 1]) + "\n" + Line(ks[|ks| - 1])
  }

  /** The text has one line per keyframe: it is empty exactly when there are
      none, holds one newline fewer than keyframes otherwise, and ends with the
      line of the last keyframe. */
  lemma {:induction false} RenderLines(ks: seq<Keyframe>)
    ensures Render(ks) == "" <==> ks == []
    ensures ks != [] ==> multiset(Render(ks))['\n'] == |ks| - 1
    ensures ks != [] ==> var t := Render(ks); var l := Line(ks[|ks| - 1]);
      |l| <= |t| && t[|t| - |l|..] == l
    decreases |ks|
  {
    if |ks| == 1 {
      assert multiset(Line(ks[0]))['\n'] == 0;
    } else if |ks| > 1 {
      var pre := ks[..|ks| - 1];
      RenderLines(pre);
      var l := Line(ks[|ks| - 1]);
      assert multiset(l)['\n'] == 0;
      assert multiset(Render(pre) + "\n" + l) == multiset(Render(pre)) + multiset("\n") + multiset(l);
      var t := Render(ks);
      assert t[|t| - |l|..] == l;
    }
  }

  /** The position of the last newline of `t`. */
  function LastNewline(t: string): (i: nat)
    requires '\n' in t
    ensures i < |t| && t[i] == '\n'
    ensures forall j | i < j < |t| :: t[j] != '\n'
    decreases |t|
  {
    if t[|t| - 1] == '\n' then |t| - 1
    else
      assert '\n' in t[..|t| - 1] by {
        var k :| 0 <= k < |t| && t[k] == '\n';
        assert t[..|t| - 1][k] == '\n';
      }
      LastNewline(t[..|t| - 1])
  }

  /** `t.split("\n")`: the pieces of `t` between its newlines, in order. */
  function SplitLines(t: string): (r: seq<string>)
    ensures |r| > 0
    decreases |t|
  {
    if '\n' !in t then [t]
    else
      var i := LastNewline(t);
      SplitLines(t[..i]) + [t[i + 1..]]
  }

  /** `f` applied to every element of `xs`, in order. */
  function Each<A, B>(f: A -> B, xs: seq<A>): seq<B>
    decreases |xs|
  {
    if xs == [] then [] else Each(f, xs[..|xs| - 1]) + [f(xs[|xs| - 1])]
  }

  /** Element `i` of `Each(f, xs)` is `f` of element `i` of `xs`. */
  lemma {:induction false} EachAt<A, B>(f: A -> B, xs: seq<A>)
    ensures |Each(f, xs)| == |xs|
    ensures forall i | 0 <= i < |xs| :: Each(f, xs)[i] == f(xs[i])
    decreases |xs|
  {
    if xs != [] {
      var pre := xs[..|xs| - 1];
      EachAt(f, pre);
      forall i | 0 <= i < |xs|
        ensures Each(f, xs)[i] == f(xs[i])
      {
        if i < |pre| {
          assert pre[i] == xs[i];
        }
      }
    }
  }

  /** The lines of `ks`, in order. */
  function Lines(ks: seq<Keyframe>): seq<string>
  {
    Each(Line, ks)
  }

  /** Line `i` of the list is the line of keyframe `i`. */
  lemma LinesAt(ks: seq<Keyframe>)
    ensures |Lines(ks)| == |ks|
    ensures forall i | 0 <= i < |ks| :: Lines(ks)[i] == Line(ks[i])
  {
    EachAt(Line, ks);
  }

  /** Cutting the text at its newlines gives back the line of every
      keyframe, in order: the text holds one line per keyframe. */
  lemma {:induction false} RenderSplits(ks: seq<Keyframe>)
    requires ks != []
    ensures SplitLines(Render(ks)) == Lines(ks)
    decreases |ks|
  {
    var l := Line(ks[|ks| - 1]);
    var pre := ks[..|ks| - 1];
    assert Lines(ks) == Lines(pre) + [l];
    if |ks| > 1 {
      RenderSplits(pre);
      SplitAfterNewline(Render(pre), l);
    } else {
      assert Lines(pre) == [];
    }
  }

  /** Adding a newline and a piece without newlines adds that piece as the
      last line. */
  lemma SplitAfterNewline(head: string, l: string)
    requires '\n' !in l
    ensures SplitLines(head + "\n" + l) == SplitLines(head) + [l]
  {
    var t := head + "\n" + l;
    assert t[|head|] == '\n';
    forall j | |head| < j < |t|
      ensures t[j] != '\n'
    {
      assert t[j] == l[j - |head| - 1];
    }
    assert LastNewline(t) == |head|;
    assert t[..|head|] == head && t[|head| + 1..] == l;
  }

  /** The loop of the final pass: walks the sorted keyframes once, appending
      each that neither repeats the last kept id nor comes within the hold of
      the last kept frame. */
  method Normalize(sorted: seq<Keyframe>) returns (final: seq<Keyframe>)
    ensures final == Normalized(sorted)
  {
    final := [];
    for i := 0 to |sorted|
      invariant final == Normalized(sorted[..i])
    {
      assert sorted[..i + 1][..i] == sorted[..i];
      var (frameNum, visemeId) := sorted[i];
      if final != [] {
        if final[|final| - 1].1 == visemeId {
          continue;
        }
        if frameNum - final[|final| - 1].0 < P.MinHoldFrames {
          continue;
        }
      }
      final := final + [(frameNum, visemeId)];
    }
    assert sorted[..|sorted|] == sorted;
  }
}
