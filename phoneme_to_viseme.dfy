/** The table `phoneme_to_viseme_arkit_v2` of phoneme_to_viseme.py: which
    mouth shape (viseme) shows each phonetic symbol. The source writes it as
    one dictionary literal, grouped under a comment per viseme; here each group
    is a set of symbols, and the table maps every symbol to the viseme of its
    group. */
module PhonemeToViseme {
  import P = Placement

  // The groups, in the order of the literal.

  /** PP: closed lips. */
  const ClosedLips: set<string> := {"m", "b", "p"}
  /** FF: upper teeth on the lower lip. */
  const TeethOnLip: set<string> := {"f", "v"}
  /** TH: tongue between the teeth. */
  const TongueBetweenTeeth: set<string> := {"θ", "ð"}
  /** CH: affricates. */
  const Affricates: set<string> := {"tʃ", "dʒ"}
  /** SS: narrow-gap fricatives. */
  const NarrowFricatives: set<string> := {"s", "z"}
  /** SH sounds, which share the SS shape. */
  const ShSounds: set<string> := {"ʃ", "ʒ", "ɕ", "ʑ"}
  /** RR: r-like sounds. */
  const RLike: set<string> := {"r", "ɾ", "ʁ", "ʀ", "ɹ", "ɻ"}
  /** DD: the default consonants. */
  const DefaultConsonants: set<string> :=
    {"t", "d", "ʈ", "ɖ", "c", "ɟ", "x", "ɣ", "h", "ɦ", "j", "ç", "ʝ"}
  /** kk: velar stops. */
  const VelarStops: set<string> := {"k", "g"}
  /** nn: the nasals and the l sounds. */
  const NasalsAndL: set<string> := {"n", "ŋ", "ɲ", "ɳ", "l", "ɫ"}
  /** aa: open and low/mid front vowels. */
  const OpenVowels: set<string> := {"a", "aː", "ä", "æ", "ɐ", "ɑ", "ɑ̃", "aɪ", "ɛ", "ɛː"}
  /** E: mid/closed front vowels. */
  const MidFrontVowels: set<string> := {"e", "eː", "œ", "ø", "ə"}
  /** ih: high front vowels. */
  const HighFrontVowels: set<string> := {"i", "ɪ", "y", "iː", "ʏ"}
  /** oh: mid back and open-mid vowels. */
  const MidBackVowels: set<string> := {"o", "ɔ", "ɔ̃", "ɒ", "oː", "ʌ"}
  /** ou: high back rounded vowels, and w. */
  const HighBackVowels: set<string> := {"u", "uː", "ɯ", "ɰ", "ʊ", "w"}

  /** The symbols listed under the consonant headings. */
  const ConsonantSymbols: set<string> :=
    ClosedLips + TeethOnLip + TongueBetweenTeeth + Affricates + NarrowFricatives + ShSounds
    + RLike + DefaultConsonants + VelarStops + NasalsAndL

  /** The symbols listed under the vowel headings. */
  const VowelSymbols: set<string> :=
    OpenVowels + MidFrontVowels + HighFrontVowels + MidBackVowels + HighBackVowels

  /** The viseme a listed symbol gets. A dictionary literal keeps the last
      entry of a repeated key, so the groups are consulted from the last one
      back. */
  function GroupViseme(k: string): string
  {
    if k in HighBackVowels then "ou"
    else if k in MidBackVowels then "oh"
    else if k in HighFrontVowels then "ih"
    else if k in MidFrontVowels then "E"
    else if k in OpenVowels then "aa"
    else if k in NasalsAndL then "nn"
    else if k in VelarStops then "kk"
    else if k in DefaultConsonants then "DD"
    else if k in RLike then "RR"
    else if k in ShSounds then "SS"
    else if k in NarrowFricatives then "SS"
    else if k in Affricates then "CH"
    else if k in TongueBetweenTeeth then "TH"
    else if k in TeethOnLip then "FF"
    else "PP"
  }

  /** `phoneme_to_viseme_arkit_v2`. */
  const Table: map<string, string> :=
    map k | k in ConsonantSymbols + VowelSymbols :: GroupViseme(k)

  /** The consonant visemes: weight 1 for the scheduler. */
  const ConsonantVisemes: set<string> := {"PP", "FF", "TH", "CH", "SS", "RR", "DD", "kk", "nn"}

  lemma GroupVisemeIsNamed(k: string)
    ensures GroupViseme(k) in ConsonantVisemes || GroupViseme(k) in P.VowelVisemes
    ensures GroupViseme(k) != "sli" && GroupViseme(k) != "UNK"
  {
  }

  /** Every value of the table is one of the fourteen speaking visemes; in
      particular no symbol maps to the silence viseme `sli` (its entries are
      commented out in the source) nor to the marker `UNK`. */
  lemma TableValues()
    ensures forall k | k in Table :: Table[k] in ConsonantVisemes + P.VowelVisemes
    ensures forall k | k in Table :: Table[k] != "sli" && Table[k] != "UNK"
  {
    forall k | k in Table
      ensures Table[k] in ConsonantVisemes + P.VowelVisemes
      ensures Table[k] != "sli" && Table[k] != "UNK"
    {
      GroupVisemeIsNamed(k);
    }
  }

  // No symbol is listed twice: each group is disjoint from the groups after
  // it, checked a few groups at a time.

  lemma ClosedLipsNotInTeethOnLipToVelarStops()
    ensures ClosedLips !! TeethOnLip
    ensures ClosedLips !! TongueBetweenTeeth
    ensures ClosedLips !! Affricates
    ensures ClosedLips !! NarrowFricatives
    ensures ClosedLips !! ShSounds
    ensures ClosedLips !! RLike
    ensures ClosedLips !! DefaultConsonants
    ensures ClosedLips !! VelarStops
  {
  }

  lemma ClosedLipsNotInNasalsAndLToMidBackVowels()
    ensures ClosedLips !! NasalsAndL
    ensures ClosedLips !! OpenVowels
    ensures ClosedLips !! MidFrontVowels
    ensures ClosedLips !! HighFrontVowels
    ensures ClosedLips !! MidBackVowels
  {
  }

  lemma ClosedLipsNotInHighBackVowels()
    ensures ClosedLips !! HighBackVowels
  {
  }

  lemma ClosedLipsListedOnce()
    ensures ClosedLips !! TeethOnLip
    ensures ClosedLips !! TongueBetweenTeeth
    ensures ClosedLips !! Affricates
    ensures ClosedLips !! NarrowFricatives
    ensures ClosedLips !! ShSounds
    ensures ClosedLips !! RLike
    ensures ClosedLips !! DefaultConsonants
    ensures ClosedLips !! VelarStops
    ensures ClosedLips !! NasalsAndL
    ensures ClosedLips !! OpenVowels
    ensures ClosedLips !! MidFrontVowels
    ensures ClosedLips !! HighFrontVowels
    ensures ClosedLips !! MidBackVowels
    ensures ClosedLips !! HighBackVowels
  {
    ClosedLipsNotInTeethOnLipToVelarStops();
    ClosedLipsNotInNasalsAndLToMidBackVowels();
    ClosedLipsNotInHighBackVowels();
  }

  lemma TeethOnLipNotInTongueBetweenTeethToOpenVowels()
    ensures TeethOnLip !! TongueBetweenTeeth
    ensures TeethOnLip !! Affricates
    ensures TeethOnLip !! NarrowFricatives
    ensures TeethOnLip !! ShSounds
    ensures TeethOnLip !! RLike
    ensures TeethOnLip !! DefaultConsonants
    ensures TeethOnLip !! VelarStops
    ensures TeethOnLip !! NasalsAndL
    ensures TeethOnLip !! OpenVowels
  {
  }

  lemma TeethOnLipNotInMidFrontVowelsToHighBackVowels()
    ensures TeethOnLip !! MidFrontVowels
    ensures TeethOnLip !! HighFrontVowels
    ensures TeethOnLip !! MidBackVowels
    ensures TeethOnLip !! HighBackVowels
  {
  }

  lemma TeethOnLipListedOnce()
    ensures TeethOnLip !! TongueBetweenTeeth
    ensures TeethOnLip !! Affricates
    ensures TeethOnLip !! NarrowFricatives
    ensures TeethOnLip !! ShSounds
    ensures TeethOnLip !! RLike
    ensures TeethOnLip !! DefaultConsonants
    ensures TeethOnLip !! VelarStops
    ensures TeethOnLip !! NasalsAndL
    ensures TeethOnLip !! OpenVowels
    ensures TeethOnLip !! MidFrontVowels
    ensures TeethOnLip !! HighFrontVowels
    ensures TeethOnLip !! MidBackVowels
    ensures TeethOnLip !! HighBackVowels
  {
    TeethOnLipNotInTongueBetweenTeethToOpenVowels();
    TeethOnLipNotInMidFrontVowelsToHighBackVowels();
  }

  lemma TongueBetweenTeethNotInAffricatesToMidFrontVowels()
    ensures TongueBetweenTeeth !! Affricates
    ensures TongueBetweenTeeth !! NarrowFricatives
    ensures TongueBetweenTeeth !! ShSounds
    ensures TongueBetweenTeeth !! RLike
    ensures TongueBetweenTeeth !! DefaultConsonants
    ensures TongueBetweenTeeth !! VelarStops
    ensures TongueBetweenTeeth !! NasalsAndL
    ensures TongueBetweenTeeth !! OpenVowels
    ensures TongueBetweenTeeth !! MidFrontVowels
  {
  }

  lemma TongueBetweenTeethNotInHighFrontVowelsToHighBackVowels()
    ensures TongueBetweenTeeth !! HighFrontVowels
    ensures TongueBetweenTeeth !! MidBackVowels
    ensures TongueBetweenTeeth !! HighBackVowels
  {
  }

  lemma TongueBetweenTeethListedOnce()
    ensures TongueBetweenTeeth !! Affricates
    ensures TongueBetweenTeeth !! NarrowFricatives
    ensures TongueBetweenTeeth !! ShSounds
    ensures TongueBetweenTeeth !! RLike
    ensures TongueBetweenTeeth !! DefaultConsonants
    ensures TongueBetweenTeeth !! VelarStops
    ensures TongueBetweenTeeth !! NasalsAndL
    ensures TongueBetweenTeeth !! OpenVowels
    ensures TongueBetweenTeeth !! MidFrontVowels
    ensures TongueBetweenTeeth !! HighFrontVowels
    ensures TongueBetweenTeeth !! MidBackVowels
    ensures TongueBetweenTeeth !! HighBackVowels
  {
    TongueBetweenTeethNotInAffricatesToMidFrontVowels();
    TongueBetweenTeethNotInHighFrontVowelsToHighBackVowels();
  }

  lemma AffricatesNotInNarrowFricativesToMidFrontVowels()
    ensures Affricates !! NarrowFricatives
    ensures Affricates !! ShSounds
    ensures Affricates !! RLike
    ensures Affricates !! DefaultConsonants
    ensures Affricates !! VelarStops
    ensures Affricates !! NasalsAndL
    ensures Affricates !! OpenVowels
    ensures Affricates !! MidFrontVowels
  {
  }

  lemma AffricatesNotInHighFrontVowelsToHighBackVowels()
    ensures Affricates !! HighFrontVowels
    ensures Affricates !! MidBackVowels
    ensures Affricates !! HighBackVowels
  {
  }

  lemma AffricatesListedOnce()
    ensures Affricates !! NarrowFricatives
    ensures Affricates !! ShSounds
    ensures Affricates !! RLike
    ensures Affricates !! DefaultConsonants
    ensures Affricates !! VelarStops
    ensures Affricates !! NasalsAndL
    ensures Affricates !! OpenVowels
    ensures Affricates !! MidFrontVowels
    ensures Affricates !! HighFrontVowels
    ensures Affricates !! MidBackVowels
    ensures Affricates !! HighBackVowels
  {
    AffricatesNotInNarrowFricativesToMidFrontVowels();
    AffricatesNotInHighFrontVowelsToHighBackVowels();
  }

  lemma NarrowFricativesNotInShSoundsToMidFrontVowels()
    ensures NarrowFricatives !! ShSounds
    ensures NarrowFricatives !! RLike
    ensures NarrowFricatives !! DefaultConsonants
    ensures NarrowFricatives !! VelarStops
    ensures NarrowFricatives !! NasalsAndL
    ensures NarrowFricatives !! OpenVowels
    ensures NarrowFricatives !! MidFrontVowels
  {
  }

  lemma NarrowFricativesNotInHighFrontVowelsToHighBackVowels()
    ensures NarrowFricatives !! HighFrontVowels
    ensures NarrowFricatives !! MidBackVowels
    ensures NarrowFricatives !! HighBackVowels
  {
  }

  lemma NarrowFricativesListedOnce()
    ensures NarrowFricatives !! ShSounds
    ensures NarrowFricatives !! RLike
    ensures NarrowFricatives !! DefaultConsonants
    ensures NarrowFricatives !! VelarStops
    ensures NarrowFricatives !! NasalsAndL
    ensures NarrowFricatives !! OpenVowels
    ensures NarrowFricatives !! MidFrontVowels
    ensures NarrowFricatives !! HighFrontVowels
    ensures NarrowFricatives !! MidBackVowels
    ensures NarrowFricatives !! HighBackVowels
  {
    NarrowFricativesNotInShSoundsToMidFrontVowels();
    NarrowFricativesNotInHighFrontVowelsToHighBackVowels();
  }

  lemma ShSoundsNotInRLikeToVelarStops()
    ensures ShSounds !! RLike
    ensures ShSounds !! DefaultConsonants
    ensures ShSounds !! VelarStops
  {
  }

  lemma ShSoundsNotInNasalsAndLToMidFrontVowels()
    ensures ShSounds !! NasalsAndL
    ensures ShSounds !! OpenVowels
    ensures ShSounds !! MidFrontVowels
  {
  }

  lemma ShSoundsNotInHighFrontVowelsToHighBackVowels()
    ensures ShSounds !! HighFrontVowels
    ensures ShSounds !! MidBackVowels
    ensures ShSounds !! HighBackVowels
  {
  }

  lemma ShSoundsListedOnce()
    ensures ShSounds !! RLike
    ensures ShSounds !! DefaultConsonants
    ensures ShSounds !! VelarStops
    ensures ShSounds !! NasalsAndL
    ensures ShSounds !! OpenVowels
    ensures ShSounds !! MidFrontVowels
    ensures ShSounds !! HighFrontVowels
    ensures ShSounds !! MidBackVowels
    ensures ShSounds !! HighBackVowels
  {
    ShSoundsNotInRLikeToVelarStops();
    ShSoundsNotInNasalsAndLToMidFrontVowels();
    ShSoundsNotInHighFrontVowelsToHighBackVowels();
  }

  lemma RLikeNotInDefaultConsonantsToVelarStops()
    ensures RLike !! DefaultConsonants
    ensures RLike !! VelarStops
  {
  }

  lemma RLikeNotInNasalsAndLToOpenVowels()
    ensures RLike !! NasalsAndL
    ensures RLike !! OpenVowels
  {
  }

  lemma RLikeNotInMidFrontVowelsToMidBackVowels()
    ensures RLike !! MidFrontVowels
    ensures RLike !! HighFrontVowels
    ensures RLike !! MidBackVowels
  {
  }

  lemma RLikeNotInHighBackVowels()
    ensures RLike !! HighBackVowels
  {
  }

  lemma RLikeListedOnce()
    ensures RLike !! DefaultConsonants
    ensures RLike !! VelarStops
    ensures RLike !! NasalsAndL
    ensures RLike !! OpenVowels
    ensures RLike !! MidFrontVowels
    ensures RLike !! HighFrontVowels
    ensures RLike !! MidBackVowels
    ensures RLike !! HighBackVowels
  {
    RLikeNotInDefaultConsonantsToVelarStops();
    RLikeNotInNasalsAndLToOpenVowels();
    RLikeNotInMidFrontVowelsToMidBackVowels();
    RLikeNotInHighBackVowels();
  }

  lemma DefaultConsonantsNotInVelarStops()
    ensures DefaultConsonants !! VelarStops
  {
  }

  lemma DefaultConsonantsNotInNasalsAndL()
    ensures DefaultConsonants !! NasalsAndL
  {
  }

  lemma DefaultConsonantsNotInOpenVowels()
    ensures DefaultConsonants !! OpenVowels
  {
  }

  lemma DefaultConsonantsNotInMidFrontVowels()
    ensures DefaultConsonants !! MidFrontVowels
  {
  }

  lemma DefaultConsonantsNotInHighFrontVowels()
    ensures DefaultConsonants !! HighFrontVowels
  {
  }

  lemma DefaultConsonantsNotInMidBackVowels()
    ensures DefaultConsonants !! MidBackVowels
  {
  }

  lemma DefaultConsonantsNotInHighBackVowels()
    ensures DefaultConsonants !! HighBackVowels
  {
  }

  lemma DefaultConsonantsListedOnce()
    ensures DefaultConsonants !! VelarStops
    ensures DefaultConsonants !! NasalsAndL
    ensures DefaultConsonants !! OpenVowels
    ensures DefaultConsonants !! MidFrontVowels
    ensures DefaultConsonants !! HighFrontVowels
    ensures DefaultConsonants !! MidBackVowels
    ensures DefaultConsonants !! HighBackVowels
  {
    DefaultConsonantsNotInVelarStops();
    DefaultConsonantsNotInNasalsAndL();
    DefaultConsonantsNotInOpenVowels();
    DefaultConsonantsNotInMidFrontVowels();
    DefaultConsonantsNotInHighFrontVowels();
    DefaultConsonantsNotInMidBackVowels();
    DefaultConsonantsNotInHighBackVowels();
  }

  lemma VelarStopsListedOnce()
    ensures VelarStops !! NasalsAndL
    ensures VelarStops !! OpenVowels
    ensures VelarStops !! MidFrontVowels
    ensures VelarStops !! HighFrontVowels
    ensures VelarStops !! MidBackVowels
    ensures VelarStops !! HighBackVowels
  {
  }

  lemma NasalsAndLNotInOpenVowelsToMidFrontVowels()
    ensures NasalsAndL !! OpenVowels
    ensures NasalsAndL !! MidFrontVowels
  {
  }

  lemma NasalsAndLNotInHighFrontVowelsToMidBackVowels()
    ensures NasalsAndL !! HighFrontVowels
    ensures NasalsAndL !! MidBackVowels
  {
  }

  lemma NasalsAndLNotInHighBackVowels()
    ensures NasalsAndL !! HighBackVowels
  {
  }

  lemma NasalsAndLListedOnce()
    ensures NasalsAndL !! OpenVowels
    ensures NasalsAndL !! MidFrontVowels
    ensures NasalsAndL !! HighFrontVowels
    ensures NasalsAndL !! MidBackVowels
    ensures NasalsAndL !! HighBackVowels
  {
    NasalsAndLNotInOpenVowelsToMidFrontVowels();
    NasalsAndLNotInHighFrontVowelsToMidBackVowels();
    NasalsAndLNotInHighBackVowels();
  }

  lemma OpenVowelsNotInMidFrontVowelsToHighFrontVowels()
    ensures OpenVowels !! MidFrontVowels
    ensures OpenVowels !! HighFrontVowels
  {
  }

  lemma OpenVowelsNotInMidBackVowels()
    ensures OpenVowels !! MidBackVowels
  {
  }

  lemma OpenVowelsNotInHighBackVowels()
    ensures OpenVowels !! HighBackVowels
  {
  }

  lemma OpenVowelsListedOnce()
    ensures OpenVowels !! MidFrontVowels
    ensures OpenVowels !! HighFrontVowels
    ensures OpenVowels !! MidBackVowels
    ensures OpenVowels !! HighBackVowels
  {
    OpenVowelsNotInMidFrontVowelsToHighFrontVowels();
    OpenVowelsNotInMidBackVowels();
    OpenVowelsNotInHighBackVowels();
  }

  lemma MidFrontVowelsListedOnce()
    ensures MidFrontVowels !! HighFrontVowels
    ensures MidFrontVowels !! MidBackVowels
    ensures MidFrontVowels !! HighBackVowels
  {
  }

  lemma HighFrontVowelsListedOnce()
    ensures HighFrontVowels !! MidBackVowels
    ensures HighFrontVowels !! HighBackVowels
  {
  }

  lemma MidBackVowelsListedOnce()
    ensures MidBackVowels !! HighBackVowels
  {
  }

  lemma DisjointUnionSize(a: set<string>, b: set<string>)
    requires a !! b
    ensures |a + b| == |a| + |b|
  {
    assert a * b == {};
  }

  lemma UnionDisjoint(a: set<string>, b: set<string>, c: set<string>)
    requires a !! c && b !! c
    ensures a + b !! c
  {
  }

  lemma LipAndTeethGroupSizes()
    ensures |ClosedLips| == 3 && |TeethOnLip| == 2 && |TongueBetweenTeeth| == 2 && |Affricates| == 2 && |NarrowFricatives| == 2
  {
  }

  lemma ShSoundsSize()
    ensures |ShSounds| == 4
  {
  }

  lemma RLikeSize()
    ensures |RLike| == 6
  {
  }

  lemma DefaultConsonantsSize()
    ensures |DefaultConsonants| == 13
  {
  }

  lemma BackConsonantGroupSizes()
    ensures |VelarStops| == 2 && |NasalsAndL| == 6
  {
  }

  lemma ConsonantGroupSizes()
    ensures |ClosedLips| == 3 && |TeethOnLip| == 2 && |TongueBetweenTeeth| == 2 && |Affricates| == 2 && |NarrowFricatives| == 2
    ensures |ShSounds| == 4 && |RLike| == 6 && |DefaultConsonants| == 13 && |VelarStops| == 2 && |NasalsAndL| == 6
  {
    LipAndTeethGroupSizes();
    ShSoundsSize();
    RLikeSize();
    DefaultConsonantsSize();
    BackConsonantGroupSizes();
  }

  lemma FrontVowelGroupSizes()
    ensures |OpenVowels| == 10 && |MidFrontVowels| == 5 && |HighFrontVowels| == 5
  {
  }

  lemma BackVowelGroupSizes()
    ensures |MidBackVowels| == 6 && |HighBackVowels| == 6
  {
  }

  lemma VowelGroupSizes()
    ensures |OpenVowels| == 10 && |MidFrontVowels| == 5 && |HighFrontVowels| == 5 && |MidBackVowels| == 6 && |HighBackVowels| == 6
  {
    FrontVowelGroupSizes();
    BackVowelGroupSizes();
  }

  /** The consonant headings list 42 distinct symbols. */
  lemma ConsonantCount()
    ensures |ClosedLips + TeethOnLip + TongueBetweenTeeth + Affricates + NarrowFricatives + ShSounds + RLike + DefaultConsonants + VelarStops + NasalsAndL| == 42
  {
    ConsonantGroupSizes();
    ClosedLipsListedOnce();
    TeethOnLipListedOnce();
    TongueBetweenTeethListedOnce();
    AffricatesListedOnce();
    NarrowFricativesListedOnce();
    ShSoundsListedOnce();
    RLikeListedOnce();
    DefaultConsonantsListedOnce();
    VelarStopsListedOnce();
    DisjointUnionSize(ClosedLips, TeethOnLip);
    UnionDisjoint(ClosedLips, TeethOnLip, TongueBetweenTeeth);
    DisjointUnionSize(ClosedLips + TeethOnLip, TongueBetweenTeeth);
    UnionDisjoint(ClosedLips, TeethOnLip, Affricates);
    UnionDisjoint(ClosedLips + TeethOnLip, TongueBetweenTeeth, Affricates);
    DisjointUnionSize(ClosedLips + TeethOnLip + TongueBetweenTeeth, Affricates);
    UnionDisjoint(ClosedLips, TeethOnLip, NarrowFricatives);
    UnionDisjoint(ClosedLips + TeethOnLip, TongueBetweenTeeth, NarrowFricatives);
    UnionDisjoint(ClosedLips + TeethOnLip + TongueBetweenTeeth, Affricates, NarrowFricatives);
    DisjointUnionSize(ClosedLips + TeethOnLip + TongueBetweenTeeth + Affricates, NarrowFricatives);
    UnionDisjoint(ClosedLips, TeethOnLip, ShSounds);
    UnionDisjoint(ClosedLips + TeethOnLip, TongueBetweenTeeth, ShSounds);
    UnionDisjoint(ClosedLips + TeethOnLip + TongueBetweenTeeth, Affricates, ShSounds);
    UnionDisjoint(ClosedLips + TeethOnLip + TongueBetweenTeeth + Affricates, NarrowFricatives, ShSounds);
    DisjointUnionSize(ClosedLips + TeethOnLip + TongueBetweenTeeth + Affricates + NarrowFricatives, ShSounds);
    UnionDisjoint(ClosedLips, TeethOnLip, RLike);
    UnionDisjoint(ClosedLips + TeethOnLip, TongueBetweenTeeth, RLike);
    UnionDisjoint(ClosedLips + TeethOnLip + TongueBetweenTeeth, Affricates, RLike);
    UnionDisjoint(ClosedLips + TeethOnLip + TongueBetweenTeeth + Affricates, NarrowFricatives, RLike);
    UnionDisjoint(ClosedLips + TeethOnLip + TongueBetweenTeeth + Affricates + NarrowFricatives, ShSounds, RLike);
    DisjointUnionSize(ClosedLips + TeethOnLip + TongueBetweenTeeth + Affricates + NarrowFricatives + ShSounds, RLike);
    UnionDisjoint(ClosedLips, TeethOnLip, DefaultConsonants);
    UnionDisjoint(ClosedLips + TeethOnLip, TongueBetweenTeeth, DefaultConsonants);
    UnionDisjoint(ClosedLips + TeethOnLip + TongueBetweenTeeth, Affricates, DefaultConsonants);
    UnionDisjoint(ClosedLips + TeethOnLip + TongueBetweenTeeth + Affricates, NarrowFricatives, DefaultConsonants);
    UnionDisjoint(ClosedLips + TeethOnLip + TongueBetweenTeeth + Affricates + NarrowFricatives, ShSounds, DefaultConsonants);
    UnionDisjoint(ClosedLips + TeethOnLip + TongueBetweenTeeth + Affricates + NarrowFricatives + ShSounds, RLike, DefaultConsonants);
    DisjointUnionSize(ClosedLips + TeethOnLip + TongueBetweenTeeth + Affricates + NarrowFricatives + ShSounds + RLike, DefaultConsonants);
    UnionDisjoint(ClosedLips, TeethOnLip, VelarStops);
    UnionDisjoint(ClosedLips + TeethOnLip, TongueBetweenTeeth, VelarStops);
    UnionDisjoint(ClosedLips + TeethOnLip + TongueBetweenTeeth, Affricates, VelarStops);
    UnionDisjoint(ClosedLips + TeethOnLip + TongueBetweenTeeth + Affricates, NarrowFricatives, VelarStops);
    UnionDisjoint(ClosedLips + TeethOnLip + TongueBetweenTeeth + Affricates + NarrowFricatives, ShSounds, VelarStops);
    UnionDisjoint(ClosedLips + TeethOnLip + TongueBetweenTeeth + Affricates + NarrowFricatives + ShSounds, RLike, VelarStops);
    UnionDisjoint(ClosedLips + TeethOnLip + TongueBetweenTeeth + Affricates + NarrowFricatives + ShSounds + RLike, DefaultConsonants, VelarStops);
    DisjointUnionSize(ClosedLips + TeethOnLip + TongueBetweenTeeth + Affricates + NarrowFricatives + ShSounds + RLike + DefaultConsonants, VelarStops);
    UnionDisjoint(ClosedLips, TeethOnLip, NasalsAndL);
    UnionDisjoint(ClosedLips + TeethOnLip, TongueBetweenTeeth, NasalsAndL);
    UnionDisjoint(ClosedLips + TeethOnLip + TongueBetweenTeeth, Affricates, NasalsAndL);
    UnionDisjoint(ClosedLips + TeethOnLip + TongueBetweenTeeth + Affricates, NarrowFricatives, NasalsAndL);
    UnionDisjoint(ClosedLips + TeethOnLip + TongueBetweenTeeth + Affricates + NarrowFricatives, ShSounds, NasalsAndL);
    UnionDisjoint(ClosedLips + TeethOnLip + TongueBetweenTeeth + Affricates + NarrowFricatives + ShSounds, RLike, NasalsAndL);
    UnionDisjoint(ClosedLips + TeethOnLip + TongueBetweenTeeth + Affricates + NarrowFricatives + ShSounds + RLike, DefaultConsonants, NasalsAndL);
    UnionDisjoint(ClosedLips + TeethOnLip + TongueBetweenTeeth + Affricates + NarrowFricatives + ShSounds + RLike + DefaultConsonants, VelarStops, NasalsAndL);
    DisjointUnionSize(ClosedLips + TeethOnLip + TongueBetweenTeeth + Affricates + NarrowFricatives + ShSounds + RLike + DefaultConsonants + VelarStops, NasalsAndL);
  }

  /** The vowel headings list 32 distinct symbols. */
  lemma VowelCount()
    ensures |OpenVowels + MidFrontVowels + HighFrontVowels + MidBackVowels + HighBackVowels| == 32
  {
    VowelGroupSizes();
    OpenVowelsListedOnce();
    MidFrontVowelsListedOnce();
    HighFrontVowelsListedOnce();
    MidBackVowelsListedOnce();
    DisjointUnionSize(OpenVowels, MidFrontVowels);
    UnionDisjoint(OpenVowels, MidFrontVowels, HighFrontVowels);
    DisjointUnionSize(OpenVowels + MidFrontVowels, HighFrontVowels);
    UnionDisjoint(OpenVowels, MidFrontVowels, MidBackVowels);
    UnionDisjoint(OpenVowels + MidFrontVowels, HighFrontVowels, MidBackVowels);
    DisjointUnionSize(OpenVowels + MidFrontVowels + HighFrontVowels, MidBackVowels);
    UnionDisjoint(OpenVowels, MidFrontVowels, HighBackVowels);
    UnionDisjoint(OpenVowels + MidFrontVowels, HighFrontVowels, HighBackVowels);
    UnionDisjoint(OpenVowels + MidFrontVowels + HighFrontVowels, MidBackVowels, HighBackVowels);
    DisjointUnionSize(OpenVowels + MidFrontVowels + HighFrontVowels + MidBackVowels, HighBackVowels);
  }

  /** No symbol is listed under both a consonant and a vowel heading. */
  lemma ConsonantsAreNotVowels()
    ensures ConsonantSymbols !! VowelSymbols
  {
    ClosedLipsListedOnce();
    TeethOnLipListedOnce();
    TongueBetweenTeethListedOnce();
    AffricatesListedOnce();
    NarrowFricativesListedOnce();
    ShSoundsListedOnce();
    RLikeListedOnce();
    DefaultConsonantsListedOnce();
    VelarStopsListedOnce();
    NasalsAndLListedOnce();
  }

  /** The literal has 42 consonant and 32 vowel entries, and all 74 survive as
      distinct keys: no entry of the literal overrides another. */
  lemma NoSymbolListedTwice()
    ensures |Table| == 74
  {
    ConsonantCount();
    VowelCount();
    ConsonantsAreNotVowels();
    DisjointUnionSize(ConsonantSymbols, VowelSymbols);
    ListedKeys(ConsonantSymbols + VowelSymbols);
  }

  /** A table built from a set of symbols has that set as its keys. */
  lemma ListedKeys(s: set<string>)
    ensures |map k | k in s :: GroupViseme(k)| == |s|
  {
    assert (map k | k in s :: GroupViseme(k)).Keys == s;
  }

  // Each heading's symbols get that heading's viseme: no later heading lists
  // one of them again and takes it over.
  lemma ClosedLipsViseme()
    ensures forall k | k in ClosedLips :: k in Table && Table[k] == "PP"
  {
    ClosedLipsListedOnce();
  }

  lemma TeethOnLipViseme()
    ensures forall k | k in TeethOnLip :: k in Table && Table[k] == "FF"
  {
    TeethOnLipListedOnce();
  }

  lemma TongueBetweenTeethViseme()
    ensures forall k | k in TongueBetweenTeeth :: k in Table && Table[k] == "TH"
  {
    TongueBetweenTeethListedOnce();
  }

  lemma AffricatesViseme()
    ensures forall k | k in Affricates :: k in Table && Table[k] == "CH"
  {
    AffricatesListedOnce();
  }

  lemma NarrowFricativesViseme()
    ensures forall k | k in NarrowFricatives :: k in Table && Table[k] == "SS"
  {
    NarrowFricativesListedOnce();
  }

  lemma ShSoundsViseme()
    ensures forall k | k in ShSounds :: k in Table && Table[k] == "SS"
  {
    ShSoundsListedOnce();
  }

  lemma RLikeViseme()
    ensures forall k | k in RLike :: k in Table && Table[k] == "RR"
  {
    RLikeListedOnce();
  }

  lemma DefaultConsonantsViseme()
    ensures forall k | k in DefaultConsonants :: k in Table && Table[k] == "DD"
  {
    DefaultConsonantsListedOnce();
  }

  lemma VelarStopsViseme()
    ensures forall k | k in VelarStops :: k in Table && Table[k] == "kk"
  {
    VelarStopsListedOnce();
  }

  lemma NasalsAndLViseme()
    ensures forall k | k in NasalsAndL :: k in Table && Table[k] == "nn"
  {
    NasalsAndLListedOnce();
  }

  lemma OpenVowelsViseme()
    ensures forall k | k in OpenVowels :: k in Table && Table[k] == "aa"
  {
    OpenVowelsListedOnce();
  }

  lemma MidFrontVowelsViseme()
    ensures forall k | k in MidFrontVowels :: k in Table && Table[k] == "E"
  {
    MidFrontVowelsListedOnce();
  }

  lemma HighFrontVowelsViseme()
    ensures forall k | k in HighFrontVowels :: k in Table && Table[k] == "ih"
  {
    HighFrontVowelsListedOnce();
  }

  lemma MidBackVowelsViseme()
    ensures forall k | k in MidBackVowels :: k in Table && Table[k] == "oh"
  {
    MidBackVowelsListedOnce();
  }

  lemma HighBackVowelsViseme()
    ensures forall k | k in HighBackVowels :: k in Table && Table[k] == "ou"
  {
  }

  /** The symbols under the consonant headings get consonant visemes (weight
      1 in the scheduler). */
  lemma ConsonantHeadings()
    ensures forall k | k in ConsonantSymbols :: k in Table && Table[k] in ConsonantVisemes
  {
    forall k | k in ConsonantSymbols
      ensures k in Table && Table[k] in ConsonantVisemes
    {
      if k in ClosedLips {
        ClosedLipsViseme();
      } else if k in TeethOnLip {
        TeethOnLipViseme();
      } else if k in TongueBetweenTeeth {
        TongueBetweenTeethViseme();
      } else if k in Affricates {
        AffricatesViseme();
      } else if k in NarrowFricatives {
        NarrowFricativesViseme();
      } else if k in ShSounds {
        ShSoundsViseme();
      } else if k in RLike {
        RLikeViseme();
      } else if k in DefaultConsonants {
        DefaultConsonantsViseme();
      } else if k in VelarStops {
        VelarStopsViseme();
      } else {
        NasalsAndLViseme();
      }
    }
  }

  /** The symbols under the vowel headings, `w` included, get vowel visemes
      (weight 2 in the scheduler). */
  lemma VowelHeadings()
    ensures forall k | k in VowelSymbols :: k in Table && Table[k] in P.VowelVisemes
    ensures Table["w"] == "ou"
  {
    OpenVowelsViseme();
    MidFrontVowelsViseme();
    HighFrontVowelsViseme();
    MidBackVowelsViseme();
    HighBackVowelsViseme();
    assert "w" in HighBackVowels;
  }

  /** The bilabials show closed lips, and all s- and sh-like sounds share SS. */
  lemma BilabialsAndSibilants()
    ensures Table["m"] == "PP" && Table["b"] == "PP" && Table["p"] == "PP"
    ensures Table["s"] == "SS" && Table["z"] == "SS"
    ensures Table["ʃ"] == "SS" && Table["ʒ"] == "SS" && Table["ɕ"] == "SS" && Table["ʑ"] == "SS"
  {
    ClosedLipsViseme();
    NarrowFricativesViseme();
    ShSoundsViseme();
    assert "m" in ClosedLips && "b" in ClosedLips && "p" in ClosedLips;
    assert "s" in NarrowFricatives && "z" in NarrowFricatives;
    assert "ʃ" in ShSounds && "ʒ" in ShSounds && "ɕ" in ShSounds && "ʑ" in ShSounds;
  }

  /** Only the two-character affricates `tʃ` and `dʒ` show CH, so a symbol of
      one character never does. */
  lemma AffricatesAreTwoCharacters(k: string)
    requires k in Table && Table[k] == "CH"
    ensures |k| == 2
  {
    if k in ClosedLips {
      ClosedLipsViseme();
    } else if k in TeethOnLip {
      TeethOnLipViseme();
    } else if k in TongueBetweenTeeth {
      TongueBetweenTeethViseme();
    } else if k in NarrowFricatives {
      NarrowFricativesViseme();
    } else if k in ShSounds {
      ShSoundsViseme();
    } else if k in RLike {
      RLikeViseme();
    } else if k in DefaultConsonants {
      DefaultConsonantsViseme();
    } else if k in VelarStops {
      VelarStopsViseme();
    } else if k in NasalsAndL {
      NasalsAndLViseme();
    } else if k in OpenVowels {
      OpenVowelsViseme();
    } else if k in MidFrontVowels {
      MidFrontVowelsViseme();
    } else if k in HighFrontVowels {
      HighFrontVowelsViseme();
    } else if k in MidBackVowels {
      MidBackVowelsViseme();
    } else if k in HighBackVowels {
      HighBackVowelsViseme();
    } else {
      assert k in Affricates;
    }
  }
}
