/** The viseme vocabulary of main.py: the key-set check of `read_viseme_map`,
    and `get_visemes`, which turns the phonetic symbols of a word or syllable
    into the visemes the table knows. */
module Visemes {
  import opened Utils
  import opened PhonemeToViseme
  import P = Placement

  /** The fifteen viseme names a viseme-map file must define, silence `sli`
      included. */
  const VisemeKeys: set<string> :=
    {"sli", "PP", "FF", "TH", "DD", "kk", "CH", "SS", "nn", "RR", "aa", "E", "ih", "oh", "ou"}

  // ---------------------------------------------------------------------
  // read_viseme_map
  // ---------------------------------------------------------------------

  /** The check `read_viseme_map` makes of a loaded file: the map is returned
      unchanged when its keys are exactly the fifteen viseme names, and the
      exception "A wrong in <filename>" is raised otherwise. */
  function ReadVisemeMap(filename: string, data: map<string, int>): (r: Result<map<string, int>>)
    ensures r.Ok? <==> data.Keys == VisemeKeys
    ensures r.Ok? ==> r.value == data
    ensures r.Err? ==> r.message == "A wrong in " + filename
  {
    if data.Keys == VisemeKeys then Ok(data) else Err("A wrong in " + filename)
  }

  /** A file without a `CH` entry is rejected. */
  lemma MissingKeyRejected(filename: string, data: map<string, int>)
    requires "CH" !in data
    ensures ReadVisemeMap(filename, data).Err?
  {
    assert "CH" in VisemeKeys;
  }

  /** A file with an entry that is not a viseme name is rejected, whatever
      else it holds. */
  lemma ExtraKeyRejected(filename: string, data: map<string, int>, k: string)
    requires k in data && k !in VisemeKeys
    ensures ReadVisemeMap(filename, data).Err?
  {
  }

  /** Every viseme the table produces is a key of any accepted map, so the
      lookup `viseme_map[viseme]` of `add_to_output` cannot miss for them. */
  lemma TableLookupCannotMiss(filename: string, data: map<string, int>)
    requires ReadVisemeMap(filename, data).Ok?
    ensures forall k | k in Table :: Table[k] in data && Table[k] != "sli"
  {
    TableValues();
    forall k | k in Table ensures Table[k] in data {
      assert Table[k] in ConsonantVisemes + P.VowelVisemes;
    }
  }

  // ---------------------------------------------------------------------
  // get_visemes
  // ---------------------------------------------------------------------

  // The functions below take the phoneme table as a parameter `table`; the
  // program always passes `phoneme_to_viseme_arkit_v2` (PhonemeToViseme.Table).

  /** What the scheduler needs of a phoneme table: every value is a viseme
      name other than the silence `sli`, and none is the marker "UNK". */
  ghost predicate IsVisemeTable(table: map<string, string>)
  {
    forall k | k in table :: table[k] in VisemeKeys && table[k] != "sli" && table[k] != "UNK"
  }

  /** The values of such a table are viseme names, none of them `sli` or
      "UNK". */
  lemma VisemeTableValues(table: map<string, string>)
    requires IsVisemeTable(table)
    ensures table.Values <= VisemeKeys && "sli" !in table.Values && "UNK" !in table.Values
  {
    forall v | v in table.Values
      ensures v in VisemeKeys && v != "sli" && v != "UNK"
    {
      var k :| k in table && table[k] == v;
    }
  }

  /** `phoneme_to_viseme_arkit_v2` is such a table. */
  lemma ArkitIsVisemeTable()
    ensures IsVisemeTable(Table)
  {
    HeadingTableIsVisemeTable(ConsonantSymbols + VowelSymbols);
  }

  /** A table that gives each symbol of `s` its heading's viseme. */
  lemma HeadingTableIsVisemeTable(s: set<string>)
    ensures IsVisemeTable(map k | k in s :: GroupViseme(k))
  {
    forall k | k in s
      ensures GroupViseme(k) in VisemeKeys && GroupViseme(k) != "sli" && GroupViseme(k) != "UNK"
    {
      GroupVisemeIsNamed(k);
    }
  }

  /** The visemes of the symbols that are keys of the table, in input order;
      every other symbol is dropped. */
  function KnownVisemes(table: map<string, string>, ps: seq<string>): (r: seq<string>)
    ensures |r| <= |ps|
    ensures forall i | 0 <= i < |r| :: r[i] in table.Values
  {
    if ps == [] then []
    else
      var rest := KnownVisemes(table, ps[1..]);
      if ps[0] in table then [table[ps[0]]] + rest else rest
  }

  /** Reading one symbol: its viseme, or the marker "UNK" for a symbol the
      table does not list (`dict.get(p, "UNK")`). */
  function Lookup(table: map<string, string>, p: string): string
  {
    if p in table then table[p] else "UNK"
  }

  /** `s` with every occurrence of `x` deleted. */
  function Without(s: seq<string>, x: string): (r: seq<string>)
    ensures |r| <= |s|
    ensures x !in r
  {
    if s == [] then []
    else if s[0] == x then Without(s[1..], x)
    else [s[0]] + Without(s[1..], x)
  }

  /** Index of the first occurrence of `x`: where `list.remove` deletes. */
  function FirstIndex(s: seq<string>, x: string): (i: nat)
    requires x in s
    ensures i < |s| && s[i] == x && x !in s[..i]
  {
    if s[0] == x then 0
    else
      var j := FirstIndex(s[1..], x);
      assert s[..j + 1] == [s[0]] + s[1..][..j];
      j + 1
  }

  /** Dropping every `x` works piece by piece. */
  lemma {:induction false} WithoutAppend(a: seq<string>, b: seq<string>, x: string)
    ensures Without(a + b, x) == Without(a, x) + Without(b, x)
    decreases |a|
  {
    if a == [] {
      assert a + b == b;
    } else {
      assert (a + b)[1..] == a[1..] + b;
      WithoutAppend(a[1..], b, x);
    }
  }

  /** Deleting one occurrence of `x` does not change what is left once all
      of them are deleted. */
  lemma RemoveOneKeepsRest(s: seq<string>, i: nat, x: string)
    requires i < |s| && s[i] == x
    ensures Without(s[..i] + s[i + 1..], x) == Without(s, x)
  {
    assert s == s[..i] + ([s[i]] + s[i + 1..]);
    WithoutAppend(s[..i], [s[i]] + s[i + 1..], x);
    WithoutAppend(s[..i], s[i + 1..], x);
  }

  /** Deleting a value that does not occur changes nothing. */
  lemma {:induction false} WithoutAbsent(s: seq<string>, x: string)
    requires x !in s
    ensures Without(s, x) == s
    decreases |s|
  {
    if s != [] {
      assert x !in s[1..];
      WithoutAbsent(s[1..], x);
    }
  }

  /** The looked-up list of `ps`. */
  function Lookups(table: map<string, string>, ps: seq<string>): (r: seq<string>)
    ensures |r| == |ps| && forall i | 0 <= i < |ps| :: r[i] == Lookup(table, ps[i])
  {
    seq(|ps|, i requires 0 <= i < |ps| => Lookup(table, ps[i]))
  }

  /** Without the markers, the looked-up list is exactly the known visemes,
      as long as no table value is itself the marker. */
  lemma {:induction false} LookupsWithoutMarker(table: map<string, string>, ps: seq<string>)
    requires "UNK" !in table.Values
    ensures Without(Lookups(table, ps), "UNK") == KnownVisemes(table, ps)
    decreases |ps|
  {
    if ps != [] {
      assert Lookups(table, ps)[1..] == Lookups(table, ps[1..]);
      LookupsWithoutMarker(table, ps[1..]);
      if ps[0] in table {
        assert table[ps[0]] in table.Values;
      }
    }
  }

  /** `get_visemes`: looks every symbol up with the default "UNK", then
      removes the first "UNK" as long as one is left. */
  method GetVisemes(table: map<string, string>, phonemes: seq<string>) returns (visemes: seq<string>)
    requires "UNK" !in table.Values
    ensures visemes == KnownVisemes(table, phonemes)
  {
    visemes := Lookups(table, phonemes);
    LookupsWithoutMarker(table, phonemes);
    while "UNK" in visemes
      invariant Without(visemes, "UNK") == KnownVisemes(table, phonemes)
      decreases |visemes|
    {
      var i := FirstIndex(visemes, "UNK");
      RemoveOneKeepsRest(visemes, i, "UNK");
      visemes := visemes[..i] + visemes[i + 1..];
    }
    WithoutAbsent(visemes, "UNK");
  }

  /** The known visemes of concatenated symbol lists are concatenated. */
  lemma {:induction false} KnownVisemesAppend(table: map<string, string>, a: seq<string>, b: seq<string>)
    ensures KnownVisemes(table, a + b) == KnownVisemes(table, a) + KnownVisemes(table, b)
    decreases |a|
  {
    if a == [] {
      assert a + b == b;
    } else {
      assert (a + b)[1..] == a[1..] + b;
      KnownVisemesAppend(table, a[1..], b);
    }
  }

  /** Nothing is dropped exactly when every symbol is a key of the table. */
  lemma {:induction false} KnownVisemesKeepsAll(table: map<string, string>, ps: seq<string>)
    ensures |KnownVisemes(table, ps)| == |ps| <==> forall i | 0 <= i < |ps| :: ps[i] in table
    decreases |ps|
  {
    if ps != [] {
      KnownVisemesKeepsAll(table, ps[1..]);
      if ps[0] in table {
        assert forall i | 1 <= i < |ps| :: ps[i] == ps[1..][i - 1];
      }
    }
  }

  /** The English phoneme datum is one string, so `get_visemes` visits it
      one character at a time. */
  function Chars(s: string): (r: seq<string>)
    ensures |r| == |s|
    ensures forall i | 0 <= i < |s| :: r[i] == [s[i]]
  {
    seq(|s|, i requires 0 <= i < |s| => [s[i]])
  }

  /** On the character path a viseme that only multi-character keys show
      never comes out. */
  lemma {:induction false} TextNeverShows(table: map<string, string>, s: string, v: string)
    requires forall k | k in table && table[k] == v :: |k| != 1
    ensures v !in KnownVisemes(table, Chars(s))
    decreases |s|
  {
    if s != [] {
      assert Chars(s)[1..] == Chars(s[1..]);
      TextNeverShows(table, s[1..], v);
    }
  }

  /** Only the affricates `tʃ` and `dʒ` show CH, so an English word never
      does. */
  lemma EnglishTextNeverShowsCH(s: string)
    ensures "CH" !in KnownVisemes(Table, Chars(s))
  {
    forall k | k in Table && Table[k] == "CH" ensures |k| != 1 {
      AffricatesAreTwoCharacters(k);
    }
    TextNeverShows(Table, s, "CH");
  }
}
