/** The asset cache and the spelling of symbols, against a plain scan of the exchange's universe. ASCII names. */
module AssetCache {
  import opened AsciiNames
  import opened Options

  // ---------------------------------------------------------------- symbols

  const SUFFIXES: seq<string> := ["-PERP", "-USDC", "-USD"]

  predicate IsSpace(c: char) {
    c == ' ' || '\t' <= c <= '\r'
  }

  function TrimStart(s: string): string {
    if s != "" && IsSpace(s[0]) then TrimStart(s[1..]) else s
  }

  function TrimEnd(s: string): string {
    if s != "" && IsSpace(s[|s| - 1]) then TrimEnd(s[..|s| - 1]) else s
  }

  function Trim(s: string): string {
    TrimEnd(TrimStart(s))
  }

  predicate EndsWith(s: string, suffix: string) {
    |suffix| <= |s| && s[|s| - |suffix|..] == suffix
  }

  function Stripped(s: string, suffix: string): string
    requires EndsWith(s, suffix)
  {
    s[..|s| - |suffix|]
  }

  /** Trim, uppercase, and strip the first suffix of the list that matches. */
  method NormalizeCoin(coin: string) returns (r: string)
    ensures r == Normalized(coin, SUFFIXES)
  {
    var upper := ToUpper(Trim(coin));
    for k := 0 to |SUFFIXES|
      invariant StripFirst(upper, SUFFIXES) == StripFirst(upper, SUFFIXES[k..])
    {
      assert SUFFIXES[k..][1..] == SUFFIXES[k + 1..];
      if EndsWith(upper, SUFFIXES[k]) {
        return Stripped(upper, SUFFIXES[k]);
      }
    }
    return upper;
  }

  function StripFirst(s: string, suffixes: seq<string>): string {
    if suffixes == [] then s
    else if EndsWith(s, suffixes[0]) then Stripped(s, suffixes[0])
    else StripFirst(s, suffixes[1..])
  }

  function Normalized(coin: string, suffixes: seq<string>): string {
    StripFirst(ToUpper(Trim(coin)), suffixes)
  }

  /** No string ends with two of the suffixes. */
  lemma OneSuffixMatches(s: string, a: string, b: string)
    requires a in SUFFIXES && b in SUFFIXES && EndsWith(s, a) && EndsWith(s, b)
    ensures a == b
  {
    var n := |s|;
    assert s[n - |a|..][|a| - 1] == s[n - 1] && s[n - |b|..][|b| - 1] == s[n - 1];
    assert s[n - |a|..][|a| - 4] == s[n - 4] && s[n - |b|..][|b| - 4] == s[n - 4];
  }

  /** Hence the order in which the suffixes are tried does not matter. */
  lemma {:induction false} StripsTheMatchingSuffix(s: string, suffixes: seq<string>, suffix: string)
    requires forall x :: x in suffixes ==> x in SUFFIXES
    requires suffix in suffixes && EndsWith(s, suffix)
    ensures StripFirst(s, suffixes) == Stripped(s, suffix)
  {
    if EndsWith(s, suffixes[0]) {
      OneSuffixMatches(s, suffixes[0], suffix);
    } else {
      StripsTheMatchingSuffix(s, suffixes[1..], suffix);
    }
  }

  lemma {:induction false} NothingToStrip(s: string, suffixes: seq<string>)
    requires forall x :: x in suffixes ==> !EndsWith(s, x)
    ensures StripFirst(s, suffixes) == s
  {
    if suffixes != [] {
      NothingToStrip(s, suffixes[1..]);
    }
  }

  lemma SuffixOrderIsIrrelevant(coin: string, order: seq<string>)
    requires forall x :: x in order <==> x in SUFFIXES
    ensures Normalized(coin, order) == Normalized(coin, SUFFIXES)
  {
    var u := ToUpper(Trim(coin));
    if x :| x in SUFFIXES && EndsWith(u, x) {
      StripsTheMatchingSuffix(u, SUFFIXES, x);
      StripsTheMatchingSuffix(u, order, x);
    } else {
      NothingToStrip(u, SUFFIXES);
      NothingToStrip(u, order);
    }
  }

  /** A name with no space at either end and none of the suffixes. */
  ghost predicate Plain(name: string) {
    && (name != "" ==> !White(name[0]) && !White(name[|name| - 1]))
    && !EndsWith(ToUpper(name), "-PERP") && !EndsWith(ToUpper(name), "-USDC") && !EndsWith(ToUpper(name), "-USD")
  }

  /** Tab, line feed, vertical tab, form feed, carriage return and space. */
  predicate White(c: char) {
    c as int in {9, 10, 11, 12, 13, 32}
  }

  ghost predicate AllWhite(s: string) {
    forall i :: 0 <= i < |s| ==> White(s[i])
  }

  /** `written` is `name` in any casing, followed by one of the suffixes in any casing, or by nothing. */
  ghost predicate Spells(written: string, name: string, suffix: string) {
    suffix in {"", "-PERP", "-USDC", "-USD"} && ToUpper(written) == ToUpper(name) + suffix
  }

  /** Trimming takes the space around a text away in full, and nothing of the text. */
  lemma TrimStripsSurroundings(before: string, text: string, after: string)
    requires AllWhite(before) && AllWhite(after) && (text != "" ==> !White(text[0]) && !White(text[|text| - 1]))
    ensures Trim(before + text + after) == text
  {
    assert before + text + after == before + (text + after);
    if text == "" {
      assert text + after == after;
      StartIsTrimmed(before, "", after);
    } else {
      StartIsTrimmed(before, text, after);
      EndIsTrimmed(text, after);
    }
  }

  lemma {:induction false} StartIsTrimmed(before: string, text: string, after: string)
    requires AllWhite(before) && (text == "" ==> AllWhite(after)) && (text != "" ==> !White(text[0]))
    ensures text != "" ==> TrimStart(before + (text + after)) == text + after
    ensures text == "" ==> TrimStart(before + (text + after)) == ""
    decreases |before| + |after|
  {
    var all := before + (text + after);
    if before != "" {
      assert all[1..] == before[1..] + (text + after);
      StartIsTrimmed(before[1..], text, after);
    } else if text == "" && after != "" {
      assert all == after && all[1..] == "" + ("" + after[1..]);
      StartIsTrimmed("", "", after[1..]);
    } else {
      assert all == text + after;
    }
  }

  lemma {:induction false} EndIsTrimmed(text: string, after: string)
    requires AllWhite(after) && text != "" && !White(text[|text| - 1])
    ensures TrimEnd(text + after) == text
  {
    if after == "" {
      assert text + after == text;
    } else {
      assert (text + after)[..|text + after| - 1] == text + after[..|after| - 1];
      EndIsTrimmed(text, after[..|after| - 1]);
    }
  }

  /** Every casing of a plain name, with any of the suffixes or none and space around it, means the same coin. */
  lemma EverySpellingNormalizesAlike(before: string, written: string, after: string, name: string, suffix: string)
    requires Plain(name) && name != "" && Spells(written, name, suffix) && AllWhite(before) && AllWhite(after)
    ensures Normalized(before + written + after, SUFFIXES) == ToUpper(name)
  {
    SpellingHasNoSpace(written, name, suffix);
    TrimStripsSurroundings(before, written, after);
    var u := ToUpper(written);
    if suffix == "" {
      assert u == ToUpper(name);
      NothingToStrip(u, SUFFIXES);
    } else {
      assert EndsWith(u, suffix) && Stripped(u, suffix) == ToUpper(name);
      StripsTheMatchingSuffix(u, SUFFIXES, suffix);
    }
  }

  lemma SpaceSurvivesUpper(s: string, i: nat)
    requires i < |s|
    ensures White(ToUpper(s)[i]) <==> White(s[i])
  {
    UppercaseExactly(s, i);
  }

  lemma SpellingHasNoSpace(written: string, name: string, suffix: string)
    requires Plain(name) && name != "" && Spells(written, name, suffix)
    ensures written != "" && !White(written[0]) && !White(written[|written| - 1])
  {
    var (u, n) := (ToUpper(written), ToUpper(name));
    assert |u| == |n| + |suffix| && u[0] == n[0];
    SpaceSurvivesUpper(written, 0);
    SpaceSurvivesUpper(written, |written| - 1);
    SpaceSurvivesUpper(name, 0);
    SpaceSurvivesUpper(name, |name| - 1);
    if suffix == "" {
      assert u[|u| - 1] == n[|n| - 1];
    } else {
      assert u[|u| - 1] == suffix[|suffix| - 1];
    }
  }

  // ---------------------------------------------------------------- the cache

  /** One entry of the universe; `None` stands for an absent or mistyped field. */
  datatype Asset = Asset(name: Option<string>, szDecimals: Option<nat>)

  datatype Cache = Cache(coinToIndex: map<string, nat>, coinToSzDecimals: map<string, nat>)

  predicate Names(asset: Asset, upper: string) {
    asset.name.Some? && ToUpper(asset.name.value) == upper
  }

  /** The scan: the last entry of that name. */
  function LastIndex(universe: seq<Asset>, upper: string): Option<nat> {
    if universe == [] then None
    else if Names(universe[|universe| - 1], upper) then Some(|universe| - 1)
    else LastIndex(universe[..|universe| - 1], upper)
  }

  /** The last entry of that name which also has its size decimals. */
  function LastSzDecimals(universe: seq<Asset>, upper: string): Option<nat> {
    if universe == [] then None
    else if Names(universe[|universe| - 1], upper) && universe[|universe| - 1].szDecimals.Some?
    then universe[|universe| - 1].szDecimals
    else LastSzDecimals(universe[..|universe| - 1], upper)
  }

  function Get(m: map<string, nat>, key: string): Option<nat> {
    if key in m then Some(m[key]) else None
  }

  /** The cache answers as the scan would, for every name at once. */
  ghost predicate Caches(cache: Cache, universe: seq<Asset>) {
    && (forall s :: Get(cache.coinToIndex, s) == LastIndex(universe, s))
    && (forall s :: Get(cache.coinToSzDecimals, s) == LastSzDecimals(universe, s))
  }

  /** Building the maps entry by entry. */
  method Load(universe: seq<Asset>) returns (cache: Cache)
    ensures Caches(cache, universe)
  {
    var coinToIndex: map<string, nat> := map[];
    var coinToSzDecimals: map<string, nat> := map[];
    for i := 0 to |universe|
      invariant forall s :: Get(coinToIndex, s) == LastIndex(universe[..i], s)
      invariant forall s :: Get(coinToSzDecimals, s) == LastSzDecimals(universe[..i], s)
    {
      assert universe[..i + 1][..i] == universe[..i];
      var asset := universe[i];
      if asset.name.Some? {
        coinToIndex := coinToIndex[ToUpper(asset.name.value) := i];
        if asset.szDecimals.Some? {
          coinToSzDecimals := coinToSzDecimals[ToUpper(asset.name.value) := asset.szDecimals.value];
        }
      }
    }
    assert universe[..|universe|] == universe;
    cache := Cache(coinToIndex, coinToSzDecimals);
  }

  /** The index is that of the last entry of the universe that the symbol names, and `None` means that it names none. */
  method ResolveAsset(cache: Cache, ghost universe: seq<Asset>, symbol: string) returns (index: Option<nat>)
    requires Caches(cache, universe)
    ensures index.Some? ==> && index.value < |universe|
                            && Names(universe[index.value], Normalized(symbol, SUFFIXES))
    ensures forall j :: 0 <= j < |universe| && (index.Some? ==> index.value < j)
              ==> !Names(universe[j], Normalized(symbol, SUFFIXES))
  {
    var coin := NormalizeCoin(symbol);
    index := Get(cache.coinToIndex, coin);
    LastIndexIsLast(universe, coin);
  }

  /** `sz_decimals` uppercases once more; on a normalized coin that changes nothing. */
  method SzDecimalsOf(cache: Cache, symbol: string) returns (szDecimals: Option<nat>)
    ensures szDecimals == Get(cache.coinToSzDecimals, Normalized(symbol, SUFFIXES))
  {
    var coin := NormalizeCoin(symbol);
    NormalizedIsUpper(symbol, SUFFIXES);
    szDecimals := Get(cache.coinToSzDecimals, ToUpper(coin));
  }

  lemma {:induction false} StripKeepsUpper(s: string, suffixes: seq<string>)
    requires IsUpper(s)
    ensures IsUpper(StripFirst(s, suffixes))
  {
    if suffixes != [] {
      if EndsWith(s, suffixes[0]) {
        assert s == Stripped(s, suffixes[0]) + suffixes[0];
        UpperParts(Stripped(s, suffixes[0]), suffixes[0]);
      } else {
        StripKeepsUpper(s, suffixes[1..]);
      }
    }
  }

  lemma NormalizedIsUpper(coin: string, suffixes: seq<string>)
    ensures IsUpper(Normalized(coin, suffixes))
  {
    ToUpperIdempotent(Trim(coin));
    StripKeepsUpper(ToUpper(Trim(coin)), suffixes);
  }

  // ---------------------------------------------------------------- what the scan finds

  /** The scan answers with an entry of that name after which there is none, and fails only if there is none at all. */
  lemma {:induction false} LastIndexIsLast(universe: seq<Asset>, upper: string)
    ensures match LastIndex(universe, upper)
            case Some(i) => i < |universe| && Names(universe[i], upper)
                               && forall j :: i < j < |universe| ==> !Names(universe[j], upper)
            case None => forall j :: 0 <= j < |universe| ==> !Names(universe[j], upper)
  {
    if universe != [] {
      LastIndexIsLast(universe[..|universe| - 1], upper);
    }
  }

  /** Entry `i` is the last of that name that has size decimals. */
  ghost predicate LastWithDecimals(universe: seq<Asset>, upper: string, i: nat) {
    i < |universe| && Names(universe[i], upper) && universe[i].szDecimals.Some?
    && NoDecimalsAfter(universe, upper, i + 1)
  }

  ghost predicate NoDecimalsAfter(universe: seq<Asset>, upper: string, from: nat) {
    forall j :: from <= j < |universe| && Names(universe[j], upper) ==> universe[j].szDecimals.None?
  }

  /** Likewise for the size decimals, among the entries of that name that have them. */
  lemma {:induction false} LastSzDecimalsIsLast(universe: seq<Asset>, upper: string) returns (i: nat)
    ensures LastSzDecimals(universe, upper).Some? ==>
              LastWithDecimals(universe, upper, i) && universe[i].szDecimals == LastSzDecimals(universe, upper)
    ensures LastSzDecimals(universe, upper).None? ==> NoDecimalsAfter(universe, upper, 0)
  {
    i := 0;
    if universe != [] {
      var (before, n) := (universe[..|universe| - 1], |universe| - 1);
      i := LastSzDecimalsIsLast(before, upper);
      assert forall j :: 0 <= j < n ==> before[j] == universe[j];
      if Names(universe[n], upper) && universe[n].szDecimals.Some? {
        i := n;
      }
    }
  }

  /**
   Index and size decimals of a name come from the same entry exactly when its last entry has the size decimals or no
   entry of that name has them; in particular when the name is given to one entry only.
   */
  lemma {:induction false} SameEntryExactlyWhen(universe: seq<Asset>, upper: string, i: nat)
    requires LastIndex(universe, upper) == Some(i) && i < |universe|
    ensures LastSzDecimals(universe, upper) == universe[i].szDecimals
            <==> universe[i].szDecimals.Some?
                 || forall j :: 0 <= j < |universe| && Names(universe[j], upper) ==> universe[j].szDecimals.None?
  {
    var before := universe[..|universe| - 1];
    assert forall j :: 0 <= j < |before| ==> before[j] == universe[j];
    if i == |universe| - 1 {
      LastIndexIsLast(universe, upper);
      SzDecimalsMissingExactlyWhen(universe, upper);
    } else {
      LastIndexIsLast(universe, upper);
      LastIndexIsLast(before, upper);
      SameEntryExactlyWhen(before, upper, i);
    }
  }

  lemma {:induction false} SzDecimalsMissingExactlyWhen(universe: seq<Asset>, upper: string)
    ensures LastSzDecimals(universe, upper) == None
            <==> forall j :: 0 <= j < |universe| && Names(universe[j], upper) ==> universe[j].szDecimals.None?
  {
    if universe != [] {
      var before := universe[..|universe| - 1];
      assert forall j :: 0 <= j < |before| ==> before[j] == universe[j];
      SzDecimalsMissingExactlyWhen(before, upper);
    }
  }

  /** Otherwise an order takes its index from one entry and its precision from another. */
  lemma MixedEntriesExist()
    ensures var universe := [Asset(Some("AB"), Some(3)), Asset(Some("ab"), None)];
            LastIndex(universe, "AB") == Some(1) && LastSzDecimals(universe, "AB") == Some(3)
  {
    var universe := [Asset(Some("AB"), Some(3)), Asset(Some("ab"), None)];
    assert ToUpper("AB") == "AB" && ToUpper("ab") == "AB";
    assert universe[..1] == [universe[0]] && [universe[0]][..0] == [];
  }

  /**
   End to end: with the cache loaded from the universe, every spelling of a plain name resolves to the last entry
   whose uppercased name is the name's.
   */
  lemma EverySpellingResolvesAlike(universe: seq<Asset>, cache: Cache, before: string, written: string, after: string,
                                   name: string, suffix: string)
    requires Caches(cache, universe)
    requires Plain(name) && name != "" && Spells(written, name, suffix) && AllWhite(before) && AllWhite(after)
    ensures Get(cache.coinToIndex, Normalized(before + written + after, SUFFIXES)) == LastIndex(universe, ToUpper(name))
  {
    EverySpellingNormalizesAlike(before, written, after, name, suffix);
  }
}
