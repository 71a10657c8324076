/**
 * The colour-name resolver of the detector window (`get_color_code`): a
 * free-text colour name, as produced by the classifier, becomes a `#RRGGBB`
 * background code by exact lookup, then green variants, then colour
 * keywords, then a gray default.
 */
module ColorNames {
  import opened Ascii

  const RedCode := "#FF0000"
  const GreenCode := "#00FF00"
  const BlueCode := "#0000FF"
  const YellowCode := "#FFFF00"
  const OrangeCode := "#FFA500"
  const PurpleCode := "#800080"
  const PinkCode := "#FFC0CB"
  const BrownCode := "#8B4513"
  const WhiteCode := "#FFFFFF"
  const BlackCode := "#000000"
  const GrayCode := "#808080"
  const CyanCode := "#00FFFF"
  const UfoGreenCode := "#7CE263"
  const LimeCode := "#32CD32"
  const ForestGreenCode := "#228B22"
  const DarkGreenCode := "#006400"
  const LightGreenCode := "#90EE90"
  const SeaGreenCode := "#2E8B57"
  const OliveCode := "#808000"
  const TurquoiseCode := "#40E0D0"
  const TealCode := "#008080"

  /** The fixed table of exact (lower-case) names. */
  const Table: map<string, string> := map[
    "red" := RedCode, "green" := GreenCode, "blue" := BlueCode,
    "yellow" := YellowCode, "orange" := OrangeCode, "purple" := PurpleCode,
    "pink" := PinkCode, "brown" := BrownCode, "white" := WhiteCode,
    "black" := BlackCode, "gray" := GrayCode, "cyan" := CyanCode,
    "ufo green" := UfoGreenCode, "lime" := LimeCode, "forest green" := ForestGreenCode,
    "dark green" := DarkGreenCode, "light green" := LightGreenCode, "sea green" := SeaGreenCode,
    "olive" := OliveCode, "turquoise" := TurquoiseCode, "teal" := TealCode
  ]

  /** Every code the table holds; the resolver never answers anything else. */
  const Palette: set<string> := {
    RedCode, GreenCode, BlueCode, YellowCode, OrangeCode, PurpleCode, PinkCode,
    BrownCode, WhiteCode, BlackCode, GrayCode, CyanCode, UfoGreenCode, LimeCode,
    ForestGreenCode, DarkGreenCode, LightGreenCode, SeaGreenCode, OliveCode,
    TurquoiseCode, TealCode
  }

  predicate IsUpperHexDigit(c: char) {
    '0' <= c <= '9' || 'A' <= c <= 'F'
  }

  /** A `#RRGGBB` code written with capital hex digits, as the table writes them. */
  predicate IsTableCode(code: string) {
    && |code| == 7 && code[0] == '#'
    && IsUpperHexDigit(code[1]) && IsUpperHexDigit(code[2]) && IsUpperHexDigit(code[3])
    && IsUpperHexDigit(code[4]) && IsUpperHexDigit(code[5]) && IsUpperHexDigit(code[6])
  }

  /** The resolver as the source writes it: exact lookup, then the green
      branch, then the keyword chain, then gray. */
  function Resolve(name: string): (code: string)
    ensures code in Palette
  {
    var low := Lower(name);
    if low in Table then Table[low]
    else if Contains(low, "green") then GreenShade(low)
    else KeywordCode(low)
  }

  /** The green branch, for a lower-cased name that contains "green". */
  function GreenShade(low: string): string {
    if Contains(low, "ufo") || Contains(low, "lime") then UfoGreenCode
    else if Contains(low, "dark") then DarkGreenCode
    else if Contains(low, "light") then LightGreenCode
    else GreenCode
  }

  /** The keyword chain and the gray default, for a lower-cased name without
      "green". */
  function KeywordCode(low: string): string {
    if Contains(low, "red") then RedCode
    else if Contains(low, "blue") then BlueCode
    else if Contains(low, "yellow") then YellowCode
    else if Contains(low, "orange") then OrangeCode
    else if Contains(low, "purple") || Contains(low, "violet") then PurpleCode
    else if Contains(low, "pink") then PinkCode
    else if Contains(low, "brown") then BrownCode
    else if Contains(low, "white") then WhiteCode
    else if Contains(low, "black") then BlackCode
    else if Contains(low, "cyan") then CyanCode
    else GrayCode
  }

  /** Every code of the palette is a `#RRGGBB` code with capital hex digits. */
  lemma PaletteCodesWellFormed()
    ensures forall code :: code in Palette ==> IsTableCode(code)
  {
    KeywordCodesWellFormed();
    GreenCodesWellFormed();
  }

  lemma KeywordCodesWellFormed()
    ensures IsTableCode(RedCode) && IsTableCode(GreenCode) && IsTableCode(BlueCode)
    ensures IsTableCode(YellowCode) && IsTableCode(OrangeCode) && IsTableCode(PurpleCode)
    ensures IsTableCode(PinkCode) && IsTableCode(BrownCode) && IsTableCode(WhiteCode)
    ensures IsTableCode(BlackCode) && IsTableCode(GrayCode) && IsTableCode(CyanCode)
  {
  }

  lemma GreenCodesWellFormed()
    ensures IsTableCode(UfoGreenCode) && IsTableCode(LimeCode) && IsTableCode(ForestGreenCode)
    ensures IsTableCode(DarkGreenCode) && IsTableCode(LightGreenCode) && IsTableCode(SeaGreenCode)
    ensures IsTableCode(OliveCode) && IsTableCode(TurquoiseCode) && IsTableCode(TealCode)
  {
  }

  /** Every answer of the resolver is a `#RRGGBB` code with capital hex
      digits. */
  lemma ResolveIsTableCode(name: string)
    ensures IsTableCode(Resolve(name))
  {
    PaletteCodesWellFormed();
  }

  // ----- The same resolver as an ordered list of (predicate, code) rules -----

  /** A fuzzy rule: it fires when the lower-cased name contains every word of
      `allOf` and at least one word of `anyOf`. */
  datatype Rule = Rule(allOf: seq<string>, anyOf: seq<string>, code: string)

  predicate ContainsAll(low: string, words: seq<string>)
    decreases |words|
  {
    words == [] || (Contains(low, words[0]) && ContainsAll(low, words[1..]))
  }

  predicate ContainsAny(low: string, words: seq<string>)
    decreases |words|
  {
    words != [] && (Contains(low, words[0]) || ContainsAny(low, words[1..]))
  }

  predicate Fires(rule: Rule, low: string) {
    ContainsAll(low, rule.allOf) && ContainsAny(low, rule.anyOf)
  }

  /** The fuzzy rules in precedence order: the four green variants, then the
      ten colour families. */
  const Rules: seq<Rule> := [
    Rule(["green"], ["ufo", "lime"], UfoGreenCode),
    Rule(["green"], ["dark"], DarkGreenCode),
    Rule(["green"], ["light"], LightGreenCode),
    Rule([], ["green"], GreenCode),
    Rule([], ["red"], RedCode),
    Rule([], ["blue"], BlueCode),
    Rule([], ["yellow"], YellowCode),
    Rule([], ["orange"], OrangeCode),
    Rule([], ["purple", "violet"], PurpleCode),
    Rule([], ["pink"], PinkCode),
    Rule([], ["brown"], BrownCode),
    Rule([], ["white"], WhiteCode),
    Rule([], ["black"], BlackCode),
    Rule([], ["cyan"], CyanCode)
  ]

  /** First rule at or after index `k` that fires wins; none firing gives
      the gray default. */
  function FirstMatch(rules: seq<Rule>, k: nat, low: string): string
    decreases |rules| - k
  {
    if k >= |rules| then GrayCode
    else if Fires(rules[k], low) then rules[k].code
    else FirstMatch(rules, k + 1, low)
  }

  /** The resolver as a cascade over the lower-cased name. */
  function Cascade(low: string): string {
    if low in Table then Table[low] else FirstMatch(Rules, 0, low)
  }

  /** First-match-wins: the result is the code of the earliest rule that
      fires. */
  lemma {:induction false} FirstMatchIsEarliest(rules: seq<Rule>, low: string, from: nat, k: nat)
    requires from <= k < |rules| && Fires(rules[k], low)
    requires forall j :: from <= j < k ==> !Fires(rules[j], low)
    ensures FirstMatch(rules, from, low) == rules[k].code
    decreases k - from
  {
    if from < k {
      FirstMatchIsEarliest(rules, low, from + 1, k);
    }
  }

  /** When no rule carries the gray code, the cascade answers gray exactly
      when no rule fires. */
  lemma {:induction false} FirstMatchGrayIff(rules: seq<Rule>, low: string, from: nat)
    requires forall j :: 0 <= j < |rules| ==> rules[j].code != GrayCode
    ensures FirstMatch(rules, from, low) == GrayCode <==>
      forall j :: from <= j < |rules| ==> !Fires(rules[j], low)
    decreases |rules| - from
  {
    if from < |rules| {
      FirstMatchGrayIff(rules, low, from + 1);
    }
  }

  /** What each green rule of `Rules` tests, spelled out. */
  lemma GreenRulesFire(low: string)
    ensures Fires(Rules[0], low) == (Contains(low, "green") && (Contains(low, "ufo") || Contains(low, "lime")))
    ensures Fires(Rules[1], low) == (Contains(low, "green") && Contains(low, "dark"))
    ensures Fires(Rules[2], low) == (Contains(low, "green") && Contains(low, "light"))
    ensures Fires(Rules[3], low) == Contains(low, "green")
  {
  }

  /** What each keyword rule of `Rules` tests, spelled out. */
  lemma KeywordRulesFire(low: string)
    ensures Fires(Rules[4], low) == Contains(low, "red")
    ensures Fires(Rules[5], low) == Contains(low, "blue")
    ensures Fires(Rules[6], low) == Contains(low, "yellow")
    ensures Fires(Rules[7], low) == Contains(low, "orange")
    ensures Fires(Rules[8], low) == (Contains(low, "purple") || Contains(low, "violet"))
    ensures Fires(Rules[9], low) == Contains(low, "pink")
    ensures Fires(Rules[10], low) == Contains(low, "brown")
    ensures Fires(Rules[11], low) == Contains(low, "white")
    ensures Fires(Rules[12], low) == Contains(low, "black")
    ensures Fires(Rules[13], low) == Contains(low, "cyan")
  {
  }

  /** For a name with "green", the cascade is decided by the green rules,
      as the source's green branch is. */
  lemma CascadeGreen(low: string)
    requires Contains(low, "green")
    ensures FirstMatch(Rules, 0, low) == GreenShade(low)
  {
    GreenRulesFire(low);
    var rs := Rules;
    assert FirstMatch(rs, 0, low) == if Fires(rs[0], low) then rs[0].code else FirstMatch(rs, 1, low);
    assert FirstMatch(rs, 1, low) == if Fires(rs[1], low) then rs[1].code else FirstMatch(rs, 2, low);
    assert FirstMatch(rs, 2, low) == if Fires(rs[2], low) then rs[2].code else FirstMatch(rs, 3, low);
    assert FirstMatch(rs, 3, low) == rs[3].code;
  }

  /** For a name without "green", no green rule fires and the keyword rules
      decide, as the source's keyword chain does. */
  lemma CascadeKeywords(low: string)
    requires !Contains(low, "green")
    ensures FirstMatch(Rules, 0, low) == KeywordCode(low)
  {
    GreenRulesFire(low);
    KeywordRulesFire(low);
    var rs := Rules;
    assert FirstMatch(rs, 0, low) == FirstMatch(rs, 4, low) by {
      assert FirstMatch(rs, 0, low) == FirstMatch(rs, 1, low);
      assert FirstMatch(rs, 1, low) == FirstMatch(rs, 2, low);
      assert FirstMatch(rs, 2, low) == FirstMatch(rs, 3, low);
      assert FirstMatch(rs, 3, low) == FirstMatch(rs, 4, low);
    }
    assert FirstMatch(rs, 4, low) == if Fires(rs[4], low) then rs[4].code else FirstMatch(rs, 5, low);
    assert FirstMatch(rs, 5, low) == if Fires(rs[5], low) then rs[5].code else FirstMatch(rs, 6, low);
    assert FirstMatch(rs, 6, low) == if Fires(rs[6], low) then rs[6].code else FirstMatch(rs, 7, low);
    assert FirstMatch(rs, 7, low) == if Fires(rs[7], low) then rs[7].code else FirstMatch(rs, 8, low);
    assert FirstMatch(rs, 8, low) == if Fires(rs[8], low) then rs[8].code else FirstMatch(rs, 9, low);
    assert FirstMatch(rs, 9, low) == if Fires(rs[9], low) then rs[9].code else FirstMatch(rs, 10, low);
    assert FirstMatch(rs, 10, low) == if Fires(rs[10], low) then rs[10].code else FirstMatch(rs, 11, low);
    assert FirstMatch(rs, 11, low) == if Fires(rs[11], low) then rs[11].code else FirstMatch(rs, 12, low);
    assert FirstMatch(rs, 12, low) == if Fires(rs[12], low) then rs[12].code else FirstMatch(rs, 13, low);
    assert FirstMatch(rs, 13, low) == if Fires(rs[13], low) then rs[13].code else FirstMatch(rs, 14, low);
    assert FirstMatch(rs, 14, low) == GrayCode;
  }

  /** The source's if/elif chain computes exactly the ordered rule cascade. */
  lemma ResolveIsCascade(name: string)
    ensures Resolve(name) == Cascade(Lower(name))
  {
    var low := Lower(name);
    if low !in Table {
      if Contains(low, "green") {
        CascadeGreen(low);
      } else {
        CascadeKeywords(low);
      }
    }
  }

  // ----- Properties of the resolver -----

  /** An exact (case-insensitive) table name is answered from the table,
      ahead of every fuzzy rule. */
  lemma ResolveExact(name: string)
    requires Lower(name) in Table
    ensures Resolve(name) == Table[Lower(name)]
  {
  }

  /** The answer depends on the name only through its lower-case form. */
  lemma ResolveCaseInsensitive(a: string, b: string)
    requires Lower(a) == Lower(b)
    ensures Resolve(a) == Resolve(b)
    ensures Resolve(Lower(a)) == Resolve(a)
  {
    LowerIdempotent(a);
  }

  /** Precedence among the fuzzy rules: for a name outside the table, the
      earliest rule of `Rules` that fires decides the code. */
  lemma ResolveByEarliestRule(name: string, k: nat)
    requires Lower(name) !in Table
    requires k < |Rules| && Fires(Rules[k], Lower(name))
    requires forall j :: 0 <= j < k ==> !Fires(Rules[j], Lower(name))
    ensures Resolve(name) == Rules[k].code
  {
    ResolveIsCascade(name);
    FirstMatchIsEarliest(Rules, Lower(name), 0, k);
  }

  /** "green" outranks every other keyword: a name outside the table that
      contains "green" always gets one of the four green codes, whichever
      other colour words it also contains. */
  lemma GreenOutranksKeywords(name: string)
    requires Lower(name) !in Table && Contains(Lower(name), "green")
    ensures Resolve(name) in {UfoGreenCode, DarkGreenCode, LightGreenCode, GreenCode}
  {
  }

  /** The gray default comes out exactly for the table name "gray" and for
      names outside the table that no fuzzy rule recognises. */
  lemma ResolveGrayIff(name: string)
    ensures Resolve(name) == GrayCode <==>
      (Lower(name) == "gray" ||
       (Lower(name) !in Table && forall j :: 0 <= j < |Rules| ==> !Fires(Rules[j], Lower(name))))
  {
    var low := Lower(name);
    ResolveIsCascade(name);
    if low in Table {
      assert Table[low] == GrayCode <==> low == "gray";
    } else {
      assert forall j :: 0 <= j < |Rules| ==> Rules[j].code != GrayCode;
      FirstMatchGrayIff(Rules, low, 0);
    }
  }

  // ----- Worked examples, each for every capitalisation of the name -----

  lemma ExampleLime(name: string)
    requires Lower(name) == "lime"
    ensures Resolve(name) == LimeCode
  {
  }

  lemma ExampleForestGreen(name: string)
    requires Lower(name) == "forest green"
    ensures Resolve(name) == ForestGreenCode
  {
  }

  lemma ExampleGray(name: string)
    requires Lower(name) == "gray"
    ensures Resolve(name) == GrayCode
  {
  }

  lemma ExampleRed(name: string)
    requires Lower(name) == "red"
    ensures Resolve(name) == RedCode
  {
  }

  lemma ExampleUfoGreen(name: string)
    requires Lower(name) == "ufo green"
    ensures Resolve(name) == UfoGreenCode
  {
  }

  lemma ExampleDarkGreen(dark: string, plain: string)
    requires Lower(dark) == "dark green" && Lower(plain) == "green"
    ensures Resolve(dark) == DarkGreenCode != Resolve(plain)
  {
  }

  /** "green" outranks "red" even when "red" comes first in the name. */
  lemma ExampleRedGreen(name: string)
    requires Lower(name) == "red green"
    ensures Resolve(name) == GreenCode
  {
    RedGreenWords(Lower(name));
    RedGreenNoShade(Lower(name));
  }

  lemma RedGreenWords(low: string)
    requires low == "red green"
    ensures low !in Table && Contains(low, "green")
  {
    assert low[4..9] == "green";
    ContainsIff(low, "green");
    assert OccursAt(low, "green", 4);
  }

  lemma RedGreenNoShade(low: string)
    requires low == "red green"
    ensures !Contains(low, "ufo") && !Contains(low, "lime") && !Contains(low, "dark") && !Contains(low, "light")
  {
    NotContainsByChar(low, "ufo", 'u');
    NotContainsByChar(low, "lime", 'm');
    NotContainsByChar(low, "dark", 'a');
    NotContainsByChar(low, "light", 'l');
  }

  /** The first keyword of the chain that the name contains wins. */
  lemma ExampleReddishBlue(name: string)
    requires Lower(name) == "reddish blue"
    ensures Resolve(name) == RedCode
  {
    ReddishBlueWords(Lower(name));
  }

  lemma ReddishBlueWords(low: string)
    requires low == "reddish blue"
    ensures low !in Table && !Contains(low, "green") && Contains(low, "red")
  {
    assert StartsWith(low, "red");
    NotContainsByChar(low, "green", 'g');
  }

  /** The chain order decides, not the order of the words in the name. */
  lemma ExampleBlueRed(name: string)
    requires Lower(name) == "blue red"
    ensures Resolve(name) == RedCode
  {
    BlueRedWords(Lower(name));
  }

  lemma BlueRedWords(low: string)
    requires low == "blue red"
    ensures low !in Table && !Contains(low, "green") && Contains(low, "red")
  {
    NotContainsByChar(low, "green", 'g');
    assert low[5..8] == "red";
    ContainsIff(low, "red");
    assert OccursAt(low, "red", 5);
  }

  /** "lime" only matters next to "green": "Lime Light" falls through to gray. */
  lemma ExampleLimeLight(name: string)
    requires Lower(name) == "lime light"
    ensures Resolve(name) == GrayCode
  {
    LimeLightWords(Lower(name));
  }

  // `LimeLightWords` and `MysteryWords` state the same facts about two
  // literals. Each literal has its own helper so that the solver compares one
  // string at a time with the 21 table keys and the twelve colour words; one
  // helper for both names costs the solver several times as much.
  lemma LimeLightWords(low: string)
    requires low == "lime light"
    ensures low !in Table && NoColourWord(low)
  {
    NoColourWords(low);
  }

  lemma ExampleMystery(name: string)
    requires Lower(name) == "mystery"
    ensures Resolve(name) == GrayCode
  {
    MysteryWords(Lower(name));
  }

  lemma MysteryWords(low: string)
    requires low == "mystery"
    ensures low !in Table && NoColourWord(low)
  {
    NoColourWords(low);
  }

  lemma MysteryNotGray(low: string)
    requires low == "mystery"
    ensures !Contains(low, "gray")
  {
    NotContainsByChar(low, "gray", 'g');
  }

  /** `low` contains none of the words the fuzzy rules look for. */
  predicate NoColourWord(low: string) {
    && !Contains(low, "green") && !Contains(low, "red") && !Contains(low, "blue")
    && !Contains(low, "yellow") && !Contains(low, "orange") && !Contains(low, "purple")
    && !Contains(low, "violet") && !Contains(low, "pink") && !Contains(low, "brown")
    && !Contains(low, "white") && !Contains(low, "black") && !Contains(low, "cyan")
  }

  /** Helper for the examples: a name made only of letters that spell none
      of the colour words. */
  lemma NoColourWords(low: string)
    requires 'n' !in low && 'd' !in low && 'b' !in low
    requires 'o' !in low && 'p' !in low && 'w' !in low
    ensures NoColourWord(low)
  {
    NotContainsByChar(low, "green", 'n');
    NotContainsByChar(low, "red", 'd');
    NotContainsByChar(low, "blue", 'b');
    NotContainsByChar(low, "yellow", 'o');
    NotContainsByChar(low, "orange", 'o');
    NotContainsByChar(low, "purple", 'p');
    NotContainsByChar(low, "violet", 'o');
    NotContainsByChar(low, "pink", 'p');
    NotContainsByChar(low, "brown", 'b');
    NotContainsByChar(low, "white", 'w');
    NotContainsByChar(low, "black", 'b');
    NotContainsByChar(low, "cyan", 'n');
  }
}
