/**
 * The serial-line parser (`parse_arduino_data`): a leftmost search for
 * `R:\s*(\d+)\s*G:\s*(\d+)\s*B:\s*(\d+)`, whose three groups become
 * unbounded naturals, unless one of them is longer than the number of
 * digits CPython's `int()` agrees to convert, in which case the `ValueError`
 * is swallowed and the result is `None`.
 *
 * The regular expression is modelled by a matcher tried at each start
 * position from the left. Every `\s*` and `\d+` of the pattern is followed by
 * a character its class excludes (a digit, a space or a label letter), so
 * the greedy runs are the only ones that can succeed and the matcher never
 * backtracks. `Accepts` states the shape of a match position by position;
 * `MatchAtIff` shows the matcher finds exactly those, and the `Parse`
 * lemmas that the parser returns the values of the leftmost one.
 */
module LineParser {
  import opened Ascii
  import opened Options

  /** The three channel values of a reading, with no range check. */
  datatype Rgb = Rgb(r: nat, g: nat, b: nat)

  // ----- Digit groups and their values -----

  function DigitValue(c: char): (v: nat)
    ensures v < 10
    ensures IsDigit(c) ==> v == c as int - '0' as int
  {
    if IsDigit(c) then c as int - '0' as int else 0
  }

  /** Python's `int()` on a string of ASCII digits, most significant first
      (only ever applied to digit groups). */
  function DecValue(d: string): nat
    decreases |d|
  {
    if d == [] then 0 else DecValue(d[..|d| - 1]) * 10 + DigitValue(d[|d| - 1])
  }

  function DigitChar(v: nat): (c: char)
    requires v < 10
    ensures IsDigit(c) && DigitValue(c) == v
  {
    ('0' as int + v) as char
  }

  /** The decimal text of `n`, as a device prints it. */
  function Decimal(n: nat): (d: string)
    ensures d != [] && AllDigits(d)
  {
    if n < 10 then [DigitChar(n)] else Decimal(n / 10) + [DigitChar(n % 10)]
  }

  /** Reading back the decimal text gives the number. */
  lemma {:induction false} DecimalRoundTrip(n: nat)
    ensures DecValue(Decimal(n)) == n
  {
    if n >= 10 {
      var d := Decimal(n / 10);
      assert (d + [DigitChar(n % 10)])[..|d|] == d;
      DecimalRoundTrip(n / 10);
    }
  }

  /** CPython's default limit on the digits `int()` converts from text
      (`sys.get_int_max_str_digits()`, from Python 3.11, and from 3.10.7,
      3.9.14, 3.8.14 and 3.7.14 on the older branches); a longer digit
      string raises `ValueError`. */
  const MaxStrDigits: nat := 4300

  function Pow10(k: nat): (p: nat)
    ensures p >= 1
  {
    if k == 0 then 1 else 10 * Pow10(k - 1)
  }

  /** The decimal text of `n` has at most `k` digits exactly when `n` is
      below `10^k` (for `k >= 1`: zero still takes one digit). */
  lemma {:induction false} DecimalLength(n: nat, k: nat)
    requires k >= 1
    ensures |Decimal(n)| <= k <==> n < Pow10(k)
    decreases n
  {
    if n >= 10 {
      if k == 1 {
        assert Pow10(1) == 10;
      } else {
        DecimalLength(n / 10, k - 1);
        assert n / 10 < Pow10(k - 1) <==> n < 10 * Pow10(k - 1);
      }
    } else {
      assert Pow10(k) >= 10 by {
        assert Pow10(k) == 10 * Pow10(k - 1);
      }
    }
  }

  /** `int()` accepts the printed text of `n` exactly when `n` is below
      `10^4300`. */
  lemma DecimalConvertible(n: nat)
    ensures |Decimal(n)| <= MaxStrDigits <==> n < Pow10(MaxStrDigits)
  {
    DecimalLength(n, MaxStrDigits);
  }

  /** Channels of three digits or fewer are always converted. */
  lemma SmallFits(v: Rgb)
    requires v.r < 1000 && v.g < 1000 && v.b < 1000
    ensures Fits(v)
  {
    Pow10Grows(3, MaxStrDigits);
    assert Pow10(3) == 1000;
  }

  lemma {:induction false} Pow10Grows(i: nat, j: nat)
    requires i <= j
    ensures Pow10(i) <= Pow10(j)
    decreases j
  {
    if i < j {
      Pow10Grows(i, j - 1);
    }
  }

  // ----- The matcher -----

  /** Greedy `\d+` from position `i`: where the digit run ends (`i` itself
      when there is no digit, which the caller rejects). */
  function DigitEnd(s: string, i: nat): (j: nat)
    requires i <= |s|
    ensures i <= j <= |s|
    ensures forall k :: i <= k < j ==> IsDigit(s[k])
    ensures j == |s| || !IsDigit(s[j])
    decreases |s| - i
  {
    if i < |s| && IsDigit(s[i]) then DigitEnd(s, i + 1) else i
  }

  /** `<tag>:\s*(\d+)` at position `i`: where its digit group starts and ends. */
  function FieldAt(s: string, i: nat, tag: char): (r: Option<(nat, nat)>)
    requires i <= |s|
    ensures r.Some? ==> i + 2 <= r.value.0 < r.value.1 <= |s|
  {
    if i + 2 <= |s| && s[i] == tag && s[i + 1] == ':' then
      var d0 := SpaceEnd(s, i + 2);
      var d1 := DigitEnd(s, d0);
      if d1 == d0 then None else Some((d0, d1))
    else None
  }

  /** Positions of a match in the line: where each label stands and where
      each digit group starts and ends. */
  datatype Groups = Groups(
    at: nat, red0: nat, red1: nat,
    gAt: nat, green0: nat, green1: nat,
    bAt: nat, blue0: nat, blue1: nat)

  /** The positions of a match are in order and inside the line. */
  predicate Placed(s: string, g: Groups) {
    && g.at + 2 <= g.red0 < g.red1 <= g.gAt
    && g.gAt + 2 <= g.green0 < g.green1 <= g.bAt
    && g.bAt + 2 <= g.blue0 < g.blue1 <= |s|
  }

  /** The whole pattern anchored at position `i` (`re.match` from `i`). */
  function MatchAt(s: string, i: nat): (r: Option<Groups>)
    requires i <= |s|
    ensures r.Some? ==> r.value.at == i && Placed(s, r.value)
  {
    match FieldAt(s, i, 'R')
    case None => None
    case Some((red0, red1)) =>
      var gAt := SpaceEnd(s, red1);
      match FieldAt(s, gAt, 'G')
      case None => None
      case Some((green0, green1)) =>
        var bAt := SpaceEnd(s, green1);
        match FieldAt(s, bAt, 'B')
        case None => None
        case Some((blue0, blue1)) =>
          Some(Groups(i, red0, red1, gAt, green0, green1, bAt, blue0, blue1))
  }

  /** Every digit group of the match at `g` is short enough for `int()`. */
  predicate Convertible(g: Groups) {
    && g.red1 - g.red0 <= MaxStrDigits
    && g.green1 - g.green0 <= MaxStrDigits
    && g.blue1 - g.blue0 <= MaxStrDigits
  }

  /** `list(map(int, match.groups()))` for a match at `g` whose groups are
      `Convertible`. */
  function ValuesAt(s: string, g: Groups): Rgb
    requires Placed(s, g)
  {
    Rgb(DecValue(s[g.red0..g.red1]), DecValue(s[g.green0..g.green1]), DecValue(s[g.blue0..g.blue1]))
  }

  /** Where a search succeeded, and what it matched. */
  datatype Found = Found(start: nat, groups: Groups)

  /** `re.search` from position `i`: the leftmost start at or after `i`
      where the pattern matches. */
  function Search(s: string, i: nat): (r: Option<Found>)
    requires i <= |s|
    ensures r.Some? ==> i <= r.value.start <= |s|
    decreases |s| - i
  {
    var m := MatchAt(s, i);
    if m.Some? then Some(Found(i, m.value))
    else if i == |s| then None
    else Search(s, i + 1)
  }

  /** A successful search stops at a position where the pattern matches. */
  lemma {:induction false} SearchFoundMatch(s: string, i: nat)
    requires i <= |s| && Search(s, i).Some?
    ensures MatchAt(s, Search(s, i).value.start) == Some(Search(s, i).value.groups)
    decreases |s| - i
  {
    var m := MatchAt(s, i);
    if m.Some? {
      assert Search(s, i) == Some(Found(i, m.value));
    } else {
      assert Search(s, i) == Search(s, i + 1);
      SearchFoundMatch(s, i + 1);
    }
  }

  /** ... and the pattern matches nowhere between `i` and that position. */
  lemma {:induction false} SearchFoundFirst(s: string, i: nat)
    requires i <= |s| && Search(s, i).Some?
    ensures forall j :: i <= j < Search(s, i).value.start ==> MatchAt(s, j).None?
  {
    forall j | i <= j < Search(s, i).value.start
      ensures MatchAt(s, j).None?
    {
      SearchSkips(s, i, j);
    }
  }

  /** A failed search means the pattern matches at no position from `i` on. */
  lemma {:induction false} SearchNone(s: string, i: nat)
    requires i <= |s| && Search(s, i).None?
    ensures forall j :: i <= j <= |s| ==> MatchAt(s, j).None?
  {
    forall j | i <= j <= |s|
      ensures MatchAt(s, j).None?
    {
      SearchSkips(s, i, j);
    }
  }

  /** The search passes over position `j` only where the pattern does not
      match there. */
  lemma {:induction false} SearchSkips(s: string, i: nat, j: nat)
    requires i <= j <= |s|
    requires Search(s, i).None? || j < Search(s, i).value.start
    ensures MatchAt(s, j).None?
    decreases j - i
  {
    if i < j {
      assert Search(s, i) == Search(s, i + 1);
      SearchSkips(s, i + 1, j);
    }
  }

  /** `parse_arduino_data`: the values of the leftmost match, or `None`
      when the pattern matches at no position of the line, or when `int()`
      rejects a group of the leftmost match (the search does not go on to a
      later match). */
  function Parse(line: string): (r: Option<Rgb>)
    ensures (forall j :: 0 <= j <= |line| ==> MatchAt(line, j).None?) ==> r.None?
    ensures r.Some? ==> exists j :: 0 <= j <= |line| && MatchAt(line, j).Some?
  {
    match Search(line, 0)
    case None =>
      None
    case Some(f) =>
      SearchFoundMatch(line, 0);
      if Convertible(f.groups) then Some(ValuesAt(line, f.groups)) else None
  }

  // ----- What a match is, position by position -----

  /** `[a, b)` holds only digits. */
  predicate DigitRun(s: string, a: nat, b: nat) {
    a <= b <= |s| && forall k :: a <= k < b ==> IsDigit(s[k])
  }

  /** `<tag>:`, white space, then the digit group `[d0, d1)`, which no
      further digit follows. */
  predicate Field(s: string, at: nat, tag: char, d0: nat, d1: nat) {
    && at + 2 <= |s| && s[at] == tag && s[at + 1] == ':'
    && Spaces(s, at + 2, d0) && d0 < d1 && DigitRun(s, d0, d1)
    && (d1 == |s| || !IsDigit(s[d1]))
  }

  /** The line holds the pattern at the positions `g`. */
  predicate Accepts(s: string, g: Groups) {
    && Field(s, g.at, 'R', g.red0, g.red1) && Spaces(s, g.red1, g.gAt)
    && Field(s, g.gAt, 'G', g.green0, g.green1) && Spaces(s, g.green1, g.bAt)
    && Field(s, g.bAt, 'B', g.blue0, g.blue1)
  }

  /** A match no other match starts before. */
  ghost predicate Leftmost(s: string, g: Groups) {
    Accepts(s, g) && forall h :: Accepts(s, h) ==> g.at <= h.at
  }

  lemma {:induction false} DigitEndIff(s: string, a: nat, b: nat)
    requires a <= b <= |s|
    ensures DigitEnd(s, a) == b <==> DigitRun(s, a, b) && (b == |s| || !IsDigit(s[b]))
    decreases b - a
  {
    if a < b && IsDigit(s[a]) {
      DigitEndIff(s, a + 1, b);
    }
  }


  /** One labelled field is found exactly where `Field` holds. */
  lemma FieldAtIff(s: string, at: nat, tag: char, d0: nat, d1: nat)
    requires at <= |s|
    ensures FieldAt(s, at, tag) == Some((d0, d1)) <==> Field(s, at, tag, d0, d1)
  {
    if at + 2 <= |s| && s[at] == tag && s[at + 1] == ':' {
      var e0 := SpaceEnd(s, at + 2);
      var e1 := DigitEnd(s, e0);
      if Field(s, at, tag, d0, d1) {
        assert IsDigit(s[d0]);
        SpaceEndIff(s, at + 2, d0);
        DigitEndIff(s, d0, d1);
      }
      if FieldAt(s, at, tag) == Some((d0, d1)) {
        assert e0 == d0 && e1 == d1;
        SpaceEndIff(s, at + 2, d0);
      }
    }
  }

  lemma MatchAtSound(s: string, i: nat, g: Groups)
    requires i <= |s| && MatchAt(s, i) == Some(g)
    ensures Accepts(s, g)
  {
    FieldAtIff(s, i, 'R', g.red0, g.red1);
    SpaceEndIff(s, g.red1, g.gAt);
    FieldAtIff(s, g.gAt, 'G', g.green0, g.green1);
    SpaceEndIff(s, g.green1, g.bAt);
    FieldAtIff(s, g.bAt, 'B', g.blue0, g.blue1);
  }

  lemma MatchAtComplete(s: string, g: Groups)
    requires Accepts(s, g)
    ensures MatchAt(s, g.at) == Some(g)
  {
    FieldAtIff(s, g.at, 'R', g.red0, g.red1);
    assert s[g.gAt] == 'G';
    SpaceEndIff(s, g.red1, g.gAt);
    FieldAtIff(s, g.gAt, 'G', g.green0, g.green1);
    assert s[g.bAt] == 'B';
    SpaceEndIff(s, g.green1, g.bAt);
    FieldAtIff(s, g.bAt, 'B', g.blue0, g.blue1);
  }

  /** The matcher anchored at `i` finds `g` exactly when the line holds the
      pattern at the positions `g` starting at `i`. */
  lemma MatchAtIff(s: string, i: nat, g: Groups)
    requires i <= |s|
    ensures MatchAt(s, i) == Some(g) <==> g.at == i && Accepts(s, g)
  {
    if MatchAt(s, i) == Some(g) {
      MatchAtSound(s, i, g);
    }
    if g.at == i && Accepts(s, g) {
      MatchAtComplete(s, g);
    }
  }

  // ----- The parser returns the leftmost match -----

  /** A successful search stops at the leftmost match. */
  lemma SearchLeftmost(s: string) returns (g: Groups)
    requires Search(s, 0).Some?
    ensures Leftmost(s, g) && Search(s, 0).value.groups == g
  {
    var f := Search(s, 0).value;
    SearchFoundMatch(s, 0);
    SearchFoundFirst(s, 0);
    g := f.groups;
    MatchAtSound(s, f.start, g);
    forall h | Accepts(s, h)
      ensures g.at <= h.at
    {
      MatchAtComplete(s, h);
    }
  }

  /** The parser returns the values of the leftmost match, or `None` when
      one of its groups is too long for `int()`. */
  lemma ParseLeftmost(s: string, g: Groups)
    requires Leftmost(s, g)
    ensures Parse(s) == if Convertible(g) then Some(ValuesAt(s, g)) else None
  {
    MatchAtComplete(s, g);
    if Search(s, 0).None? {
      SearchNone(s, 0);
      assert false;
    }
    var h := SearchLeftmost(s);
    MatchAtComplete(s, h);
    assert h == g;
  }

  /** Whatever the parser returns is the values of the leftmost match, whose
      groups `int()` accepts. */
  lemma ParseSound(s: string) returns (g: Groups)
    requires Parse(s).Some?
    ensures Leftmost(s, g) && Convertible(g) && Parse(s) == Some(ValuesAt(s, g))
  {
    assert Search(s, 0).Some?;
    g := SearchLeftmost(s);
  }

  /** With no match anywhere, the parser finds nothing. */
  lemma ParseNoMatch(s: string)
    requires forall g :: !Accepts(s, g)
    ensures Parse(s) == None
  {
    if Search(s, 0).Some? {
      var g := SearchLeftmost(s);
    }
  }

  /** The parser returns `None` exactly when the line has no match, or its
      leftmost match has a group too long for `int()`. */
  lemma ParseNoneIff(s: string)
    ensures Parse(s).None? <==> forall g :: Leftmost(s, g) ==> !Convertible(g)
  {
    if Search(s, 0).Some? {
      var g := SearchLeftmost(s);
      forall h | Leftmost(s, h)
        ensures h == g
      {
        MatchAtComplete(s, g);
        MatchAtComplete(s, h);
      }
    } else {
      forall g | Leftmost(s, g)
        ensures false
      {
        MatchAtComplete(s, g);
        SearchNone(s, 0);
      }
    }
  }

  /** A line whose every `G` comes before every `R` has no match: the labels
      must appear in the order R, G, B. */
  lemma ParseNoneOutOfOrder(a: string, b: string)
    requires 'R' !in a && 'G' !in b
    ensures Parse(a + b) == None
  {
    var s := a + b;
    forall g
      ensures !Accepts(s, g)
    {
      if g.at < |a| {
        assert s[g.at] == a[g.at];
      }
      if |a| <= g.gAt < |s| {
        assert s[g.gAt] == b[g.gAt - |a|];
      }
    }
    ParseNoMatch(s);
  }

  // ----- The lines a device prints are read back exactly -----

  /** Nothing a greedy `\d+` could still take. */
  predicate NoDigitFirst(t: string) {
    t == [] || !IsDigit(t[0])
  }

  /** One labelled field as printed: `<tag>:`, white space, the digits. */
  function FieldText(tag: char, w: string, d: string): (t: string)
    ensures |t| == 2 + |w| + |d|
  {
    [tag, ':'] + w + d
  }

  /** The white space a report line holds in each of its five gaps: after
      each label, and between the fields. */
  datatype Spacing = Spacing(afterR: string, beforeG: string, afterG: string, beforeB: string, afterB: string)

  predicate Blank(w: Spacing) {
    AllSpace(w.afterR) && AllSpace(w.beforeG) && AllSpace(w.afterG) && AllSpace(w.beforeB) && AllSpace(w.afterB)
  }

  /** A report line for the reading `v`, spaced as `w` says. */
  function Report(v: Rgb, w: Spacing): string {
    FieldText('R', w.afterR, Decimal(v.r)) + w.beforeG
      + FieldText('G', w.afterG, Decimal(v.g)) + w.beforeB
      + FieldText('B', w.afterB, Decimal(v.b))
  }

  /** Every channel of `v` prints with few enough digits for `int()`. */
  predicate Fits(v: Rgb) {
    v.r < Pow10(MaxStrDigits) && v.g < Pow10(MaxStrDigits) && v.b < Pow10(MaxStrDigits)
  }

  /** `x` stands in `s` from position `a` on. */
  predicate At(s: string, a: nat, x: string) {
    a + |x| <= |s| && forall k :: 0 <= k < |x| ==> s[a + k] == x[k]
  }

  lemma AtSplit(s: string, a: nat, x: string, y: string)
    requires At(s, a, x + y)
    ensures At(s, a, x) && At(s, a + |x|, y)
  {
    forall k | 0 <= k < |x|
      ensures s[a + k] == x[k]
    {
      assert (x + y)[k] == x[k];
    }
    forall k | 0 <= k < |y|
      ensures s[a + |x| + k] == y[k]
    {
      assert s[a + (|x| + k)] == (x + y)[|x| + k];
    }
  }

  lemma AtFirst(s: string, a: nat, x: string)
    requires At(s, a, x) && x != []
    ensures s[a] == x[0]
  {
    assert s[a + 0] == x[0];
  }

  lemma AtSlice(s: string, a: nat, x: string)
    requires At(s, a, x)
    ensures s[a..a + |x|] == x
  {
    forall k | 0 <= k < |x|
      ensures s[a..a + |x|][k] == x[k]
    {
      assert s[a + k] == x[k];
    }
  }

  lemma SpacesFrom(s: string, a: nat, w: string)
    requires At(s, a, w) && AllSpace(w)
    ensures Spaces(s, a, a + |w|)
  {
    forall k | a <= k < a + |w|
      ensures IsSpace(s[k])
    {
      assert s[a + (k - a)] == w[k - a];
    }
  }

  /** A printed field, not followed by a further digit, is a `Field`
      whose digit group is the printed digits. */
  lemma FieldFrom(s: string, at: nat, tag: char, w: string, d: string)
    requires At(s, at, FieldText(tag, w, d)) && AllSpace(w) && d != [] && AllDigits(d)
    requires at + 2 + |w| + |d| == |s| || !IsDigit(s[at + 2 + |w| + |d|])
    ensures Field(s, at, tag, at + 2 + |w|, at + 2 + |w| + |d|)
    ensures s[at + 2 + |w|..at + 2 + |w| + |d|] == d
  {
    AtSplit(s, at, [tag, ':'] + w, d);
    AtSplit(s, at, [tag, ':'], w);
    AtFirst(s, at, [tag, ':']);
    assert s[at + 1] == ':' by {
      assert s[at + 1] == [tag, ':'][1];
    }
    SpacesFrom(s, at + 2, w);
    AtSlice(s, at + 2 + |w|, d);
    var d0 := at + 2 + |w|;
    forall k | d0 <= k < d0 + |d|
      ensures IsDigit(s[k])
    {
      assert s[d0 + (k - d0)] == d[k - d0];
    }
  }

  /** Where the parts of a report printed at position `at` stand. */
  function ReportGroups(at: nat, v: Rgb, w: Spacing): Groups {
    var red0 := at + 2 + |w.afterR|;
    var gAt := red0 + |Decimal(v.r)| + |w.beforeG|;
    var green0 := gAt + 2 + |w.afterG|;
    var bAt := green0 + |Decimal(v.g)| + |w.beforeB|;
    var blue0 := bAt + 2 + |w.afterB|;
    Groups(at, red0, red0 + |Decimal(v.r)|, gAt, green0, green0 + |Decimal(v.g)|,
           bAt, blue0, blue0 + |Decimal(v.b)|)
  }

  /** The fields of a report printed at `at` stand where `ReportGroups`
      says. */
  lemma ReportLayout(s: string, at: nat, v: Rgb, w: Spacing)
    requires At(s, at, Report(v, w))
    ensures var g := ReportGroups(at, v, w);
      && At(s, g.at, FieldText('R', w.afterR, Decimal(v.r))) && At(s, g.red1, w.beforeG)
      && At(s, g.gAt, FieldText('G', w.afterG, Decimal(v.g))) && At(s, g.green1, w.beforeB)
      && At(s, g.bAt, FieldText('B', w.afterB, Decimal(v.b)))
  {
    var fr, fg, fb := FieldText('R', w.afterR, Decimal(v.r)), FieldText('G', w.afterG, Decimal(v.g)),
      FieldText('B', w.afterB, Decimal(v.b));
    AtSplit(s, at, fr + w.beforeG + fg + w.beforeB, fb);
    AtSplit(s, at, fr + w.beforeG + fg, w.beforeB);
    AtSplit(s, at, fr + w.beforeG, fg);
    AtSplit(s, at, fr, w.beforeG);
  }

  /** After the digits of the red and green fields comes no further digit. */
  lemma ReportGapsNoDigit(s: string, at: nat, v: Rgb, w: Spacing)
    requires At(s, at, Report(v, w)) && AllSpace(w.beforeG) && AllSpace(w.beforeB)
    ensures var g := ReportGroups(at, v, w);
      !IsDigit(s[g.red1]) && !IsDigit(s[g.green1])
  {
    var g := ReportGroups(at, v, w);
    ReportLayout(s, at, v, w);
    if w.beforeG != [] {
      AtFirst(s, g.red1, w.beforeG);
    } else {
      AtFirst(s, g.gAt, FieldText('G', w.afterG, Decimal(v.g)));
    }
    if w.beforeB != [] {
      AtFirst(s, g.green1, w.beforeB);
    } else {
      AtFirst(s, g.bAt, FieldText('B', w.afterB, Decimal(v.b)));
    }
  }

  lemma ReportRed(s: string, at: nat, v: Rgb, w: Spacing)
    requires At(s, at, Report(v, w)) && Blank(w)
    ensures var g := ReportGroups(at, v, w);
      Field(s, g.at, 'R', g.red0, g.red1) && s[g.red0..g.red1] == Decimal(v.r)
  {
    ReportLayout(s, at, v, w);
    ReportGapsNoDigit(s, at, v, w);
    FieldFrom(s, at, 'R', w.afterR, Decimal(v.r));
  }

  lemma ReportGreen(s: string, at: nat, v: Rgb, w: Spacing)
    requires At(s, at, Report(v, w)) && Blank(w)
    ensures var g := ReportGroups(at, v, w);
      Field(s, g.gAt, 'G', g.green0, g.green1) && s[g.green0..g.green1] == Decimal(v.g)
  {
    var g := ReportGroups(at, v, w);
    ReportLayout(s, at, v, w);
    ReportGapsNoDigit(s, at, v, w);
    FieldFrom(s, g.gAt, 'G', w.afterG, Decimal(v.g));
  }

  lemma ReportBlue(s: string, at: nat, v: Rgb, w: Spacing)
    requires At(s, at, Report(v, w)) && AllSpace(w.afterB)
    requires var e := at + |Report(v, w)|; e == |s| || !IsDigit(s[e])
    ensures var g := ReportGroups(at, v, w);
      Field(s, g.bAt, 'B', g.blue0, g.blue1) && s[g.blue0..g.blue1] == Decimal(v.b)
  {
    var g := ReportGroups(at, v, w);
    ReportLayout(s, at, v, w);
    FieldFrom(s, g.bAt, 'B', w.afterB, Decimal(v.b));
  }

  lemma ReportGaps(s: string, at: nat, v: Rgb, w: Spacing)
    requires At(s, at, Report(v, w)) && AllSpace(w.beforeG) && AllSpace(w.beforeB)
    ensures var g := ReportGroups(at, v, w);
      Spaces(s, g.red1, g.gAt) && Spaces(s, g.green1, g.bAt)
  {
    var g := ReportGroups(at, v, w);
    ReportLayout(s, at, v, w);
    SpacesFrom(s, g.red1, w.beforeG);
    SpacesFrom(s, g.green1, w.beforeB);
  }

  /** A report printed at `at`, not followed by a further digit, is a match
      there whose values are the reading printed. */
  lemma ReportAccepted(s: string, at: nat, v: Rgb, w: Spacing)
    requires At(s, at, Report(v, w)) && Blank(w)
    requires var e := at + |Report(v, w)|; e == |s| || !IsDigit(s[e])
    ensures Accepts(s, ReportGroups(at, v, w))
    ensures ValuesAt(s, ReportGroups(at, v, w)) == v
  {
    ReportRed(s, at, v, w);
    ReportGreen(s, at, v, w);
    ReportBlue(s, at, v, w);
    ReportGaps(s, at, v, w);
    DecimalRoundTrip(v.r);
    DecimalRoundTrip(v.g);
    DecimalRoundTrip(v.b);
  }

  lemma AtMiddle(p: string, x: string, q: string)
    ensures At(p + x + q, |p|, x)
  {
    var s := p + x + q;
    forall k | 0 <= k < |x|
      ensures s[|p| + k] == x[k]
    {
      assert s[|p| + k] == (p + x)[|p| + k];
    }
  }

  /** A match with no `R` before it is the leftmost one. */
  lemma LeftmostWhenNoEarlierR(s: string, g: Groups)
    requires Accepts(s, g) && forall k :: 0 <= k < g.at ==> s[k] != 'R'
    ensures Leftmost(s, g)
  {
  }

  /** A report line after any text without an `R`, before any text that
      does not start with a digit, is the leftmost match, and its groups
      hold the values printed. */
  lemma ReportLeftmost(p: string, v: Rgb, w: Spacing, q: string)
    requires 'R' !in p && Blank(w) && NoDigitFirst(q)
    ensures var s, g := p + Report(v, w) + q, ReportGroups(|p|, v, w);
      Leftmost(s, g) && ValuesAt(s, g) == v
  {
    var rep := Report(v, w);
    var s := p + rep + q;
    AtMiddle(p, rep, q);
    assert |p| + |rep| == |s| || !IsDigit(s[|p| + |rep|]) by {
      if q != [] {
        assert s[|p| + |rep|] == q[0];
      }
    }
    ReportAccepted(s, |p|, v, w);
    assert forall k :: 0 <= k < |p| ==> s[k] != 'R' by {
      forall k | 0 <= k < |p|
        ensures s[k] != 'R'
      {
        assert s[k] == p[k];
      }
    }
    LeftmostWhenNoEarlierR(s, ReportGroups(|p|, v, w));
  }

  /** A report line with any white space in each gap, after any text
      without an `R` and before any text that does not start with a digit,
      parses to exactly the reading printed, for any values (no range
      check), as long as `int()` accepts every channel's digits; otherwise
      the parser gives `None`. */
  lemma ParseReport(p: string, v: Rgb, w: Spacing, q: string)
    requires 'R' !in p && Blank(w) && NoDigitFirst(q)
    ensures Parse(p + Report(v, w) + q) == if Fits(v) then Some(v) else None
  {
    ReportLeftmost(p, v, w, q);
    ParseLeftmost(p + Report(v, w) + q, ReportGroups(|p|, v, w));
    DecimalConvertible(v.r);
    DecimalConvertible(v.g);
    DecimalConvertible(v.b);
  }

  // ----- Text around the match does not matter -----

  /** The positions `h` are the positions `g` moved `a` places to the
      right. */
  predicate Shifted(g: Groups, a: nat, h: Groups) {
    && h.at == a + g.at && h.red0 == a + g.red0 && h.red1 == a + g.red1
    && h.gAt == a + g.gAt && h.green0 == a + g.green0 && h.green1 == a + g.green1
    && h.bAt == a + g.bAt && h.blue0 == a + g.blue0 && h.blue1 == a + g.blue1
  }

  function Shift(g: Groups, a: nat): (h: Groups)
    ensures Shifted(g, a, h)
  {
    Groups(a + g.at, a + g.red0, a + g.red1, a + g.gAt, a + g.green0, a + g.green1,
           a + g.bAt, a + g.blue0, a + g.blue1)
  }

  /** No digit follows the window of `s` that starts at `a` and holds `t`. */
  predicate NoDigitAfter(s: string, a: nat, t: string) {
    a + |t| == |s| || (a + |t| < |s| && !IsDigit(s[a + |t|]))
  }

  // In the lemmas below, a position `x` of the window `t` is position
  // `a + x` of the line `s`; the line's positions are passed in as well, so
  // that each conclusion names them as the caller does.

  lemma SpacesInWindow(s: string, a: nat, t: string, i: nat, j: nat, si: nat, sj: nat)
    requires At(s, a, t) && Spaces(t, i, j) && si == a + i && sj == a + j
    ensures Spaces(s, si, sj)
  {
    forall k | si <= k < sj
      ensures IsSpace(s[k])
    {
      assert s[a + (k - a)] == t[k - a];
    }
  }

  lemma SpacesFromWindow(s: string, a: nat, t: string, i: nat, j: nat, si: nat, sj: nat)
    requires At(s, a, t) && Spaces(s, si, sj) && si == a + i && sj == a + j && sj <= a + |t|
    ensures Spaces(t, i, j)
  {
    forall k | i <= k < j
      ensures IsSpace(t[k])
    {
      assert s[a + k] == t[k];
    }
  }

  lemma FieldInWindow(s: string, a: nat, t: string, tag: char,
                      at: nat, d0: nat, d1: nat, sat: nat, s0: nat, s1: nat)
    requires At(s, a, t) && NoDigitAfter(s, a, t) && Field(t, at, tag, d0, d1)
    requires sat == a + at && s0 == a + d0 && s1 == a + d1
    ensures Field(s, sat, tag, s0, s1)
  {
    assert s[a + at] == t[at] && s[a + (at + 1)] == t[at + 1];
    SpacesInWindow(s, a, t, at + 2, d0, sat + 2, s0);
    forall k | s0 <= k < s1
      ensures IsDigit(s[k])
    {
      assert s[a + (k - a)] == t[k - a];
    }
    if d1 < |t| {
      assert s[a + d1] == t[d1];
    }
  }

  lemma FieldFromWindow(s: string, a: nat, t: string, tag: char,
                        at: nat, d0: nat, d1: nat, sat: nat, s0: nat, s1: nat)
    requires At(s, a, t) && Field(s, sat, tag, s0, s1)
    requires sat == a + at && s0 == a + d0 && s1 == a + d1 && s1 <= a + |t|
    ensures Field(t, at, tag, d0, d1)
  {
    assert t[at] == s[a + at] && t[at + 1] == s[a + (at + 1)];
    SpacesFromWindow(s, a, t, at + 2, d0, sat + 2, s0);
    forall k | d0 <= k < d1
      ensures IsDigit(t[k])
    {
      assert s[a + k] == t[k];
    }
    if d1 < |t| {
      assert s[a + d1] == t[d1];
    }
  }

  /** A match inside a window is a match of the whole line, when no digit
      follows the window. */
  lemma AcceptsInWindow(s: string, a: nat, t: string, g: Groups, h: Groups)
    requires At(s, a, t) && NoDigitAfter(s, a, t) && Accepts(t, g) && Shifted(g, a, h)
    ensures Accepts(s, h)
  {
    FieldInWindow(s, a, t, 'R', g.at, g.red0, g.red1, h.at, h.red0, h.red1);
    SpacesInWindow(s, a, t, g.red1, g.gAt, h.red1, h.gAt);
    FieldInWindow(s, a, t, 'G', g.gAt, g.green0, g.green1, h.gAt, h.green0, h.green1);
    SpacesInWindow(s, a, t, g.green1, g.bAt, h.green1, h.bAt);
    FieldInWindow(s, a, t, 'B', g.bAt, g.blue0, g.blue1, h.bAt, h.blue0, h.blue1);
  }

  /** A match of the line that lies inside a window is a match of the
      window. */
  lemma AcceptsFromWindow(s: string, a: nat, t: string, g: Groups) returns (h: Groups)
    requires At(s, a, t) && Accepts(s, g) && a <= g.at && g.blue1 <= a + |t|
    ensures Accepts(t, h) && Shifted(h, a, g)
  {
    h := Groups(g.at - a, g.red0 - a, g.red1 - a, g.gAt - a, g.green0 - a, g.green1 - a,
                g.bAt - a, g.blue0 - a, g.blue1 - a);
    FieldFromWindow(s, a, t, 'R', h.at, h.red0, h.red1, g.at, g.red0, g.red1);
    SpacesFromWindow(s, a, t, h.red1, h.gAt, g.red1, g.gAt);
    FieldFromWindow(s, a, t, 'G', h.gAt, h.green0, h.green1, g.gAt, g.green0, g.green1);
    SpacesFromWindow(s, a, t, h.green1, h.bAt, g.green1, g.bAt);
    FieldFromWindow(s, a, t, 'B', h.bAt, h.blue0, h.blue1, g.bAt, g.blue0, g.blue1);
  }

  lemma SliceInWindow(s: string, a: nat, t: string, i: nat, j: nat)
    requires At(s, a, t) && i <= j <= |t|
    ensures t[i..j] == s[a + i..a + j]
  {
    forall k | 0 <= k < j - i
      ensures t[i..j][k] == s[a + i..a + j][k]
    {
      assert s[a + (i + k)] == t[i + k];
    }
  }

  lemma ValuesInWindow(s: string, a: nat, t: string, h: Groups, g: Groups)
    requires At(s, a, t) && Placed(t, h) && Placed(s, g) && Shifted(h, a, g)
    ensures ValuesAt(t, h) == ValuesAt(s, g)
  {
    SliceInWindow(s, a, t, h.red0, h.red1);
    SliceInWindow(s, a, t, h.green0, h.green1);
    SliceInWindow(s, a, t, h.blue0, h.blue1);
  }

  /** Parsing a window of the line gives what parsing the line gives, when
      every match of the line lies inside the window and no digit follows
      it. */
  lemma ParseWindow(s: string, a: nat, t: string)
    requires At(s, a, t) && NoDigitAfter(s, a, t)
    requires forall g :: Accepts(s, g) ==> a <= g.at && g.blue1 <= a + |t|
    ensures Parse(t) == Parse(s)
  {
    if Search(s, 0).Some? {
      var g := SearchLeftmost(s);
      var h := AcceptsFromWindow(s, a, t, g);
      forall h' | Accepts(t, h')
        ensures h.at <= h'.at
      {
        AcceptsInWindow(s, a, t, h', Shift(h', a));
      }
      ParseLeftmost(t, h);
      ParseLeftmost(s, g);
      MatchAtComplete(t, h);
      MatchAtComplete(s, g);
      ValuesInWindow(s, a, t, h, g);
    } else {
      forall g | Accepts(s, g)
        ensures false
      {
        MatchAtComplete(s, g);
        SearchNone(s, 0);
      }
      forall h | Accepts(t, h)
        ensures false
      {
        AcceptsInWindow(s, a, t, h, Shift(h, a));
      }
      ParseNoMatch(t);
    }
  }

  /** Stripping white space from the ends of a line does not change what the
      parser finds: a match starts with `R` and ends with a digit. */
  lemma ParseStrip(s: string)
    ensures Parse(Strip(s)) == Parse(s)
  {
    var a, b := StripBounds(s);
    var t := Strip(s);
    assert At(s, a, t) by {
      forall k | 0 <= k < |t|
        ensures s[a + k] == t[k]
      {
      }
    }
    if b < |s| {
      assert IsSpace(s[b]);
    }
    forall g | Accepts(s, g)
      ensures a <= g.at && g.blue1 <= b
    {
      assert !IsSpace(s[g.at]);
      assert !IsSpace(s[g.blue1 - 1]);
    }
    ParseWindow(s, a, t);
  }

  // ----- Worked examples -----

  /** The sample line of the device format, written here as its three
      parts, reads as (1, 1, 1); the text around the fields is ignored. */
  lemma ExampleSampleLine(line: string)
    requires line == "Color -> " + "R: 1  G: 1  B: 1" + "  |  HEX: #010101  |  Name: Black"
    ensures Parse(line) == Some(Rgb(1, 1, 1))
  {
    SampleReport();
    SmallFits(Rgb(1, 1, 1));
    ParseReport("Color -> ", Rgb(1, 1, 1), Spacing(" ", "  ", " ", "  ", " "), "  |  HEX: #010101  |  Name: Black");
  }

  lemma SampleReport()
    ensures Report(Rgb(1, 1, 1), Spacing(" ", "  ", " ", "  ", " ")) == "R: 1  G: 1  B: 1"
  {
    assert Decimal(1) == "1";
    assert FieldText('R', " ", "1") == "R: 1";
    assert FieldText('G', " ", "1") == "G: 1";
    assert FieldText('B', " ", "1") == "B: 1";
  }

  /** A device line for pure red reads as (255, 0, 0). */
  lemma ExampleRedLine(line: string)
    requires line == "Color -> " + "R: 255  G: 0  B: 0" + "  |  HEX: #FF0000  |  Name: Red"
    ensures Parse(line) == Some(Rgb(255, 0, 0))
  {
    RedReport();
    SmallFits(Rgb(255, 0, 0));
    ParseReport("Color -> ", Rgb(255, 0, 0), Spacing(" ", "  ", " ", "  ", " "), "  |  HEX: #FF0000  |  Name: Red");
  }

  lemma RedReport()
    ensures Report(Rgb(255, 0, 0), Spacing(" ", "  ", " ", "  ", " ")) == "R: 255  G: 0  B: 0"
  {
    assert Decimal(255) == "255" by {
      assert Decimal(2) == "2";
      assert Decimal(25) == "25";
    }
    assert Decimal(0) == "0";
    assert FieldText('R', " ", "255") == "R: 255";
    assert FieldText('G', " ", "0") == "G: 0";
    assert FieldText('B', " ", "0") == "B: 0";
  }

  /** A line that mixes the gaps, `R:1 G:  2\tB: 3`, reads as (1, 2, 3). */
  lemma ExampleMixedSpacing(line: string)
    requires line == "R:1 G:  2\tB: 3"
    ensures Parse(line) == Some(Rgb(1, 2, 3))
  {
    MixedReport(line);
    SmallFits(Rgb(1, 2, 3));
    ParseReport([], Rgb(1, 2, 3), Spacing("", " ", "  ", "\t", " "), []);
  }

  lemma MixedReport(line: string)
    requires line == "R:1 G:  2\tB: 3"
    ensures [] + Report(Rgb(1, 2, 3), Spacing("", " ", "  ", "\t", " ")) + [] == line
  {
    assert Decimal(1) == "1" && Decimal(2) == "2" && Decimal(3) == "3";
    assert FieldText('R', "", "1") == "R:1";
    assert FieldText('G', "  ", "2") == "G:  2";
    assert FieldText('B', " ", "3") == "B: 3";
  }

  /** A red channel too long for `int()`, however it is spaced, makes the
      whole line read as nothing, although the pattern matches. */
  lemma ExampleTooManyDigits(v: Rgb, w: Spacing)
    requires v.r >= Pow10(MaxStrDigits) && Blank(w)
    ensures Parse(Report(v, w)) == None
    ensures MatchAt(Report(v, w), 0).Some?
  {
    ParseReport([], v, w, []);
    assert [] + Report(v, w) + [] == Report(v, w);
    AtMiddle([], Report(v, w), []);
    ReportAccepted(Report(v, w), 0, v, w);
    MatchAtComplete(Report(v, w), ReportGroups(0, v, w));
  }

  /** Labels out of order give nothing. */
  lemma ExampleOutOfOrder(line: string)
    requires line == "G: 1 R: 2 B: 3"
    ensures Parse(line) == None
  {
    OutOfOrderSplit(line);
    ParseNoneOutOfOrder("G: 1 ", "R: 2 B: 3");
  }

  lemma OutOfOrderSplit(line: string)
    requires line == "G: 1 R: 2 B: 3"
    ensures line == "G: 1 " + "R: 2 B: 3" && 'R' !in "G: 1 " && 'G' !in "R: 2 B: 3"
  {
  }
}
