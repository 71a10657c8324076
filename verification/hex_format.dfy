/**
 * The background code the window finally shows (`update_color`): the
 * resolved name code, or, when resolution only produced the gray default for
 * a name that does not mention gray, the measured triple written as
 * `#` followed by each channel in Python's `02x` format.
 */
module HexFormat {
  import opened Ascii
  import opened ColorNames
  import opened Options

  const LowerHexDigits := "0123456789abcdef"

  predicate IsLowerHexDigit(c: char) {
    '0' <= c <= '9' || 'a' <= c <= 'f'
  }

  /** A hex digit of either case, as a `#rrggbb` colour string may hold. */
  predicate IsHexDigit(c: char) {
    '0' <= c <= '9' || 'a' <= c <= 'f' || 'A' <= c <= 'F'
  }

  predicate AllHex(s: string) {
    forall i :: 0 <= i < |s| ==> IsHexDigit(s[i])
  }

  function HexDigit(d: nat): (c: char)
    requires d < 16
    ensures IsLowerHexDigit(c)
  {
    LowerHexDigits[d]
  }

  function HexDigitValue(c: char): (d: nat)
    requires IsHexDigit(c)
    ensures d < 16
  {
    if '0' <= c <= '9' then c as int - '0' as int
    else if 'a' <= c <= 'f' then c as int - 'a' as int + 10
    else c as int - 'A' as int + 10
  }

  /** The number a string of hex digits denotes, most significant first. */
  function HexValue(s: string): nat
    requires AllHex(s)
    decreases |s|
  {
    if s == [] then 0 else HexValue(s[..|s| - 1]) * 16 + HexDigitValue(s[|s| - 1])
  }

  /** Python's `format(n, "x")`: lower-case hex digits, no leading zero. */
  function Hex(n: nat): (s: string)
    ensures 1 <= |s|
    ensures forall i :: 0 <= i < |s| ==> IsLowerHexDigit(s[i])
    ensures |s| == 1 || s[0] != '0'
    ensures s[0] == '0' <==> n == 0
    decreases n
  {
    if n < 16 then [HexDigit(n)] else Hex(n / 16) + [HexDigit(n % 16)]
  }

  /** Python's zero fill to a minimum width (`0<width>` in a format spec). */
  function ZeroPad(s: string, width: nat): (r: string)
    ensures |r| == if |s| >= width then |s| else width
  {
    if |s| >= width then s else seq(width - |s|, _ => '0') + s
  }

  /** Python's `f"{n:02x}"`. */
  function Hex02(n: nat): string {
    ZeroPad(Hex(n), 2)
  }

  /** The fallback background `f"#{r:02x}{g:02x}{b:02x}"`. */
  function FallbackCode(r: nat, g: nat, b: nat): string {
    "#" + Hex02(r) + Hex02(g) + Hex02(b)
  }

  /** The background `update_color` gives the display: the resolved code,
      unless that is the gray default and the name does not mention gray,
      in which case the measured triple itself. */
  function DisplayCode(r: nat, g: nat, b: nat, name: string): (code: string)
    ensures code == Resolve(name) || code == FallbackCode(r, g, b)
  {
    var named := Resolve(name);
    if named == GrayCode && !Contains(Lower(name), "gray") then FallbackCode(r, g, b) else named
  }

  /** A `#` followed by six hex digits. */
  predicate IsColorCode(code: string) {
    |code| == 7 && code[0] == '#' && AllHex(code[1..])
  }

  /** How a `#rrggbb` colour string is read back as three channel values. */
  function DecodeCode(code: string): Option<(nat, nat, nat)> {
    if IsColorCode(code) then
      Some((HexValue(code[1..3]), HexValue(code[3..5]), HexValue(code[5..7])))
    else None
  }

  // ----- Hex formatting -----

  lemma {:induction false} HexRoundTrip(n: nat)
    ensures AllHex(Hex(n)) && HexValue(Hex(n)) == n
    decreases n
  {
    var s := Hex(n);
    if n >= 16 {
      HexRoundTrip(n / 16);
      assert s[..|s| - 1] == Hex(n / 16);
    }
  }

  /** A leading zero does not change the value. */
  lemma {:induction false} LeadingZero(s: string)
    requires AllHex(s)
    ensures AllHex(['0'] + s) && HexValue(['0'] + s) == HexValue(s)
    decreases |s|
  {
    if s != [] {
      var t := ['0'] + s;
      assert t[..|t| - 1] == ['0'] + s[..|s| - 1];
      LeadingZero(s[..|s| - 1]);
    }
  }

  /** One hex digit exactly below 16, at most two exactly below 256. */
  lemma {:induction false} HexLength(n: nat)
    ensures |Hex(n)| == 1 <==> n < 16
    ensures |Hex(n)| <= 2 <==> n < 256
    decreases n
  {
    if n >= 16 {
      HexLength(n / 16);
    }
  }

  /** `02x` gives exactly two digits for a channel below 256 and more
      digits otherwise; the digits always denote the channel. */
  lemma Hex02Facts(n: nat)
    ensures |Hex02(n)| >= 2
    ensures |Hex02(n)| == 2 <==> n < 256
    ensures forall i :: 0 <= i < |Hex02(n)| ==> IsLowerHexDigit(Hex02(n)[i])
    ensures AllHex(Hex02(n)) && HexValue(Hex02(n)) == n
  {
    HexLength(n);
    HexRoundTrip(n);
    if n < 16 {
      assert Hex02(n) == ['0'] + Hex(n);
      LeadingZero(Hex(n));
    }
  }

  // ----- The fallback code -----

  /** The fallback code is a proper `#rrggbb` exactly when every channel is
      below 256; a wider value widens its field. */
  lemma FallbackWidth(r: nat, g: nat, b: nat)
    ensures |FallbackCode(r, g, b)| == 7 <==> r < 256 && g < 256 && b < 256
  {
    Hex02Facts(r);
    Hex02Facts(g);
    Hex02Facts(b);
  }

  /** For in-range channels the fallback code reads back as the measured
      triple. */
  lemma FallbackRoundTrip(r: nat, g: nat, b: nat)
    requires r < 256 && g < 256 && b < 256
    ensures DecodeCode(FallbackCode(r, g, b)) == Some((r, g, b))
  {
    Hex02Facts(r);
    Hex02Facts(g);
    Hex02Facts(b);
    var code := FallbackCode(r, g, b);
    assert code[1..3] == Hex02(r);
    assert code[3..5] == Hex02(g);
    assert code[5..7] == Hex02(b);
    assert IsColorCode(code) by {
      forall i | 0 <= i < 6 ensures IsHexDigit(code[1..][i]) {
        if i < 2 { assert code[1..][i] == Hex02(r)[i]; }
        else if i < 4 { assert code[1..][i] == Hex02(g)[i - 2]; }
        else { assert code[1..][i] == Hex02(b)[i - 4]; }
      }
    }
  }

  // ----- The displayed code -----

  /** The display falls back to the measured triple exactly when the name is
      neither a table name nor recognised by any fuzzy rule, and does not
      mention gray; otherwise it shows the resolved code. */
  lemma DisplayFallbackIff(r: nat, g: nat, b: nat, name: string)
    ensures DisplayCode(r, g, b, name) ==
      if Lower(name) in Table || Contains(Lower(name), "gray")
         || exists j :: 0 <= j < |Rules| && Fires(Rules[j], Lower(name))
      then Resolve(name) else FallbackCode(r, g, b)
  {
    ResolveGrayIff(name);
    if Lower(name) == "gray" {
      assert StartsWith(Lower(name), "gray");
    }
  }

  /** A table code is a colour string. */
  lemma TableCodeIsColorCode(code: string)
    requires IsTableCode(code)
    ensures IsColorCode(code)
  {
    forall i | 0 <= i < 6
      ensures IsHexDigit(code[1..][i])
    {
      assert code[1..][i] == code[i + 1];
    }
  }

  /** For in-range channels the display always gets a `#` and six hex
      digits, whichever branch produced it. */
  lemma DisplayCodeIsColorCode(r: nat, g: nat, b: nat, name: string)
    requires r < 256 && g < 256 && b < 256
    ensures IsColorCode(DisplayCode(r, g, b, name))
  {
    if DisplayCode(r, g, b, name) == FallbackCode(r, g, b) {
      FallbackRoundTrip(r, g, b);
    } else {
      ResolveIsTableCode(name);
      TableCodeIsColorCode(Resolve(name));
    }
  }

  /** (10, 20, 30) is written `#0a141e`: lower case, each channel padded to
      two digits. */
  lemma ExampleFallbackCode()
    ensures FallbackCode(10, 20, 30) == "#0a141e"
  {
    assert Hex(10) == "a" && Hex(20) == "14" && Hex(30) == "1e";
    assert Hex02(10) == "0a" && Hex02(20) == "14" && Hex02(30) == "1e";
  }

  /** Channels of 256 widen their fields: (256, 256, 256) is written with
      nine digits, which a reader of `#rrggbb` strings does not accept. */
  lemma ExampleWideFallback()
    ensures FallbackCode(256, 256, 256) == "#100100100"
    ensures !IsColorCode(FallbackCode(256, 256, 256))
  {
    assert Hex(1) == "1" && Hex(16) == "10" && Hex(256) == "100";
    assert Hex02(256) == "100";
  }

  /** A name the resolver does not know shows the measured colour. */
  lemma ExampleFallback(name: string)
    requires Lower(name) == "mystery"
    ensures DisplayCode(10, 20, 30, name) == "#0a141e"
  {
    ExampleMystery(name);
    MysteryNotGray(Lower(name));
    ExampleFallbackCode();
  }
}
