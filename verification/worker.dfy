/**
 * One pass of the serial worker's loop body and the display update it
 * schedules: a decoded line is stripped, skipped when empty, parsed, and a
 * parsed reading is classified and handed to `update_color`. Reading the
 * port, the thread and the scheduling on the window's event loop are not
 * part of this model; the classifier is a function parameter, and its
 * confidence value is of an arbitrary type `C`.
 */
module Worker {
  import opened Ascii
  import opened Options
  import opened LineParser
  import opened ColorNames
  import opened HexFormat

  /** The arguments `update_color` is scheduled with. */
  datatype Update<C> = Update(r: nat, g: nat, b: nat, name: string, confidence: C)

  /** The loop body for one decoded line `raw`: the update it schedules, if
      any. */
  function Step<C>(raw: string, classify: Rgb -> (string, C)): (u: Option<Update<C>>)
    ensures u.Some? ==> Parse(Strip(raw)) == Some(Rgb(u.value.r, u.value.g, u.value.b))
    ensures u.Some? ==> classify(Rgb(u.value.r, u.value.g, u.value.b)) == (u.value.name, u.value.confidence)
  {
    var line := Strip(raw);
    if line == [] then None
    else
      match Parse(line)
      case None => None
      case Some(v) =>
        var (name, confidence) := classify(v);
        Some(Update(v.r, v.g, v.b, name, confidence))
  }

  /** The updates scheduled, in order, while the worker reads `lines`. */
  function Posts<C>(lines: seq<string>, classify: Rgb -> (string, C)): (us: seq<Update<C>>)
    ensures |us| <= |lines|
  {
    Scheduled(lines, raw => Step(raw, classify))
  }

  /** What a loop that runs `step` on each of `lines` in turn schedules. */
  function Scheduled<T>(lines: seq<string>, step: string -> Option<T>): (us: seq<T>)
    ensures |us| <= |lines|
  {
    if lines == [] then [] else Emitted(step(lines[0])) + Scheduled(lines[1..], step)
  }

  /** The update a step schedules, as a sequence of zero or one updates. */
  function Emitted<T>(o: Option<T>): (us: seq<T>)
    ensures |us| == if o.Some? then 1 else 0
  {
    if o.Some? then [o.value] else []
  }

  /** How many of `lines` hold a reading: the parser reads values from
      them. */
  function ParsedCount(lines: seq<string>): nat {
    if lines == [] then 0
    else (if Parse(lines[0]).Some? then 1 else 0) + ParsedCount(lines[1..])
  }

  // ----- One line -----

  /** A line schedules an update exactly when it is not blank and the
      pattern occurs in its stripped text. */
  lemma StepSomeIff<C>(raw: string, classify: Rgb -> (string, C))
    ensures Step(raw, classify).Some? <==> !AllSpace(raw) && Parse(Strip(raw)).Some?
  {
    StripEmptyIff(raw);
  }

  /** A blank line (only white space, or nothing) schedules nothing. */
  lemma StepSkipsBlank<C>(raw: string, classify: Rgb -> (string, C))
    requires AllSpace(raw)
    ensures Step(raw, classify) == None
  {
    StripEmptyIff(raw);
  }

  /** A line that parses schedules the parsed triple with the classifier's
      verdict on it, whatever the size of the values. */
  lemma StepCarriesReading<C>(raw: string, classify: Rgb -> (string, C), v: Rgb)
    requires Parse(Strip(raw)) == Some(v)
    ensures Step(raw, classify) == Some(Update(v.r, v.g, v.b, classify(v).0, classify(v).1))
  {
    if Strip(raw) == [] {
      ParseNoneIff(Strip(raw));
      var g := ParseSound(Strip(raw));
    }
  }

  /** Stripping and the blank-line test change nothing about which lines
      are read: a line schedules an update exactly when the parser reads
      values from the raw line, and the update carries those values. */
  lemma StepIffParses<C>(raw: string, classify: Rgb -> (string, C))
    ensures Step(raw, classify).Some? <==> Parse(raw).Some?
    ensures Step(raw, classify).Some? ==>
      Parse(raw) == Some(Rgb(Step(raw, classify).value.r, Step(raw, classify).value.g, Step(raw, classify).value.b))
  {
    ParseStrip(raw);
    if Parse(raw).Some? {
      StepCarriesReading(raw, classify, Parse(raw).value);
    }
  }

  // ----- A run of lines -----

  /** Reading `a` and then `b` schedules the updates of `a`, then those of
      `b`. */
  lemma PostsAppend<C>(a: seq<string>, b: seq<string>, classify: Rgb -> (string, C))
    ensures Posts(a + b, classify) == Posts(a, classify) + Posts(b, classify)
  {
    ScheduledAppend(a, b, raw => Step(raw, classify));
  }

  /** Exactly one update per line that holds a reading. */
  lemma {:induction false} PostsCount<C>(lines: seq<string>, classify: Rgb -> (string, C))
    ensures |Posts(lines, classify)| == ParsedCount(lines)
    decreases |lines|
  {
    if lines != [] {
      StepIffParses(lines[0], classify);
      PostsCount(lines[1..], classify);
    }
  }

  /** Every scheduled update comes from one of the lines read, and carries
      that line's parsed triple. */
  lemma PostsFromLines<C>(lines: seq<string>, classify: Rgb -> (string, C), k: nat)
    requires k < |Posts(lines, classify)|
    ensures exists i :: 0 <= i < |lines| && Step(lines[i], classify) == Some(Posts(lines, classify)[k])
  {
    var step := raw => Step(raw, classify);
    var i := ScheduledFrom(lines, step, k);
    assert step(lines[i]) == Step(lines[i], classify);
  }

  lemma {:induction false} ScheduledAppend<T>(a: seq<string>, b: seq<string>, step: string -> Option<T>)
    ensures Scheduled(a + b, step) == Scheduled(a, step) + Scheduled(b, step)
    decreases |a|
  {
    if a != [] {
      assert (a + b)[0] == a[0] && (a + b)[1..] == a[1..] + b;
      ScheduledAppend(a[1..], b, step);
    } else {
      assert a + b == b;
    }
  }

  lemma {:induction false} ScheduledFrom<T>(lines: seq<string>, step: string -> Option<T>, k: nat) returns (i: nat)
    requires k < |Scheduled(lines, step)|
    ensures i < |lines| && step(lines[i]) == Some(Scheduled(lines, step)[k])
    decreases |lines|
  {
    var first := Emitted(step(lines[0]));
    var rest := Scheduled(lines[1..], step);
    if k < |first| {
      i := 0;
    } else {
      assert Scheduled(lines, step)[k] == rest[k - |first|];
      var j := ScheduledFrom(lines[1..], step, k - |first|);
      i := j + 1;
    }
  }

  // ----- What `update_color` shows -----

  /** The colour panel after `update_color`: its background and its text. */
  datatype Panel = Panel(background: string, text: string)

  /** The arguments `update_color` passes to the panel's `configure`. */
  function Show<C>(u: Update<C>): (p: Panel)
    ensures p.background == Resolve(u.name) || p.background == FallbackCode(u.r, u.g, u.b)
    ensures |p.text| == |u.name|
    ensures forall i :: 0 <= i < |p.text| ==> p.text[i] == UpperChar(u.name[i])
    ensures forall i :: 0 <= i < |p.text| ==> !IsLowerLetter(p.text[i])
  {
    Panel(DisplayCode(u.r, u.g, u.b, u.name), Upper(u.name))
  }

  /** For a reading whose channels fit in a byte, the panel always gets a
      well-formed `#rrggbb` background. */
  lemma ShowColorCode<C>(u: Update<C>)
    requires u.r < 256 && u.g < 256 && u.b < 256
    ensures IsColorCode(Show(u).background)
  {
    DisplayCodeIsColorCode(u.r, u.g, u.b, u.name);
  }

  // ----- End to end -----

  /** The device's line for pure red, classified as "red", schedules
      (255, 0, 0) with that name, and the panel turns the table's red. */
  lemma ExampleRedEndToEnd<C>(line: string, classify: Rgb -> (string, C), confidence: C)
    requires line == "Color -> " + "R: 255  G: 0  B: 0" + "  |  HEX: #FF0000  |  Name: Red"
    requires classify(Rgb(255, 0, 0)) == ("red", confidence)
    ensures Step(line, classify) == Some(Update(255, 0, 0, "red", confidence))
    ensures Show(Step(line, classify).value) == Panel(RedCode, "RED")
  {
    RedLineStripped(line);
    ExampleRedLine(line);
    StepCarriesReading(line, classify, Rgb(255, 0, 0));
    ShowRed(confidence);
  }

  lemma RedLineStripped(line: string)
    requires line == "Color -> " + "R: 255  G: 0  B: 0" + "  |  HEX: #FF0000  |  Name: Red"
    ensures Strip(line) == line
  {
    StripUnchanged(line);
  }

  lemma ShowRed<C>(confidence: C)
    ensures Show(Update(255, 0, 0, "red", confidence)) == Panel(RedCode, "RED")
  {
    ExampleRed("red");
    assert Upper("red") == "RED";
  }
}
