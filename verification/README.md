# Arduino colour detector: the text pipeline, verified

The colour detector reads report lines such as
`Color -> R: 255  G: 0  B: 0  |  HEX: #FF0000  |  Name: Red` from an Arduino.
A background worker strips each line and pulls out the three channel values
(`parse_arduino_data`). A trained classifier names the colour. The window's
colour panel then shows a code for that name (`get_color_code`), or the
measured triple itself when the name is not recognised and does not
mention gray (`update_color`).

This project models that pipeline's pure, text-level middle in Dafny:

- `ascii.dfy` (`Ascii`): the string primitives the code relies on, on ASCII.
  These are `lower()`, `upper()`, `strip()`, substring `in`, and the regular
  expression classes `\s` and `\d`.
- `color_names.dfy` (`ColorNames`): the resolver with its 21-entry table, its
  green branch, its keyword chain and the gray default. It also restates the
  resolver as an ordered list of rules, first match wins, and proves the two
  agree.
- `hex_format.dfy` (`HexFormat`): Python's `02x` formatting, the gray fallback
  to `#rrggbb`, and a decoder that reads a colour string back.
- `line_parser.dfy` (`LineParser`): the search for
  `R:\s*(\d+)\s*G:\s*(\d+)\s*B:\s*(\d+)`. A matcher is tried at each start
  position from the left. `Accepts` gives an independent, position-by-position
  description of a match. The parser provably returns the values of the
  leftmost match. It returns `None` exactly when there is no match, or when
  a group of the leftmost match has more digits than CPython's `int()`
  converts (4300 by default). A line of `R:`, `G:` and `B:` fields with any
  white space in each of its five gaps, after text without an `R` and
  before text that does not start with a digit, reads back as the values it
  holds, or as `None` when one of them has more than 4300 digits.
- `worker.dfy` (`Worker`): the body of the worker loop for one decoded line,
  and the updates it schedules over a run of lines. Also the arguments
  `update_color` passes to the panel's `configure`. The classifier is a function parameter, and its
  confidence is a value of any type.
- `options.dfy` (`Options`): the `Option` type.

Four behaviours of the code worth noting:

- The fallback colour string is lower-case hex: (10, 20, 30) gives `#0a141e`,
  not `#0A141E` (`HexFormat.ExampleFallback`).
- "Lime Light" contains no "green", so it falls through to the gray default.
  The "ufo"/"lime" test applies only inside the green branch
  (`ColorNames.ExampleLimeLight`).
- Channel values are not range-checked. A channel of 256 or more gives a
  longer `02x` field, so the fallback string is then not a 7-character
  colour code (`HexFormat.FallbackWidth`).
- A digit group longer than 4300 digits makes `int()` raise `ValueError`.
  The bare `except` swallows it and the line reads as `None`, even though
  the pattern matches; the search does not move on to a later match
  (`LineParser.ExampleTooManyDigits`).

## Model

| member | source | states |
|---|---|---|
| Ascii.ContainsIff | app.py:71-101 | `w in s` holds exactly when `w` occurs at some position of `s` |
| Ascii.StripBounds | app.py:149 | `strip()` removes only white space, from both ends, and leaves text that neither starts nor ends with white space |
| Ascii.StripEmptyIff | app.py:149-150 | the stripped line is empty exactly when the raw line is all white space |
| Ascii.LowerIdempotent | app.py:66-70 | lowering twice is lowering once |
| ColorNames.Resolve | app.py:54-103 | the resolved code is always one of the 21 codes of the table |
| ColorNames.ResolveIsTableCode | app.py:55-63 | every resolved code is `#` and six upper-case hex digits |
| ColorNames.PaletteCodesWellFormed | app.py:55-63 | every code in the table is `#` and six upper-case hex digits |
| ColorNames.GreenRulesFire | app.py:71-79 | the four green rules test "green" together with "ufo"/"lime", "dark", "light", or nothing else |
| ColorNames.KeywordRulesFire | app.py:82-101 | the ten keyword rules test red, blue, yellow, orange, purple or violet, pink, brown, white, black, cyan |
| ColorNames.FirstMatchIsEarliest | app.py:69-103 | in a rule cascade, the earliest rule that fires decides the code |
| ColorNames.FirstMatchGrayIff | app.py:103 | a cascade whose rules never give gray gives gray exactly when no rule fires |
| ColorNames.CascadeGreen | app.py:71-79 | for a name with "green", the green branch equals the cascade |
| ColorNames.CascadeKeywords | app.py:81-103 | for a name without "green", no green rule fires, and the keyword chain with its gray default equals the cascade |
| ColorNames.ResolveIsCascade | app.py:65-103 | the if/elif code gives the table entry for a table name, and otherwise the first firing rule of the ordered cascade |
| ColorNames.ResolveExact | app.py:65-67 | a name whose lower case is a table key gets that entry, ahead of every fuzzy rule |
| ColorNames.ResolveCaseInsensitive | app.py:66-70 | the result depends on the name only through its lower case |
| ColorNames.ResolveByEarliestRule | app.py:69-101 | outside the table, the earliest rule that fires decides |
| ColorNames.GreenOutranksKeywords | app.py:71-79 | outside the table, a name with "green" always gets one of the four green codes, whatever other colour words it holds |
| ColorNames.ResolveGrayIff | app.py:59-103 | gray comes out exactly for the table name "gray" and for non-table names that no rule recognises |
| ColorNames.ExampleLime | app.py:60-67 | "Lime", in any capitalisation, gives `#32CD32` |
| ColorNames.ExampleForestGreen | app.py:60-67 | "Forest Green" gives `#228B22` |
| ColorNames.ExampleGray | app.py:59-67 | "GRAY" gives `#808080` |
| ColorNames.ExampleRed | app.py:56-67 | "Red" gives `#FF0000` |
| ColorNames.ExampleUfoGreen | app.py:60-67 | "UFO Green" gives `#7CE263` |
| ColorNames.ExampleDarkGreen | app.py:56-67 | "dark green" gives `#006400`, which differs from what "green" gives |
| ColorNames.ExampleRedGreen | app.py:71-79 | "red green" gives plain green: green outranks red even when red comes first |
| ColorNames.ExampleReddishBlue | app.py:82-83 | "reddish blue" gives red |
| ColorNames.ExampleBlueRed | app.py:82-85 | "blue red" gives red: the order of the chain decides, not the order of the words |
| ColorNames.ExampleLimeLight | app.py:71-103 | "Lime Light" gives gray |
| ColorNames.ExampleMystery | app.py:103 | "Mystery" gives gray |
| HexFormat.Hex | app.py:111 | `format(n, "x")` is at least one lower-case hex digit, with no leading zero: it starts with `0` exactly when `n` is 0 |
| HexFormat.HexRoundTrip | app.py:111 | the hex digits of `n` denote `n` |
| HexFormat.HexLength | app.py:111 | `n` takes one hex digit exactly when it is below 16, and at most two exactly when it is below 256 |
| HexFormat.Hex02Facts | app.py:111 | `02x` gives at least two lower-case digits, exactly two when the value is below 256, and they denote the value |
| HexFormat.FallbackWidth | app.py:111 | the fallback string has 7 characters exactly when every channel is below 256 |
| HexFormat.FallbackRoundTrip | app.py:111 | for channels below 256, the fallback string reads back as the measured triple |
| HexFormat.DisplayCode | app.py:107-111 | the shown code is the resolved code or the fallback string |
| HexFormat.DisplayFallbackIff | app.py:107-111 | the fallback is used exactly when the name is not a table key, no rule fires, and the name does not mention "gray" |
| HexFormat.DisplayCodeIsColorCode | app.py:107-111 | for channels below 256, the shown code is always `#` and six hex digits |
| HexFormat.ExampleFallbackCode | app.py:111 | (10, 20, 30) is written `#0a141e` |
| HexFormat.ExampleWideFallback | app.py:111 | (256, 256, 256) is written `#100100100`: nine digits, three per channel |
| HexFormat.ExampleFallback | app.py:107-111 | "Mystery" with (10, 20, 30) shows `#0a141e`, not gray |
| LineParser.Decimal | app.py:122 | a device prints a value as a non-empty run of digits |
| LineParser.DecimalRoundTrip | app.py:126 | the printed digits denote the value |
| LineParser.DecimalLength | app.py:126 | the printed text of `n` has at most `k` digits exactly when `n < 10^k` |
| LineParser.DecimalConvertible | app.py:126 | `int()` accepts the printed text of `n` exactly when `n < 10^4300` |
| LineParser.SmallFits | app.py:126 | a reading whose channels are below 1000 is always converted |
| LineParser.DigitEnd | app.py:124 | greedy `\d+` stops at the first non-digit or at the end |
| LineParser.FieldAt | app.py:124 | a field's digit group lies after its label and inside the line |
| LineParser.MatchAt | app.py:124 | a match anchored at `i` starts at `i`, and its groups are in order inside the line |
| LineParser.Search | app.py:124 | `re.search` reports a start at or after where it began |
| LineParser.SearchFoundMatch | app.py:124 | the search stops where the pattern matches |
| LineParser.SearchFoundFirst | app.py:124 | the pattern matches nowhere before where the search stops |
| LineParser.SearchSkips | app.py:124 | the search passes over a position only where the pattern does not match |
| LineParser.SearchNone | app.py:124-129 | a failed search means no match at any position |
| LineParser.Parse | app.py:121-129 | `None` when the pattern matches at no position; values only when it matches somewhere |
| LineParser.DigitEndIff | app.py:124 | the greedy digit run ends at `b` exactly when `[a, b)` is all digits and no digit follows |
| LineParser.FieldAtIff | app.py:124 | a field is found at exactly the positions `Field` describes |
| LineParser.MatchAtSound | app.py:124 | what the matcher finds is a match |
| LineParser.MatchAtComplete | app.py:124 | every match is what the matcher finds at its start |
| LineParser.MatchAtIff | app.py:124 | the matcher at `i` finds `g` exactly when `g` is a match starting at `i` |
| LineParser.ParseLeftmost | app.py:124-129 | the parser returns the values of the leftmost match, or `None` when `int()` rejects one of its groups |
| LineParser.ParseSound | app.py:124-126 | whatever the parser returns is the values of the leftmost match, all of whose groups `int()` accepts |
| LineParser.SearchLeftmost | app.py:124 | a successful search stops at the leftmost match |
| LineParser.ParseNoMatch | app.py:124-129 | with no match anywhere the parser returns `None` |
| LineParser.ParseNoneIff | app.py:124-129 | the parser returns `None` exactly when there is no match or the leftmost match has a group too long for `int()` |
| LineParser.ParseNoneOutOfOrder | app.py:124-129 | a line in which no `R` comes before a `G` gives `None` |
| LineParser.ReportLeftmost | app.py:124 | a report line after text without an `R`, before text not starting with a digit, is the leftmost match, and its groups hold the printed values |
| LineParser.ParseReport | app.py:121-129 | any text without an `R`, then `R:`, `G:` and `B:` fields of any values (no range check) with any white space in each of the five gaps, then text not starting with a digit, parses to exactly those values when each is below `10^4300`, and to `None` otherwise |
| LineParser.AcceptsInWindow | app.py:124 | a match inside a stretch of the line, with no digit right after the stretch, is a match of the whole line at the shifted positions |
| LineParser.AcceptsFromWindow | app.py:124 | a match of the line that lies inside a stretch of it is a match of that stretch |
| LineParser.ParseWindow | app.py:124-129 | parsing a stretch of the line gives what parsing the whole line gives, when every match lies inside the stretch and no digit follows it |
| LineParser.ParseStrip | app.py:149-151 | stripping white space from the ends of a line never changes what the parser returns |
| LineParser.ExampleSampleLine | app.py:122 | the sample line gives (1, 1, 1) |
| LineParser.ExampleRedLine | app.py:122-126 | the device line for pure red gives (255, 0, 0) |
| LineParser.ExampleMixedSpacing | app.py:124-126 | `R:1 G:  2\tB: 3`, with different white space in each gap, gives (1, 2, 3) |
| LineParser.ExampleTooManyDigits | app.py:124-129 | a report whose red channel is at least `10^4300` matches the pattern at position 0 yet parses to `None` |
| LineParser.ExampleOutOfOrder | app.py:124-129 | "G: 1 R: 2 B: 3" gives `None` |
| Worker.Step | app.py:149-157 | an update carries the parsed triple of the stripped line and the classifier's verdict on it |
| Worker.StepSomeIff | app.py:149-152 | a line schedules an update exactly when it is not blank and its stripped text parses |
| Worker.StepIffParses | app.py:149-157 | a line schedules an update exactly when the parser reads values from the raw line, and the update carries those values |
| Worker.StepSkipsBlank | app.py:149-150 | a blank line schedules nothing |
| Worker.StepCarriesReading | app.py:151-157 | a line that parses schedules its triple, whatever the values, with the classifier's name and confidence |
| Worker.Posts | app.py:148-157 | a run of lines schedules no more updates than it has lines |
| Worker.PostsAppend | app.py:148-157 | reading `a` then `b` schedules the updates of `a`, then those of `b` |
| Worker.PostsCount | app.py:148-157 | exactly one update per line the parser reads values from |
| Worker.PostsFromLines | app.py:148-157 | every scheduled update is the update of one of the lines read |
| Worker.Show | app.py:107-114 | `configure` gets the resolved code or the fallback string as background, and as text the name with each letter in capitals and nothing else changed |
| Worker.ShowColorCode | app.py:107-114 | for channels below 256, the panel's background is always a `#rrggbb` string |
| Worker.ExampleRedEndToEnd | app.py:149-157 | the device line for pure red, classified "red", schedules (255, 0, 0) and turns the panel `#FF0000` with text "RED" |

## Left out

- Serial I/O (`serial.Serial`, `readline`, `decode`) and its exceptions, at app.py:141-170. The model starts from the decoded text of a line. A run of the worker is a finite sequence of such lines.
- The endless `while True` loop (app.py:148) as a loop: `Worker.Posts` gives the updates of a finite run of lines.
- Worker.Posts: describes only runs in which no exception is raised. The `try` at app.py:141 encloses the whole loop, so the first exception in the loop body, whether from the port or from `predict_color`, ends the worker (app.py:159-170) and no later line schedules anything. The classifier is a total function here.
- The thread and the scheduling through `root.after` (app.py:143, 157, 173-174). An update is the argument list `update_color` is scheduled with.
- `predict_color` (app.py:131-137), a TensorFlow model behind a label encoder. It is the `classify` parameter, and the confidence is an arbitrary type.
- The confidence text `{confidence:.1f}` (app.py:117), because it formats floating point.
- Widget construction, `run`, `main` and the console output (app.py:12-52, 114-119, 176-197). `Worker.Show` keeps only the panel's background and text.
- Non-ASCII text. Python's `\s`, `\d`, `lower()`, `upper()` and `strip()` are modelled on ASCII characters only.
- The `try`/`except` around the regex search (app.py:123-128) is modelled only for the one failure it can meet on ASCII text: `int()` rejecting a group longer than 4300 digits, which gives `None`. The digit limit is CPython's default. A limit changed with `sys.set_int_max_str_digits`, and interpreters without the limit, are not modelled. The limit exists from 3.11, and from 3.10.7, 3.9.14, 3.8.14 and 3.7.14 on the older branches.
- Worker.Show: does not model the info label (app.py:117), which shows the confidence.
- Worker.Show: gives the arguments of `configure`, not what Tk then does with them. A fallback string for a channel of 256 or more has more than six hex digits. Tk raises `TclError` for it at app.py:114, such as for `#1000000` from (256, 0, 0), unless the digit count is 9 or 12. Then Tk reads it as a different colour: (256, 256, 256) gives `#100100100` (`HexFormat.ExampleWideFallback`).
