/** The fan-on log written by `writeTimeToFile`: one newline-terminated record
    "<timestamp> - Time On: <seconds> seconds" appended per finished session to a
    text file opened in append mode. The file is modelled as its whole text. */
module FanLog {
  import opened Wrappers
  import opened KotlinLong

  /** Text between the timestamp and the duration. */
  const Separator: string := " - Time On: "

  /** Text after the duration, before the line terminator `appendLine` adds. */
  const Unit: string := " seconds"

  /** One record: the formatted local date-time (opaque here) and the whole seconds on. */
  datatype Entry = Entry(timestamp: string, seconds: Long)

  /** The line `appendLine` writes for one record, terminator included. */
  function FormatLine(e: Entry): string {
    e.timestamp + Separator + ToDecimal(e.seconds) + Unit + "\n"
  }

  /** Number of digits at the end of `s`. */
  function TrailingDigits(s: string): (k: nat)
    ensures k <= |s|
    ensures AllDigits(s[|s| - k..])
    ensures k < |s| ==> !IsDigit(s[|s| - k - 1])
    decreases |s|
  {
    if |s| == 0 || !IsDigit(s[|s| - 1]) then 0
    else
      var k := TrailingDigits(s[..|s| - 1]);
      assert s[..|s| - 1][|s| - 1 - k..] == s[|s| - 1 - k..|s| - 1];
      k + 1
  }

  /** `s` without the ending `suffix`, if it ends so. */
  function StripSuffix(s: string, suffix: string): (r: Option<string>)
    ensures r.Some? <==> |suffix| <= |s| && s[|s| - |suffix|..] == suffix
    ensures r.Some? ==> s == r.value + suffix
  {
    if |suffix| <= |s| && s[|s| - |suffix|..] == suffix then
      assert s == s[..|s| - |suffix|] + suffix;
      Some(s[..|s| - |suffix|])
    else None
  }

  lemma StripSuffixOf(s: string, suffix: string)
    ensures StripSuffix(s + suffix, suffix) == Some(s)
  {
  }

  /** Splits off the number at the end of `body`: its trailing digits, with the
      '-' just before them if there is one. */
  function SplitNumber(body: string): (r: (string, string))
    ensures body == r.0 + r.1
  {
    var digitsStart := |body| - TrailingDigits(body);
    var numberStart := if digitsStart > 0 && body[digitsStart - 1] == '-' then digitsStart - 1 else digitsStart;
    assert body == body[..numberStart] + body[numberStart..];
    (body[..numberStart], body[numberStart..])
  }

  /** Reads one record back from a line, working from its end, so that any text
      at all may stand before the separator. */
  function ParseLine(line: string): Option<Entry> {
    match StripSuffix(line, Unit + "\n")
    case None => None
    case Some(body) =>
      var (head, number) := SplitNumber(body);
      match StripSuffix(head, Separator)
      case None => None
      case Some(timestamp) =>
        match ParseDecimal(number)
        case None => None
        case Some(n) => if MinLong <= n <= MaxLong then Some(Entry(timestamp, n)) else None
  }

  lemma {:induction false} TrailingDigitsOfNumber(prefix: string, digits: string)
    requires AllDigits(digits)
    requires |prefix| > 0 && !IsDigit(prefix[|prefix| - 1])
    ensures TrailingDigits(prefix + digits) == |digits|
    decreases |digits|
  {
    var s := prefix + digits;
    if |digits| > 0 {
      assert s[..|s| - 1] == prefix + digits[..|digits| - 1];
      TrailingDigitsOfNumber(prefix, digits[..|digits| - 1]);
    }
  }

  /** After a text ending in a blank, the split lands exactly before the rendered number. */
  lemma SplitNumberOf(head: string, n: int)
    requires |head| > 0 && head[|head| - 1] == ' '
    ensures SplitNumber(head + ToDecimal(n)) == (head, ToDecimal(n))
  {
    var number := ToDecimal(n);
    var body := head + number;
    if n < 0 {
      assert number == "-" + number[1..];
      assert body == (head + "-") + number[1..];
      TrailingDigitsOfNumber(head + "-", number[1..]);
      assert body[|head|] == '-';
    } else {
      TrailingDigitsOfNumber(head, number);
    }
    assert body[..|head|] == head;
    assert body[|head|..] == number;
  }

  /** Reading a formatted record gives the record back, whatever its timestamp. */
  lemma ParseFormatRoundTrip(e: Entry)
    ensures ParseLine(FormatLine(e)) == Some(e)
  {
    var head := e.timestamp + Separator;
    var body := head + ToDecimal(e.seconds);
    assert FormatLine(e) == body + (Unit + "\n");
    StripSuffixOf(body, Unit + "\n");
    SplitNumberOf(head, e.seconds);
    StripSuffixOf(e.timestamp, Separator);
    DecimalRoundTrip(e.seconds);
  }

  /** A line that reads as a record is exactly that record's formatted line. */
  lemma ParseLineExact(line: string)
    requires ParseLine(line).Some?
    ensures FormatLine(ParseLine(line).value) == line
  {
    var body := StripSuffix(line, Unit + "\n").value;
    var (head, number) := SplitNumber(body);
    DecimalParseExact(number);
  }

  /** How the append of one line ended: the whole line was written, or an
      `IOException` was thrown after `reached` of its characters had reached the file
      (0 when no character of it reached the file, for example because opening the file failed). */
  datatype WriteOutcome = Written | Failed(reached: nat)

  /** `writeTimeToFile`: the file after appending the record for `e`. A failure is
      caught and reported, never rethrown, so the caller always continues. */
  function WriteTimeToFile(file: string, e: Entry, outcome: WriteOutcome): (file': string)
    ensures file <= file'
    ensures file'[|file|..] <= FormatLine(e)
    ensures outcome.Written? ==> file' == file + FormatLine(e)
    ensures outcome == Failed(0) ==> file' == file
  {
    var line := FormatLine(e);
    match outcome
    case Written => file + line
    case Failed(reached) => file + line[..if reached < |line| then reached else |line|]
  }

  /** The text of a file holding exactly these records, in order. */
  function Encode(entries: seq<Entry>): string
    decreases |entries|
  {
    if |entries| == 0 then "" else FormatLine(entries[0]) + Encode(entries[1..])
  }

  /** The text of two record sequences one after the other is the text of their concatenation. */
  lemma {:induction false} EncodeConcat(front: seq<Entry>, back: seq<Entry>)
    ensures Encode(front + back) == Encode(front) + Encode(back)
    decreases |front|
  {
    if |front| == 0 {
      assert front + back == back;
    } else {
      assert (front + back)[1..] == front[1..] + back;
      EncodeConcat(front[1..], back);
    }
  }

  /** A record can be written as one line: its timestamp holds no line break. */
  predicate SingleLine(e: Entry) {
    OneLine(e.timestamp)
  }

  /** Text holding no line break. */
  predicate OneLine(s: string) {
    '\n' !in s
  }

  predicate AllSingleLine(entries: seq<Entry>) {
    forall i :: 0 <= i < |entries| ==> SingleLine(entries[i])
  }

  /** Length of the first line of `s`, its '\n' included; 0 when `s` holds no '\n'. */
  function FirstLineLength(s: string): (k: nat)
    ensures k <= |s|
    ensures k > 0 ==> s[k - 1] == '\n' && '\n' !in s[..k - 1]
    ensures k == 0 ==> '\n' !in s
    decreases |s|
  {
    if |s| == 0 then 0
    else if s[0] == '\n' then 1
    else
      var k := FirstLineLength(s[1..]);
      if k == 0 then 0
      else
        assert s[..k] == [s[0]] + s[1..][..k - 1];
        k + 1
  }

  /** Cuts a text into its '\n'-terminated lines; none when the last line is unterminated. */
  function SplitLines(s: string): Option<seq<string>>
    decreases |s|
  {
    if |s| == 0 then Some([])
    else
      var k := FirstLineLength(s);
      if k == 0 then None
      else
        match SplitLines(s[k..])
        case None => None
        case Some(rest) => Some([s[..k]] + rest)
  }

  function ParseLines(lines: seq<string>): Option<seq<Entry>>
    decreases |lines|
  {
    if |lines| == 0 then Some([])
    else
      match ParseLine(lines[0])
      case None => None
      case Some(e) =>
        match ParseLines(lines[1..])
        case None => None
        case Some(rest) => Some([e] + rest)
  }

  /** Reads a whole log file back into its records. */
  function Decode(file: string): Option<seq<Entry>> {
    match SplitLines(file)
    case None => None
    case Some(lines) => ParseLines(lines)
  }

  lemma {:induction false} FirstLineLengthOf(line: string, rest: string)
    requires |line| > 0 && line[|line| - 1] == '\n' && '\n' !in line[..|line| - 1]
    ensures FirstLineLength(line + rest) == |line|
    decreases |line|
  {
    var s := line + rest;
    if |line| > 1 {
      assert line[0] == line[..|line| - 1][0];
      assert s[1..] == line[1..] + rest;
      assert line[1..][..|line| - 2] == line[..|line| - 1][1..];
      FirstLineLengthOf(line[1..], rest);
    }
  }

  /** The formatted line of a single-line record has its only '\n' at the end. */
  lemma FormatLineIsOneLine(e: Entry)
    ensures var line := FormatLine(e);
      line[|line| - 1] == '\n' && (SingleLine(e) <==> '\n' !in line[..|line| - 1])
  {
  }

  /** Reading back the text of single-line records gives those records. */
  lemma {:induction false} DecodeEncode(entries: seq<Entry>)
    requires AllSingleLine(entries)
    ensures Decode(Encode(entries)) == Some(entries)
    decreases |entries|
  {
    if |entries| > 0 {
      var e := entries[0];
      var line := FormatLine(e);
      var rest := Encode(entries[1..]);
      FormatLineIsOneLine(e);
      FirstLineLengthOf(line, rest);
      assert (line + rest)[..|line|] == line;
      assert (line + rest)[|line|..] == rest;
      ParseFormatRoundTrip(e);
      DecodeEncode(entries[1..]);
      assert entries == [e] + entries[1..];
    }
  }

  /** A text that reads back as records is exactly the text of those records, and
      each of them is a single-line record. */
  lemma {:induction false} DecodeExact(file: string)
    requires Decode(file).Some?
    ensures Encode(Decode(file).value) == file
    ensures AllSingleLine(Decode(file).value)
    decreases |file|
  {
    if |file| > 0 {
      var k := FirstLineLength(file);
      var line := file[..k];
      assert file == line + file[k..];
      var lines := SplitLines(file).value;
      assert lines == [line] + SplitLines(file[k..]).value;
      assert lines[1..] == SplitLines(file[k..]).value;
      var e := ParseLine(line).value;
      var es := Decode(file[k..]).value;
      assert Decode(file).value == [e] + es;
      ParseLineExact(line);
      FormatLineIsOneLine(e);
      DecodeExact(file[k..]);
      assert ([e] + es)[1..] == es;
      assert Encode([e] + es) == line + file[k..];
    }
  }

  lemma AppendAssociates(a: string, b: string, d: string)
    ensures (a + b) + d == a + (b + d)
  {
  }

  /** A failed append that leaves part of a line behind spares every earlier record but
      corrupts the next one: the next completed line is glued onto the partial text, and
      the file reads back as the earlier records followed by one record whose timestamp
      begins with that partial text. */
  lemma PartialLineCorruptsNextRecord(earlier: seq<Entry>, e1: Entry, k: nat, e2: Entry)
    requires AllSingleLine(earlier) && SingleLine(e1) && SingleLine(e2)
    requires 0 < k < |FormatLine(e1)|
    ensures Decode(WriteTimeToFile(WriteTimeToFile(Encode(earlier), e1, Failed(k)), e2, Written))
      == Some(earlier + [Entry(FormatLine(e1)[..k] + e2.timestamp, e2.seconds)])
  {
    var line := FormatLine(e1);
    var partial := line[..k];
    var glued := Entry(partial + e2.timestamp, e2.seconds);
    FormatLineIsOneLine(e1);
    assert partial == line[..|line| - 1][..k];
    assert OneLine(partial);
    FormatLineIsOneLine(e2);
    assert e2.timestamp == FormatLine(e2)[..|e2.timestamp|];
    assert SingleLine(glued);
    assert partial + FormatLine(e2) == FormatLine(glued);
    var afterFailure := WriteTimeToFile(Encode(earlier), e1, Failed(k));
    assert afterFailure == Encode(earlier) + partial;
    var afterNext := WriteTimeToFile(afterFailure, e2, Written);
    assert afterNext == afterFailure + FormatLine(e2);
    AppendAssociates(Encode(earlier), partial, FormatLine(e2));
    assert Encode([glued]) == FormatLine(glued) + Encode([]);
    EncodeConcat(earlier, [glued]);
    assert afterNext == Encode(earlier + [glued]);
    DecodeEncode(earlier + [glued]);
  }
}
