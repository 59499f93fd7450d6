# Haum_Heat fan session tracker in Dafny

This project models the one piece of real logic in the Haum_Heat Android client: the fan
on/off session tracker. The fan screen remembers two values, `isFanOn` (initially `false`)
and `startTime` (initially `0L`). Each click on the fan image works like this:

- A click while off stamps `startTime` with the millisecond clock.
- A click while on computes the elapsed milliseconds, divides by 1000 with Kotlin's
  truncating `Long` division, and calls `writeTimeToFile`.
- `writeTimeToFile` opens `fanOnTime.txt` in append mode. It appends the line
  `"<yyyy-MM-dd HH:mm:ss> - Time On: <n> seconds"` plus a `'\n'` terminator. It catches any
  `IOException`.
- In both cases the flag flips.

Modules:

- `Wrappers`: the `Option` type.
- `KotlinLong`: the JVM `Long` behaviour the handler depends on. This covers the 64-bit range,
  wrap-around subtraction (`Sub`), division truncating toward zero (`DivTrunc1000`), and the
  decimal rendering of a string template (`ToDecimal`). It also has an exact parser for
  that rendering.
- `FanLog`: the log record, the line template `FormatLine` builds for it, and the append
  (`WriteTimeToFile`). `FormatLine` itself is pinned down by its round-trip rows below.
  The file is modelled as its whole text. The module also reads a line back (`ParseLine`)
  and a whole file back (`Decode`), as the partner that the round-trip lemmas connect to.
- `FanSwitch`: the click handler as a pure state machine (`Toggle`, `OnClick`). It also has
  runs over arbitrary click sequences (`Run`, `Trace`, `Sessions`, `Recorded`) and the
  lemmas about them.

Outside inputs become parameters of each `Click`:

- the `System.currentTimeMillis()` reading;
- the formatted `LocalDateTime.now()` string, which the model treats as opaque;
- how the file append ended (`WriteOutcome`).

`Failed(k)` means an `IOException` was thrown after the first `k` characters of the line had
reached the file. `Failed(0)` means no character of the line reached the file, for example
because opening it failed, or because the buffered line was lost when `close()` failed.

Three behaviours of the code are worth stating plainly:

- The duration is truncated toward zero. The wall clock can move backwards, so elapsed time
  can be negative. Then the code writes a non-positive duration such as `-1` for -1500 ms,
  where rounding down would give `-2`.
- A failed append can leave a partial line in the file. `Failed(k)` with `k > 0` models
  this. The file is still append-only in every case, so earlier records stay intact. The
  next record does not: its completed line is glued onto the partial one and reads back as
  one record whose timestamp begins with the partial text (`PartialLineCorruptsNextRecord`).
- The program never reads the log back. `Decode` is the model's own inverse of the writer.

## Model

| member | source | states |
|---|---|---|
| KotlinLong.Wrap | Haum_Heat/app/src/main/java/com/example/haum_heat/MainActivity.kt:213 | the `Long` result agrees with the exact integer modulo 2^64 and equals it whenever it fits in 64 bits |
| KotlinLong.Sub | Haum_Heat/app/src/main/java/com/example/haum_heat/MainActivity.kt:213 | `now - startTime` is the exact difference when it fits (in particular for two non-negative clock readings with start ≤ now) and the 2^64-wrapped difference otherwise |
| KotlinLong.DivTrunc1000 | Haum_Heat/app/src/main/java/com/example/haum_heat/MainActivity.kt:214 | `elapsed / 1000` truncates toward zero: for non-negative elapsed, q·1000 ≤ elapsed < q·1000+1000 with q ≥ 0; for negative elapsed, q ≤ 0 and q·1000−1000 < elapsed ≤ q·1000 |
| KotlinLong.ToDecimal | Haum_Heat/app/src/main/java/com/example/haum_heat/MainActivity.kt:244 | `$timeInSeconds` renders as a non-empty run of digits, preceded by '-' exactly for negative values |
| KotlinLong.DigitsRoundTrip | Haum_Heat/app/src/main/java/com/example/haum_heat/MainActivity.kt:244 | the digits rendered for a magnitude denote that magnitude |
| KotlinLong.CanonicalDigitsRoundTrip | Haum_Heat/app/src/main/java/com/example/haum_heat/MainActivity.kt:244 | every digit run without a leading zero is the rendering of the number it denotes, and denotes 0 only when it is "0" |
| KotlinLong.DecimalRoundTrip | Haum_Heat/app/src/main/java/com/example/haum_heat/MainActivity.kt:244 | the rendered duration of every integer parses back to that integer |
| KotlinLong.DecimalParseExact | Haum_Heat/app/src/main/java/com/example/haum_heat/MainActivity.kt:244 | every text that parses as a number is exactly the rendering of that number, so rendering and parsing are inverse bijections |
| FanLog.ParseFormatRoundTrip | Haum_Heat/app/src/main/java/com/example/haum_heat/MainActivity.kt:244 | the line `FormatLine` builds, `"<ts> - Time On: <n> seconds\n"`, reads back as the record (ts, n), for any timestamp text whatsoever |
| FanLog.ParseLineExact | Haum_Heat/app/src/main/java/com/example/haum_heat/MainActivity.kt:244 | every line that reads as a record is exactly the line `FormatLine` writes for that record |
| FanLog.FormatLineIsOneLine | Haum_Heat/app/src/main/java/com/example/haum_heat/MainActivity.kt:244 | every line ends in '\n', and it holds no other '\n' exactly when its timestamp holds none |
| FanLog.WriteTimeToFile | Haum_Heat/app/src/main/java/com/example/haum_heat/MainActivity.kt:237-255 | appending never alters earlier text; what is added is a prefix of the record's line; a completed append adds the whole line; an append where no character reached the file adds nothing; a caught `IOException` never escapes |
| FanLog.EncodeConcat | Haum_Heat/app/src/main/java/com/example/haum_heat/MainActivity.kt:243-244 | appending lines to a file in append mode gives the file of the concatenated record sequence |
| FanLog.DecodeEncode | Haum_Heat/app/src/main/java/com/example/haum_heat/MainActivity.kt:243-244 | a file made of the lines of single-line records reads back as exactly those records, in order |
| FanLog.DecodeExact | Haum_Heat/app/src/main/java/com/example/haum_heat/MainActivity.kt:243-244 | any file that reads back as records is exactly the text of those records, and each has a single-line timestamp |
| FanLog.PartialLineCorruptsNextRecord | Haum_Heat/app/src/main/java/com/example/haum_heat/MainActivity.kt:243-253 | for any single-line earlier records and any two single-line records: when the first append fails after k characters (0 < k < whole line) and the next completes, the file reads back as all earlier records intact, followed by one record that carries the second record's seconds and a timestamp made of the k partial characters followed by the second record's timestamp |
| FanSwitch.Toggle | Haum_Heat/app/src/main/java/com/example/haum_heat/MainActivity.kt:211-218 | the flag always flips; turning on stamps `startTime := now` and reports nothing; turning off keeps `startTime` and reports the whole seconds elapsed, truncated toward zero for either sign of elapsed time |
| FanSwitch.OnClick | Haum_Heat/app/src/main/java/com/example/haum_heat/MainActivity.kt:211-220 | a click flips the flag whatever the write outcome; the log only grows; turning on leaves the log untouched; a completed turn-off appends exactly the record line with the closing timestamp and the session's seconds; an append where no character reached the file changes nothing in the log |
| FanSwitch.Alternation | Haum_Heat/app/src/main/java/com/example/haum_heat/MainActivity.kt:218 | over any click sequence the states alternate strictly, and after i clicks the flag is the starting flag flipped i times |
| FanSwitch.RunEndsInTrace | Haum_Heat/app/src/main/java/com/example/haum_heat/MainActivity.kt:211-218 | the fan state after a run is the last state of its alternating trace |
| FanSwitch.FlagAfterClicks | Haum_Heat/app/src/main/java/com/example/haum_heat/MainActivity.kt:192-218 | a fresh screen starts off with `startTime = 0` over whatever the persisted log already holds; from there the flag after N clicks is on exactly when N is odd, and zero clicks leave that screen as it is |
| FanSwitch.SessionsAreTurnOffs | Haum_Heat/app/src/main/java/com/example/haum_heat/MainActivity.kt:212-218 | the number of records handed to the writer equals the number of on-to-off transitions in the trace, i.e. ⌊(N + [started on]) / 2⌋ |
| FanSwitch.SessionsPairClicks | Haum_Heat/app/src/main/java/com/example/haum_heat/MainActivity.kt:212-216 | starting off, record i is opened by click 2i and closed by click 2i+1: it carries the closing click's timestamp and the truncated seconds between the two clock readings |
| FanSwitch.FileAppendOnly | Haum_Heat/app/src/main/java/com/example/haum_heat/MainActivity.kt:243 | for any clicks and any write outcomes, the earlier log text is a prefix of the later one |
| FanSwitch.FanIgnoresLog | Haum_Heat/app/src/main/java/com/example/haum_heat/MainActivity.kt:214-218 | the fan states depend only on the clock readings: timestamps, write failures and the log's contents never change them |
| FanSwitch.CleanClickAppends | Haum_Heat/app/src/main/java/com/example/haum_heat/MainActivity.kt:212-214 | a click whose append completes or writes nothing adds exactly the text of the records it completed |
| FanSwitch.FileHoldsRecorded | Haum_Heat/app/src/main/java/com/example/haum_heat/MainActivity.kt:212-214 | when every append completes or writes nothing, the log grows by exactly the lines of the completed records, in click order |
| FanSwitch.AllWrittenRecordsAll | Haum_Heat/app/src/main/java/com/example/haum_heat/MainActivity.kt:214 | when every append completes, the records in the log are all the sessions the handler closed |
| FanSwitch.NoStorageNoRecords | Haum_Heat/app/src/main/java/com/example/haum_heat/MainActivity.kt:251-254 | when no append ever gets a character into the file, the log text after any clicks is exactly the text before them and no record is completed, while the fan still ends in the last state of its alternating trace |
| FanSwitch.LogReadsBack | Haum_Heat/app/src/main/java/com/example/haum_heat/MainActivity.kt:243-244 | a readable log stays readable after clean appends and reads back as the earlier records followed by the newly completed ones |
| FanSwitch.OnThenOffAfter125Seconds | Haum_Heat/app/src/main/java/com/example/haum_heat/MainActivity.kt:211-218 | on at 0 ms and off at 125000 ms from a fresh start leaves the fan off and exactly one line, `"<ts> - Time On: 125 seconds\n"`, in the log |

## Left out

- Compose UI, images, labels, navigation, the login and avatar screens, and Firebase Auth sign-in and sign-out (MainActivity.kt:45-187, 195-233). These are presentation and library glue with no state logic.
- The FCM topic subscription (MainActivity.kt:79-87). It is a fire-and-forget network call whose result is only logged.
- The upload to Firebase Storage after a completed append (MainActivity.kt:248, 257-270). It is network I/O. Only its asynchronous failure is handled, and that handler just prints the exception (MainActivity.kt:267-268).
- Exceptions other than `IOException` raised inside `writeTimeToFile` (MainActivity.kt:238-250). An example is a synchronous failure in `Firebase.storage`, `getReferenceFromUrl` or `putFile` (MainActivity.kt:258-263). The catch at MainActivity.kt:251 does not handle them, so they escape the click handler before the flag flips at MainActivity.kt:218. The model's `WriteOutcome` covers only the caught `IOException`.
- The toasts (MainActivity.kt:250, 253). They are user messages with no effect on state.
- `System.currentTimeMillis()` and `LocalDateTime.now()` with its `yyyy-MM-dd HH:mm:ss` formatter (MainActivity.kt:213, 216, 240-242). These are clocks and a library call, so each click takes the clock reading and the formatted text as parameters. The model does not check the timestamp's shape. It requires only that the timestamp hold no line break where a file is read back.
- File creation and `getExternalFilesDir` (MainActivity.kt:239). The file is modelled as its text in characters, not bytes. The timestamp and the record are ASCII, so both views coincide.
- The device-command hook, which is only a comment in the source (MainActivity.kt:219).
- MyFirebaseMessagingService.kt. It consists of notification API calls and one `toDouble()` parse, which is floating point. That parse throws on non-numeric input rather than silently skipping it.
- Loss of the remembered state. The two values are kept with `remember` (MainActivity.kt:192-193). They are not persisted. They are lost whenever the destination leaves composition or the activity is recreated, for example on a configuration change such as rotation: `onCreate` (MainActivity.kt:57-77) sets the content again and `MainScreen` starts over at (off, 0). Process death discards them too. So does leaving the "mainPage" destination: both "Notifications" and "Disconnect" call `onDisconnectClick`, which signs out and navigates to "login" (MainActivity.kt:171-183, 229-231). The next sign-in opens a fresh screen at (off, 0) (MainActivity.kt:105). An open session is then silently dropped with no record. The model follows one screen lifetime and has no such reset.
- Toggle: bounds the reported seconds only for non-negative clock readings. For other readings the value is still exactly `DivTrunc1000(Sub(now, startTime))`, which `SessionsPairClicks` states, and `Sub` and `DivTrunc1000` each carry their own contracts.
