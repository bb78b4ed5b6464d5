/** The pure parts of the uploader: the task id of a build type, the layout
    of the 18-digit execution identifier, and the normalisation of a CSV row
    before it is inserted. The clock reading and the random number the
    identifier uses are parameters here. */
module Uploader {
  import opened Wrappers
  import opened OrderedDict

  // ---------------------------------------------------------------------
  // Task ids

  datatype ExecIdError = UnknownBuildType(buildType: string)

  /** `_mode_task_id`: the two-digit task id of a build type. */
  function ModeTaskId(buildType: string): (r: Result<string, ExecIdError>)
    ensures r.Failure? <==> buildType != "dtk" && buildType != "coverage"
    ensures r.Failure? ==> r.error == UnknownBuildType(buildType)
    ensures r.Success? ==> |r.value| == 2 && AllDigits(r.value)
  {
    if buildType == "dtk" then Success("01")
    else if buildType == "coverage" then Success("02")
    else Failure(UnknownBuildType(buildType))
  }

  /** The build type a task id stands for, if any. */
  function BuildTypeOf(taskId: string): Option<string> {
    if taskId == "01" then Some("dtk")
    else if taskId == "02" then Some("coverage")
    else None
  }

  /** A task id names its build type: the two are each other's inverse. */
  lemma ModeTaskIdInverse(buildType: string, taskId: string)
    ensures ModeTaskId(buildType) == Success(taskId) <==> BuildTypeOf(taskId) == Some(buildType)
  {
  }

  // ---------------------------------------------------------------------
  // Decimal fields

  predicate IsDigit(c: char) {
    '0' <= c <= '9'
  }

  predicate AllDigits(s: string) {
    forall i :: 0 <= i < |s| ==> IsDigit(s[i])
  }

  function Pow10(n: nat): (p: nat)
    ensures p >= 1
  {
    if n == 0 then 1 else 10 * Pow10(n - 1)
  }

  function DigitChar(d: nat): char
    requires d < 10
  {
    "0123456789"[d]
  }

  function DigitValue(c: char): nat
    requires IsDigit(c)
  {
    (c as int - '0' as int) as nat
  }

  /** `f"{n:0{width}d}"` for an `n` that fits in `width` digits. */
  function Pad(n: nat, width: nat): string
    requires n < Pow10(width)
  {
    if width == 0 then "" else Pad(n / 10, width - 1) + [DigitChar(n % 10)]
  }

  /** The number a string of decimal digits spells. */
  function Value(s: string): nat
    requires AllDigits(s)
  {
    if s == [] then 0 else Value(s[..|s| - 1]) * 10 + DigitValue(s[|s| - 1])
  }

  /** Padding gives exactly `width` digits, and reading them back gives `n`. */
  lemma {:induction false} PadValue(n: nat, width: nat)
    requires n < Pow10(width)
    ensures |Pad(n, width)| == width
    ensures AllDigits(Pad(n, width))
    ensures Value(Pad(n, width)) == n
  {
    if width > 0 {
      PadValue(n / 10, width - 1);
      var s := Pad(n, width);
      assert s[..|s| - 1] == Pad(n / 10, width - 1);
      assert DigitValue(DigitChar(n % 10)) == n % 10 by {
        var d := n % 10;
        assert d == 0 || d == 1 || d == 2 || d == 3 || d == 4 || d == 5 || d == 6 || d == 7 || d == 8 || d == 9;
      }
    }
  }

  // ---------------------------------------------------------------------
  // Execution identifiers

  /** The reading of `datetime.now()` the identifier uses. */
  datatype DateTime = DateTime(year: int, month: int, day: int, hour: int, minute: int, second: int)

  predicate IsLeapYear(year: int) {
    year % 4 == 0 && (year % 100 != 0 || year % 400 == 0)
  }

  function DaysInMonth(year: int, month: int): int {
    if month == 2 then (if IsLeapYear(year) then 29 else 28)
    else if month == 4 || month == 6 || month == 9 || month == 11 then 30
    else 31
  }

  /** The values a `datetime` can hold. */
  predicate ValidDateTime(t: DateTime) {
    && 1 <= t.year <= 9999
    && 1 <= t.month <= 12
    && 1 <= t.day <= DaysInMonth(t.year, t.month)
    && 0 <= t.hour < 24
    && 0 <= t.minute < 60
    && 0 <= t.second < 60
  }

  /** `now.strftime("%m%d%H%M%S")`. */
  function Timestamp(t: DateTime): string
    requires ValidDateTime(t)
  {
    Pad(t.month, 2) + Pad(t.day, 2) + Pad(t.hour, 2) + Pad(t.minute, 2) + Pad(t.second, 2)
  }

  /** `generate_exec_id`, with the clock reading `now` and the draw
      `randomSuffix` of `random.randint(0, 99)` as parameters: prefix
      (`9999` in test mode, the year otherwise), timestamp, random suffix and
      task id, in that order. */
  function GenerateExecId(buildType: string, test: bool, now: DateTime, randomSuffix: nat): Result<string, ExecIdError>
    requires ValidDateTime(now) && randomSuffix <= 99
  {
    match ModeTaskId(buildType)
    case Failure(e) => Failure(e)
    case Success(taskId) =>
      var prefix := if test then "9999" else Pad(now.year, 4);
      Success(prefix + Timestamp(now) + Pad(randomSuffix, 2) + taskId)
  }

  /** Where the eight fields of an identifier sit. */
  lemma FieldSlices(prefix: string, month: string, day: string, hour: string, minute: string, second: string,
                    suffix: string, taskId: string)
    requires |prefix| == 4 && |month| == 2 && |day| == 2 && |hour| == 2
    requires |minute| == 2 && |second| == 2 && |suffix| == 2 && |taskId| == 2
    requires AllDigits(prefix) && AllDigits(month) && AllDigits(day) && AllDigits(hour)
    requires AllDigits(minute) && AllDigits(second) && AllDigits(suffix) && AllDigits(taskId)
    ensures var id := prefix + (month + day + hour + minute + second) + suffix + taskId;
            && |id| == 18 && AllDigits(id)
            && id[..4] == prefix && id[4..6] == month && id[6..8] == day && id[8..10] == hour
            && id[10..12] == minute && id[12..14] == second && id[14..16] == suffix && id[16..] == taskId
  {
  }

  /** An identifier is 18 digits: the prefix (`9999` in test mode, the
      zero-padded year otherwise), month, day, hour, minute, second, random
      suffix and task id, each at a fixed place. Only an unknown build type fails. */
  lemma ExecIdLayout(buildType: string, test: bool, now: DateTime, randomSuffix: nat)
    requires ValidDateTime(now) && randomSuffix <= 99
    ensures GenerateExecId(buildType, test, now, randomSuffix).Failure? <==> ModeTaskId(buildType).Failure?
    ensures GenerateExecId(buildType, test, now, randomSuffix).Failure? ==>
              GenerateExecId(buildType, test, now, randomSuffix).error == UnknownBuildType(buildType)
    ensures var r := GenerateExecId(buildType, test, now, randomSuffix);
            r.Success? ==>
              var id := r.value;
              && |id| == 18 && AllDigits(id)
              && id[..4] == (if test then "9999" else Pad(now.year, 4))
              && id[4..6] == Pad(now.month, 2) && id[6..8] == Pad(now.day, 2)
              && id[8..10] == Pad(now.hour, 2) && id[10..12] == Pad(now.minute, 2)
              && id[12..14] == Pad(now.second, 2) && id[14..16] == Pad(randomSuffix, 2)
              && id[16..] == ModeTaskId(buildType).value
  {
    var r := GenerateExecId(buildType, test, now, randomSuffix);
    if r.Success? {
      var prefix := if test then "9999" else Pad(now.year, 4);
      var month, day, hour := Pad(now.month, 2), Pad(now.day, 2), Pad(now.hour, 2);
      var minute, second, suffix := Pad(now.minute, 2), Pad(now.second, 2), Pad(randomSuffix, 2);
      var taskId := ModeTaskId(buildType).value;
      assert r.value == prefix + (month + day + hour + minute + second) + suffix + taskId;
      assert |prefix| == 4 && AllDigits(prefix) by {
        if !test {
          PadValue(now.year, 4);
        }
      }
      assert |month| == 2 && AllDigits(month) && |day| == 2 && AllDigits(day) by {
        PadValue(now.month, 2);
        PadValue(now.day, 2);
      }
      assert |hour| == 2 && AllDigits(hour) && |minute| == 2 && AllDigits(minute) by {
        PadValue(now.hour, 2);
        PadValue(now.minute, 2);
      }
      assert |second| == 2 && AllDigits(second) && |suffix| == 2 && AllDigits(suffix) by {
        PadValue(now.second, 2);
        PadValue(randomSuffix, 2);
      }
      FieldSlices(prefix, month, day, hour, minute, second, suffix, taskId);
    }
  }

  /** The fields an identifier carries. */
  datatype ExecIdFields = ExecIdFields(
    prefix: nat, month: nat, day: nat, hour: nat, minute: nat, second: nat, randomSuffix: nat, buildType: string)

  /** Reads the fields back out of an identifier; `None` for a string that
      is not 18 digits ending in a known task id. */
  function DecodeExecId(id: string): Option<ExecIdFields> {
    if |id| != 18 || !AllDigits(id) then None
    else
      match BuildTypeOf(id[16..])
      case None => None
      case Some(buildType) =>
        Some(ExecIdFields(Value(id[..4]), Value(id[4..6]), Value(id[6..8]), Value(id[8..10]),
                          Value(id[10..12]), Value(id[12..14]), Value(id[14..16]), buildType))
  }

  /** Decoding an identifier gives back the year (9999 in test mode), the
      clock fields, the random draw and the build type it was made from. */
  lemma ExecIdRoundTrip(buildType: string, test: bool, now: DateTime, randomSuffix: nat)
    requires ValidDateTime(now) && randomSuffix <= 99
    requires GenerateExecId(buildType, test, now, randomSuffix).Success?
    ensures DecodeExecId(GenerateExecId(buildType, test, now, randomSuffix).value) ==
            Some(ExecIdFields(if test then 9999 else now.year, now.month, now.day, now.hour, now.minute, now.second,
                              randomSuffix, buildType))
  {
    ExecIdLayout(buildType, test, now, randomSuffix);
    var id := GenerateExecId(buildType, test, now, randomSuffix).value;
    assert Value(id[..4]) == if test then 9999 else now.year by {
      if !test {
        PadValue(now.year, 4);
      } else {
        assert "9999"[..3] == "999" && "999"[..2] == "99" && "99"[..1] == "9" && "9"[..0] == "";
      }
    }
    assert Value(id[4..6]) == now.month by { PadValue(now.month, 2); }
    assert Value(id[6..8]) == now.day by { PadValue(now.day, 2); }
    assert Value(id[8..10]) == now.hour by { PadValue(now.hour, 2); }
    assert Value(id[10..12]) == now.minute by { PadValue(now.minute, 2); }
    assert Value(id[12..14]) == now.second by { PadValue(now.second, 2); }
    assert Value(id[14..16]) == randomSuffix by { PadValue(randomSuffix, 2); }
  }

  /** Two identifiers made in the same mode are equal only when they come
      from the same build type, second of the clock and random draw (and, out
      of test mode, the same year). */
  lemma ExecIdInjective(buildType: string, buildType': string, test: bool, now: DateTime, now': DateTime,
                        randomSuffix: nat, randomSuffix': nat)
    requires ValidDateTime(now) && randomSuffix <= 99
    requires ValidDateTime(now') && randomSuffix' <= 99
    requires GenerateExecId(buildType, test, now, randomSuffix).Success?
    requires GenerateExecId(buildType, test, now, randomSuffix) == GenerateExecId(buildType', test, now', randomSuffix')
    ensures buildType == buildType' && randomSuffix == randomSuffix'
    ensures now.month == now'.month && now.day == now'.day && now.hour == now'.hour
    ensures now.minute == now'.minute && now.second == now'.second
    ensures !test ==> now.year == now'.year
  {
    ExecIdRoundTrip(buildType, test, now, randomSuffix);
    ExecIdRoundTrip(buildType', test, now', randomSuffix');
  }

  // ---------------------------------------------------------------------
  // Row normalisation

  /** `{key: None if value == "" else value for key, value in row.items()}`. */
  function NormalizeRow(row: Dict<string>): Dict<Option<string>> {
    seq(|row|, i requires 0 <= i < |row| => (row[i].0, if row[i].1 == "" then None else Some(row[i].1)))
  }

  /** The inverse direction: `None` is written back as the empty string. */
  function DenormalizeRow(row: Dict<Option<string>>): Dict<string> {
    seq(|row|, i requires 0 <= i < |row| => (row[i].0, row[i].1.GetOr("")))
  }

  /** Normalising keeps the keys and their order, maps exactly the empty
      values to `None`, and leaves every other value as it was. */
  lemma NormalizeRowItems(row: Dict<string>)
    ensures Keys(NormalizeRow(row)) == Keys(row)
    ensures forall i :: 0 <= i < |row| ==> (NormalizeRow(row)[i].1.None? <==> row[i].1 == "")
    ensures forall i :: 0 <= i < |row| && row[i].1 != "" ==> NormalizeRow(row)[i].1 == Some(row[i].1)
  {
  }

  /** Looking a column up in the normalised row: a missing column stays
      missing, an empty cell becomes `None`, any other cell is unchanged. */
  lemma {:induction false} NormalizeRowGet(row: Dict<string>, key: string)
    ensures Get(NormalizeRow(row), key) ==
            match Get(row, key)
            case None => None
            case Some(v) => Some(if v == "" then None else Some(v))
  {
    if row != [] && row[0].0 != key {
      assert NormalizeRow(row)[1..] == NormalizeRow(row[1..]);
      NormalizeRowGet(row[1..], key);
    }
  }

  /** Writing `None` back as the empty string undoes the normalisation. */
  lemma NormalizeRowRoundTrip(row: Dict<string>)
    ensures DenormalizeRow(NormalizeRow(row)) == row
  {
  }

  /** A row is a normalised row exactly when no cell holds an explicit empty string. */
  lemma NormalizeRowImage(row: Dict<Option<string>>)
    ensures NormalizeRow(DenormalizeRow(row)) == row <==> forall i :: 0 <= i < |row| ==> row[i].1 != Some("")
  {
  }
}
