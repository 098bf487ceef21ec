/** Repair of a lot's raw expiry text (`dVal`) into the day/month/year
    display form used in the report. */
module Expiry {
  import opened Wrappers
  import opened Text
  import opened Calendar

  /** Shown when a year-month expiry cannot be read as a calendar month. */
  const InvalidDate: string := "Data Inválida"

  /** Split the raw text on `-`. Three pieces `[Y, M, D]` are reordered to
      `D/M/Y`; two pieces `[Y, M]` become `last day of M in Y/M/Y`, or
      `InvalidDate` when a piece is not an integer or the month is not 1..12;
      any other number of pieces leaves the text unchanged. Pieces are
      reused as written (a month `02` stays `02`). */
  function NormalizeExpiry(raw: string): string
  {
    var parts := Split(raw, '-');
    if |parts| == 3 then
      parts[2] + "/" + parts[1] + "/" + parts[0]
    else if |parts| == 2 then
      match (ParseInt(parts[0]), ParseInt(parts[1]))
      case (Some(year), Some(month)) =>
        (match MonthRange(year, month)
         case Some(lastDay) => NatToString(lastDay) + "/" + parts[1] + "/" + parts[0]
         case None => InvalidDate)
      case _ => InvalidDate
    else
      raw
  }

  /** `Y-M-D` (pieces free of `-`) becomes `D/M/Y`, each piece unchanged. */
  lemma DayMonthYear(y: string, m: string, d: string)
    requires '-' !in y && '-' !in m && '-' !in d
    ensures NormalizeExpiry(y + "-" + m + "-" + d) == d + "/" + m + "/" + y
  {
    assert [y, m, d][1..] == [m, d] && [m, d][1..] == [d];
    assert Join([m, d], '-') == m + "-" + d;
    assert Join([y, m, d], '-') == y + "-" + m + "-" + d;
    SplitJoin([y, m, d], '-');
  }

  /** A readable year-month: `Y-M` with digit runs `Y`, `M` and `M` in 1..12
      becomes `L/M/Y`, where `L` is the decimal text of the month's last day. */
  lemma YearMonth(y: string, m: string)
    requires IsDigits(y) && IsDigits(m) && 1 <= DigitsValue(m) <= 12
    ensures NormalizeExpiry(y + "-" + m)
            == NatToString(LastDay(DigitsValue(y), DigitsValue(m))) + "/" + m + "/" + y
  {
    NoDash(y);
    NoDash(m);
    assert Join([y, m], '-') == y + "-" + m;
    SplitJoin([y, m], '-');
  }

  /** A two-piece expiry is `InvalidDate` exactly when a piece is not a digit
      run (an empty piece included) or the month is outside 1..12. */
  lemma YearMonthInvalid(y: string, m: string)
    requires '-' !in y && '-' !in m
    ensures NormalizeExpiry(y + "-" + m) == InvalidDate
            <==> !(IsDigits(y) && IsDigits(m) && 1 <= DigitsValue(m) <= 12)
  {
    assert Join([y, m], '-') == y + "-" + m;
    SplitJoin([y, m], '-');
    if IsDigits(y) && IsDigits(m) && 1 <= DigitsValue(m) <= 12 {
      var day := NatToString(LastDay(DigitsValue(y), DigitsValue(m)));
      assert NormalizeExpiry(y + "-" + m) == day + "/" + m + "/" + y;
      assert (day + "/" + m + "/" + y)[0] == day[0];
      assert IsDigit(day[0]);
    }
  }

  /** Text with neither one nor two dashes passes through unchanged. */
  lemma Unchanged(raw: string)
    requires Count(raw, '-') != 1 && Count(raw, '-') != 2
    ensures NormalizeExpiry(raw) == raw
  {
    SplitLength(raw, '-');
  }

  lemma NoDash(s: string)
    requires IsDigits(s)
    ensures '-' !in s
  {
  }

  /** Worked case: a full date keeps its pieces, reordered. */
  lemma FullDateExample()
    ensures NormalizeExpiry("2024" + "-" + "05" + "-" + "15") == "15" + "/" + "05" + "/" + "2024"
  {
    DayMonthYear("2024", "05", "15");
  }

  /** The numbers read from and written into the worked cases below. */
  lemma ExampleNumbers()
    ensures DigitsValue("2023") == 2023 && DigitsValue("2024") == 2024 && DigitsValue("2025") == 2025
    ensures DigitsValue("01") == 1 && DigitsValue("02") == 2 && DigitsValue("13") == 13
    ensures NatToString(28) == "28" && NatToString(29) == "29" && NatToString(31) == "31"
  {
    assert "2023"[..3] == "202" && "2024"[..3] == "202" && "2025"[..3] == "202";
    assert "202"[..2] == "20" && "20"[..1] == "2" && "2"[..0] == "";
    assert "01"[..1] == "0" && "02"[..1] == "0" && "13"[..1] == "1";
    assert "0"[..0] == "" && "1"[..0] == "";
  }

  /** Worked case: February of a leap year ends on the 29th; the month
      keeps its leading zero. */
  lemma LeapFebruaryExample()
    ensures NormalizeExpiry("2024" + "-" + "02") == "29" + "/" + "02" + "/" + "2024"
  {
    ExampleNumbers();
    YearMonth("2024", "02");
  }

  /** Worked case: February of a common year ends on the 28th. */
  lemma CommonFebruaryExample()
    ensures NormalizeExpiry("2023" + "-" + "02") == "28" + "/" + "02" + "/" + "2023"
  {
    ExampleNumbers();
    YearMonth("2023", "02");
  }

  /** Worked case: January ends on the 31st. */
  lemma JanuaryExample()
    ensures NormalizeExpiry("2025" + "-" + "01") == "31" + "/" + "01" + "/" + "2025"
  {
    ExampleNumbers();
    YearMonth("2025", "01");
  }

  /** Worked cases: a thirteenth month and a missing month are invalid. */
  lemma InvalidExamples()
    ensures NormalizeExpiry("2024" + "-" + "13") == InvalidDate
    ensures NormalizeExpiry("2024" + "-" + "") == InvalidDate
  {
    ExampleNumbers();
    YearMonthInvalid("2024", "13");
    YearMonthInvalid("2024", "");
  }

  /** Text without a dash, such as the `Sem Validade` default, is kept. */
  lemma NoDashKept(raw: string)
    requires '-' !in raw
    ensures NormalizeExpiry(raw) == raw
  {
    assert Count(raw, '-') == 0 by { CountAbsent(raw, '-'); }
    Unchanged(raw);
  }
}
