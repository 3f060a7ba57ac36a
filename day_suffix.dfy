/** The ordinal suffix the date picker appends to the day of the month. */
module DaySuffix {
  import opened Js

  /** `getDaySuffix(day)`: "th" for 4..20, otherwise chosen by the last
      digit as JavaScript's `day % 10` computes it. */
  function GetDaySuffix(day: int): (s: string)
    ensures s == "st" || s == "nd" || s == "rd" || s == "th"
    ensures 3 < day < 21 ==> s == "th"
  {
    if 3 < day < 21 then "th"
    else
      match JsRem(day, 10)
      case 1 => "st"
      case 2 => "nd"
      case 3 => "rd"
      case _ => "th"
  }

  /** The English rule, stated independently: "th" for numbers ending in
      11, 12 or 13, otherwise "st", "nd", "rd" after a last digit of 1, 2
      or 3, and "th" after any other. */
  function EnglishOrdinalSuffix(n: nat): string
  {
    var lastTwo, last := n % 100, n % 10;
    if 11 <= lastTwo <= 13 then "th"
    else if last == 1 then "st"
    else if last == 2 then "nd"
    else if last == 3 then "rd"
    else "th"
  }

  /** The last decimal digit of `d` in `[0, 200)`. */
  lemma LastDigits(d: int)
    requires 0 <= d < 200
    ensures JsRem(d, 10) == d % 10
    ensures d % 100 == if d < 100 then d else d - 100
  {
    if d >= 100 {
      DivModUnique(d, 100, 1, d - 100);
    } else {
      DivModUnique(d, 100, 0, d);
    }
  }

  /** Every day of every month, and beyond up to 110, gets its correct
      English suffix. */
  lemma DaySuffixIsEnglish(d: int)
    requires 0 <= d <= 110
    ensures GetDaySuffix(d) == EnglishOrdinalSuffix(d)
  {
    LastDigits(d);
    DivModUnique(d, 10, d / 10, d % 10);
  }

  /** The cases the date picker shows: 1st, 2nd, 3rd, 11th, 12th, 13th,
      21st, 22nd, 23rd, 31st. */
  lemma DaySuffixExamples()
    ensures GetDaySuffix(1) == "st" && GetDaySuffix(2) == "nd" && GetDaySuffix(3) == "rd"
    ensures GetDaySuffix(11) == "th" && GetDaySuffix(12) == "th" && GetDaySuffix(13) == "th"
    ensures GetDaySuffix(21) == "st" && GetDaySuffix(22) == "nd" && GetDaySuffix(23) == "rd"
    ensures GetDaySuffix(31) == "st"
  {
    DivModUnique(1, 10, 0, 1);
    DivModUnique(2, 10, 0, 2);
    DivModUnique(3, 10, 0, 3);
    DivModUnique(21, 10, 2, 1);
    DivModUnique(22, 10, 2, 2);
    DivModUnique(23, 10, 2, 3);
    DivModUnique(31, 10, 3, 1);
  }

  /** The rule stops being English at 111, which it calls "111st"; days of
      the month never get there. */
  lemma DaySuffixDivergesAt111()
    ensures GetDaySuffix(111) == "st"
    ensures EnglishOrdinalSuffix(111) == "th"
  {
    DivModUnique(111, 10, 11, 1);
    DivModUnique(111, 100, 1, 11);
  }
}
