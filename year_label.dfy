/** The author line of posts and comments: "익명" when no year is known,
    otherwise the admission cohort ("22학번") followed by the stored status,
    or, without one, a standing worked out from the current year. The clock
    is replaced by the current year as a parameter; the label is returned
    as its parts rather than as the formatted text. */
module YearLabel {
  import opened JsText

  /** The `year` value a post or comment carries: missing, a number, or a
      text such as "22학번". */
  datatype YearValue = NoYear | YearNumber(n: int) | YearText(text: string)

  /** The cohort number shown: a number, or NaN when a text has no digits
      for `parseInt` to read. */
  datatype Cohort = Number(n: int) | NotANumber

  datatype Standing = Stated(status: string) | Freshman | Enrolled | Graduate

  datatype Label = Anonymous | Labelled(cohort: Cohort, standing: Standing)

  /** `!year`: missing, zero, or the empty text. */
  predicate Falsy(y: YearValue) {
    y.NoYear? || y == YearNumber(0) || y == YearText([])
  }

  /** `yearNum`: a number is used as it is; a text is reduced to its digits
      and read as a decimal number. */
  function CohortOf(y: YearValue): (c: Cohort)
    requires !Falsy(y)
    ensures y.YearNumber? ==> c == Number(y.n)
    ensures y.YearText? ==> (c.NotANumber? <==> DigitsOnly(y.text) == [])
  {
    match y
    case YearNumber(n) => Number(n)
    case YearText(text) =>
      var digits := DigitsOnly(text);
      if digits == [] then NotANumber else Number(DecimalValue(digits))
  }

  /** The standing computed from the cohort: grade = current year minus
      (2000 + cohort) plus one; up to 0 is a freshman-to-be, 5 or more a
      graduate, anything else enrolled. NaN fails both comparisons and so
      counts as enrolled. */
  function StandingOf(c: Cohort, currentYear: int): (s: Standing)
    ensures !s.Stated?
    ensures c.NotANumber? ==> s == Enrolled
  {
    match c
    case NotANumber => Enrolled
    case Number(n) =>
      var grade := currentYear - (2000 + n) + 1;
      if grade <= 0 then Freshman
      else if grade >= 5 then Graduate
      else Enrolled
  }

  /** `getYearDisplay(year, status)`, with the status empty when it was not
      passed. */
  function YearDisplay(year: YearValue, status: string, currentYear: int): (l: Label)
    ensures l.Anonymous? <==> Falsy(year)
    ensures !Falsy(year) && status != [] ==> l == Labelled(CohortOf(year), Stated(status))
    ensures !Falsy(year) && status == [] ==>
      (l.Labelled? && l.cohort == CohortOf(year) && !l.standing.Stated?)
  {
    if Falsy(year) then Anonymous
    else
      var c := CohortOf(year);
      if status != [] then Labelled(c, Stated(status))
      else Labelled(c, StandingOf(c, currentYear))
  }

  /** In terms of the admission year 2000 + n: before it the student is a
      freshman-to-be, in the four years from it enrolled, and from the
      fifth year on a graduate. */
  lemma StandingByAdmissionYear(n: int, currentYear: int)
    ensures StandingOf(Number(n), currentYear) == Freshman <==> currentYear < 2000 + n
    ensures StandingOf(Number(n), currentYear) == Enrolled <==> 2000 + n <= currentYear < 2004 + n
    ensures StandingOf(Number(n), currentYear) == Graduate <==> currentYear >= 2004 + n
  {
  }

  /** The order of the computed standings. `StandingOf` never yields a
      stated status, so the value given to `Stated` only makes the ranking
      total and plays no part in the lemma below. */
  function Rank(s: Standing): int {
    match s
    case Freshman => 0
    case Enrolled => 1
    case Graduate => 2
    case Stated(_) => 1
  }

  /** Without a status, the label shows the cohort and the standing of its
      admission year 2000 + n; a text without digits reads as NaN and shows
      as enrolled whatever the year. */
  lemma NoStatusLabel(year: YearValue, currentYear: int)
    requires !Falsy(year)
    ensures var c := CohortOf(year);
      YearDisplay(year, [], currentYear) == Labelled(c,
        if c.NotANumber? || 2000 + c.n <= currentYear < 2004 + c.n then Enrolled
        else if currentYear < 2000 + c.n then Freshman
        else Graduate)
  {
    var c := CohortOf(year);
    if c.Number? {
      StandingByAdmissionYear(c.n, currentYear);
    }
  }

  /** As the years pass a cohort's standing only moves forward. */
  lemma StandingOnlyMovesForward(c: Cohort, y1: int, y2: int)
    requires y1 <= y2
    ensures Rank(StandingOf(c, y1)) <= Rank(StandingOf(c, y2))
  {
  }

  /** A text made of a cohort's digits followed by a digit-free suffix,
      such as "22학번", shows the same label as the number those digits
      spell. */
  lemma CohortTextReadsItsDigits(digits: string, suffix: string, status: string, currentYear: int)
    requires digits != [] && AllDigits(digits) && DecimalValue(digits) != 0
    requires DigitsOnly(suffix) == []
    ensures YearDisplay(YearText(digits + suffix), status, currentYear)
         == YearDisplay(YearNumber(DecimalValue(digits)), status, currentYear)
  {
    DigitsOnlyAppend(digits, suffix);
    DigitsOnlyOfDigits(digits);
    assert DigitsOnly(digits + suffix) == digits;
  }
}
