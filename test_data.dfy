/** utils/testDataHelpers.ts: the random date of birth and the random patient used when
    registering patients. Each `Math.floor(Math.random() * n)` is a parameter `draw` with
    `draw < n`, and `Math.random() < 0.5` is the boolean `isMale`. */
module TestData {
  import opened Wrappers
  import opened JsString

  /** A calendar date as month, day and year. */
  datatype Date = Date(month: nat, day: nat, year: nat)

  const FirstYear := 1980
  const LastYear := 2000

  /** `n.toString().padStart(2, '0')`. */
  function TwoDigits(n: nat): string
    requires n < 100
  {
    PadStart(NatToString(n), 2, '0')
  }

  /** `generateRandomDOB()` with its three draws: `MM/DD/YYYY`. */
  function GenerateRandomDob(yearDraw: nat, monthDraw: nat, dayDraw: nat): string
    requires yearDraw < LastYear - FirstYear + 1 && monthDraw < 12 && dayDraw < 28
  {
    var year := yearDraw + FirstYear;
    var month := monthDraw + 1;
    var day := dayDraw + 1;
    TwoDigits(month) + "/" + TwoDigits(day) + "/" + NatToString(year)
  }

  /** The date drawn by `generateRandomDOB()`. */
  function DrawnDate(yearDraw: nat, monthDraw: nat, dayDraw: nat): Date {
    Date(monthDraw + 1, dayDraw + 1, yearDraw + FirstYear)
  }

  predicate AllDigitsIn(s: string, lo: nat, hi: nat)
    requires lo <= hi <= |s|
  {
    forall i :: lo <= i < hi ==> IsDigit(s[i])
  }

  /** Reads an `MM/DD/YYYY` string back: two digits, a slash, two digits, a slash, four digits. */
  function ParseDob(s: string): Option<Date> {
    if |s| == 10 && s[2] == '/' && s[5] == '/' &&
       AllDigitsIn(s, 0, 2) && AllDigitsIn(s, 3, 5) && AllDigitsIn(s, 6, 10)
    then Some(Date(DigitsValue(s[0..2]), DigitsValue(s[3..5]), DigitsValue(s[6..10])))
    else None
  }

  predicate IsLeapYear(y: nat) {
    (y % 4 == 0 && y % 100 != 0) || y % 400 == 0
  }

  function DaysInMonth(month: nat, year: nat): nat
    requires 1 <= month <= 12
  {
    if month == 2 then (if IsLeapYear(year) then 29 else 28)
    else if month == 4 || month == 6 || month == 9 || month == 11 then 30
    else 31
  }

  /** A date of the Gregorian calendar. */
  predicate ValidDate(d: Date) {
    1 <= d.month <= 12 && 1 <= d.day <= DaysInMonth(d.month, d.year)
  }

  /** Two-digit rendering of a number below 100 that reads back as the number. */
  lemma TwoDigitsValue(n: nat)
    requires n < 100
    ensures |TwoDigits(n)| == 2 && AllDigitsIn(TwoDigits(n), 0, 2)
    ensures DigitsValue(TwoDigits(n)) == n
  {
    NatToStringLength(n);
    DigitsValueOfNatToString(n);
    var t := TwoDigits(n);
    if n < 10 {
      assert t == ['0'] + NatToString(n);
      assert t[..1] == ['0'];
    }
  }

  /** The date of birth is always ten characters, `MM/DD/YYYY`, with slashes at positions two
      and five and digits everywhere else. */
  lemma {:induction false} DobLayout(yearDraw: nat, monthDraw: nat, dayDraw: nat)
    requires yearDraw < LastYear - FirstYear + 1 && monthDraw < 12 && dayDraw < 28
    ensures var dob := GenerateRandomDob(yearDraw, monthDraw, dayDraw);
      |dob| == 10 && dob[2] == '/' && dob[5] == '/' &&
      AllDigitsIn(dob, 0, 2) && AllDigitsIn(dob, 3, 5) && AllDigitsIn(dob, 6, 10)
  {
    TwoDigitsValue(monthDraw + 1);
    TwoDigitsValue(dayDraw + 1);
    NatToStringLength(yearDraw + FirstYear);
  }

  /** Reading the fields back gives the drawn month, day and year. */
  lemma {:induction false} DobRoundTrip(yearDraw: nat, monthDraw: nat, dayDraw: nat)
    requires yearDraw < LastYear - FirstYear + 1 && monthDraw < 12 && dayDraw < 28
    ensures ParseDob(GenerateRandomDob(yearDraw, monthDraw, dayDraw)) == Some(DrawnDate(yearDraw, monthDraw, dayDraw))
  {
    var dob := GenerateRandomDob(yearDraw, monthDraw, dayDraw);
    var mm := TwoDigits(monthDraw + 1);
    var dd := TwoDigits(dayDraw + 1);
    var yyyy := NatToString(yearDraw + FirstYear);
    DobLayout(yearDraw, monthDraw, dayDraw);
    TwoDigitsValue(monthDraw + 1);
    TwoDigitsValue(dayDraw + 1);
    NatToStringLength(yearDraw + FirstYear);
    DigitsValueOfNatToString(yearDraw + FirstYear);
    assert dob == mm + "/" + dd + "/" + yyyy;
    assert dob[0..2] == mm;
    assert dob[3..5] == dd;
    assert dob[6..10] == yyyy;
  }

  /** The drawn year lies in 1980..2000, the month in 1..12 and the day in 1..28, which every
      month has: the date always exists. */
  lemma DrawnDateValid(yearDraw: nat, monthDraw: nat, dayDraw: nat)
    requires yearDraw < LastYear - FirstYear + 1 && monthDraw < 12 && dayDraw < 28
    ensures var d := DrawnDate(yearDraw, monthDraw, dayDraw);
      FirstYear <= d.year <= LastYear && 1 <= d.month <= 12 && 1 <= d.day <= 28 && ValidDate(d)
  {
  }

  // ---------------------------------------------------------------- patients

  datatype Sex = Male | Female

  datatype Patient = Patient(firstName: string, sex: Sex)

  const MaleNames: seq<string> := ["John", "Michael", "David", "Robert", "James"]
  const FemaleNames: seq<string> := ["Jane", "Sarah", "Emily", "Lisa", "Mary"]

  /** `generateRandomPatient()` with the coin `isMale` and the index draw. */
  function GenerateRandomPatient(isMale: bool, nameDraw: nat): Patient
    requires nameDraw < 5
  {
    if isMale then Patient(MaleNames[nameDraw], Male) else Patient(FemaleNames[nameDraw], Female)
  }

  /** The sex a first name belongs to, if it is on either list. */
  function SexOfName(name: string): Option<Sex> {
    if name in MaleNames then Some(Male)
    else if name in FemaleNames then Some(Female)
    else None
  }

  /** No name is on both lists. */
  lemma NameListsDisjoint()
    ensures forall i, j :: 0 <= i < |MaleNames| && 0 <= j < |FemaleNames| ==> MaleNames[i] != FemaleNames[j]
  {
  }

  /** The patient is male exactly when the first name comes from the male list, and the name
      is always on one of the two lists. */
  lemma {:induction false} PatientConsistent(isMale: bool, nameDraw: nat)
    requires nameDraw < 5
    ensures var p := GenerateRandomPatient(isMale, nameDraw);
      (p.sex == Male <==> p.firstName in MaleNames) &&
      (p.sex == Female <==> p.firstName in FemaleNames) &&
      (p.firstName in MaleNames || p.firstName in FemaleNames)
  {
    NameListsDisjoint();
  }

  /** The first name alone gives back the sex. */
  lemma {:induction false} NameDeterminesSex(isMale: bool, nameDraw: nat)
    requires nameDraw < 5
    ensures var p := GenerateRandomPatient(isMale, nameDraw);
      SexOfName(p.firstName) == Some(p.sex)
  {
    NameListsDisjoint();
  }
}
