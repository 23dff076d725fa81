/** A customer (`Cliente`) as the mailing program builds one per input row:
    name, birthdate string `dd/mm/yyyy` and e-mail address, stored as given,
    with the two values derived from the birthdate — the age on a given day
    (`idade`) and the pt-BR name of the month after the birth month
    (`mesSeguinte`). The current date is a parameter here. */
module Clientes {
  import opened JsDate
  import opened JsString

  /** One row of the input file, with the column names of its header. */
  datatype Registro = Registro(data: string, email: string, nome: string)

  /** A customer; every field holds the text it was built from. */
  datatype Cliente = Cliente(nome: string, nasc: string, email: string)

  /** The customer built for an input row: `new Cliente(reg.nome, reg.data, reg.email)`. */
  function FromRegistro(reg: Registro): (c: Cliente)
    ensures c.nome == reg.nome && c.nasc == reg.data && c.email == reg.email
  {
    Cliente(reg.nome, reg.data, reg.email)
  }

  /** The month field (characters 3 and 4) is made of decimal digits. */
  predicate HasMonthField(s: string) {
    |s| >= 5 && AllDigits(s[3..5])
  }

  /** Day (characters 0-1), month (3-4) and year (6-9) are made of decimal
      digits; the separators are not looked at. */
  predicate WellFormedDate(s: string) {
    |s| >= 10 && AllDigits(s[0..2]) && HasMonthField(s) && AllDigits(s[6..10])
  }

  /** The three numbers read from a birthdate string. */
  datatype DateFields = DateFields(day: nat, month: nat, year: nat)

  /** `parseInt` of the day, month and year substrings: the numbers spelled
      by the digits at positions 0-1, 3-4 and 6-9. */
  function ReadDate(s: string): (f: DateFields)
    requires WellFormedDate(s)
    ensures f.day == 10 * DigitValue(s[0]) + DigitValue(s[1])
    ensures f.month == 10 * DigitValue(s[3]) + DigitValue(s[4])
    ensures f.year == 1000 * DigitValue(s[6]) + 100 * DigitValue(s[7]) + 10 * DigitValue(s[8]) + DigitValue(s[9])
    ensures f.day < 100 && f.month < 100 && f.year < 10000
  {
    ParseTwoDigits(s[0..2]);
    ParseTwoDigits(s[3..5]);
    ParseFourDigits(s[6..10]);
    DateFields(ParseDecimal(s[0..2]), ParseDecimal(s[3..5]), ParseDecimal(s[6..10]))
  }

  /** The birthdate written as `dd/mm/yyyy`, zero-padded. */
  function FormatDate(f: DateFields): (s: string)
    requires f.day < 100 && f.month < 100 && f.year < 10000
    ensures |s| == 10
  {
    PadDecimal(f.day, 2) + "/" + PadDecimal(f.month, 2) + "/" + PadDecimal(f.year, 4)
  }

  /** Reading a formatted birthdate gives back its day, month and year. */
  lemma ReadFormatDate(f: DateFields)
    requires f.day < 100 && f.month < 100 && f.year < 10000
    ensures WellFormedDate(FormatDate(f)) && ReadDate(FormatDate(f)) == f
  {
    var s := FormatDate(f);
    assert s[0..2] == PadDecimal(f.day, 2);
    assert s[3..5] == PadDecimal(f.month, 2);
    assert s[6..10] == PadDecimal(f.year, 4);
    ParsePadDecimal(f.day, 2);
    ParsePadDecimal(f.month, 2);
    ParsePadDecimal(f.year, 4);
  }

  /** A ten-character `dd/mm/yyyy` string is exactly the formatting of what is read from it. */
  lemma FormatReadDate(s: string)
    requires WellFormedDate(s) && |s| == 10 && s[2] == '/' && s[5] == '/'
    ensures FormatDate(ReadDate(s)) == s
  {
    PadParseDecimal(s[0..2]);
    PadParseDecimal(s[3..5]);
    PadParseDecimal(s[6..10]);
    assert s == s[0..2] + "/" + s[3..5] + "/" + s[6..10];
  }

  /** The birthdate as `new Date(ano, mes - 1, dia)` reads it. */
  function BirthDate(s: string): (d: CalendarDate)
    requires WellFormedDate(s)
    ensures Valid(d)
  {
    var f := ReadDate(s);
    MakeDate(f.year, f.month - 1, f.day)
  }

  /** The date on which the person born on `birth` turns `k`. */
  function Anniversary(birth: CalendarDate, k: int): CalendarDate {
    CalendarDate(birth.year + k, birth.month, birth.day)
  }

  /** The age on `today` of someone born on `birth`: the difference of the
      years, less one while this year's (month, day) has not been reached.
      It is the number of anniversaries that have come: the `r`-th has, the
      next has not. */
  function AgeOn(today: CalendarDate, birth: CalendarDate): (r: int)
    ensures !Before(today, Anniversary(birth, r))
    ensures Before(today, Anniversary(birth, r + 1))
  {
    var idade := today.year - birth.year;
    if today.month < birth.month || (today.month == birth.month && today.day < birth.day)
    then idade - 1
    else idade
  }

  /** Only one count of anniversaries fits: the age is unique. */
  lemma AgeOnUnique(today: CalendarDate, birth: CalendarDate, k: int)
    requires !Before(today, Anniversary(birth, k))
    requires Before(today, Anniversary(birth, k + 1))
    ensures k == AgeOn(today, birth)
  {
  }

  /** The age never goes down as the current date moves forward. */
  lemma AgeOnMonotone(t1: CalendarDate, t2: CalendarDate, birth: CalendarDate)
    requires !Before(t2, t1)
    ensures AgeOn(t1, birth) <= AgeOn(t2, birth)
  {
  }

  /** In year `year`, every day before the birthday gives one less than the
      year difference and every day from the birthday on gives the year
      difference; in particular the eve, the day `new Date(year, month - 1,
      day - 1)` denotes (in the month before for a birthday on the 1st). */
  lemma AgeOnBirthday(birth: CalendarDate, year: int)
    requires Valid(birth) && year >= 100
    ensures forall t: CalendarDate :: t.year == year && Before(t, Anniversary(birth, year - birth.year))
              ==> AgeOn(t, birth) == year - birth.year - 1
    ensures forall t: CalendarDate :: t.year == year && !Before(t, Anniversary(birth, year - birth.year))
              ==> AgeOn(t, birth) == year - birth.year
    ensures AgeOn(MakeDate(year, birth.month - 1, birth.day - 1), birth) == year - birth.year - 1
  {
  }

  /** `idade()`: the customer's age on `today`. */
  function Idade(c: Cliente, today: CalendarDate): (r: int)
    requires WellFormedDate(c.nasc)
    ensures !Before(today, Anniversary(BirthDate(c.nasc), r))
    ensures Before(today, Anniversary(BirthDate(c.nasc), r + 1))
  {
    AgeOn(today, BirthDate(c.nasc))
  }

  /** For a birthdate that is a real calendar date with a four-digit year,
      the age is the year difference, less one exactly when today's (month,
      day) comes before the birth (month, day). */
  lemma IdadeOfCalendarDate(c: Cliente, today: CalendarDate)
    requires WellFormedDate(c.nasc)
    requires ReadDate(c.nasc).year >= 100
    requires Valid(CalendarDate(ReadDate(c.nasc).year, ReadDate(c.nasc).month, ReadDate(c.nasc).day))
    ensures var f := ReadDate(c.nasc);
            Idade(c, today) == today.year - f.year - 1
            <==> (today.month < f.month || (today.month == f.month && today.day < f.day))
    ensures var f := ReadDate(c.nasc);
            Idade(c, today) == today.year - f.year - 1 || Idade(c, today) == today.year - f.year
  {
    var f := ReadDate(c.nasc);
    MakeDateKeepsValidDate(f.year, f.month - 1, f.day);
  }

  /** Born 15/03/1990: 33 on 2024-03-14, 34 on 2024-03-15 and on 2024-03-16. */
  lemma IdadeAroundBirthday(c: Cliente)
    requires c.nasc == "15/03/1990"
    ensures Idade(c, CalendarDate(2024, 3, 14)) == 33
    ensures Idade(c, CalendarDate(2024, 3, 15)) == 34
    ensures Idade(c, CalendarDate(2024, 3, 16)) == 34
  {
    assert ReadDate(c.nasc) == DateFields(15, 3, 1990);
    MakeDateKeepsValidDate(1990, 2, 15);
  }

  /** The long month names of the pt-BR locale, January first. */
  const MonthNames: seq<string> := [
    "janeiro", "fevereiro", "mar\U{E7}o", "abril", "maio", "junho",
    "julho", "agosto", "setembro", "outubro", "novembro", "dezembro"
  ]

  /** The name of month `m`, January being 1. */
  function MonthName(m: int): string
    requires 1 <= m <= 12
  {
    MonthNames[m - 1]
  }

  /** The month that `new Date(0, mes, 1)` falls in: the 1-based birth month
      `mes` is taken as a 0-based month index, so it is the month after the
      birth month, with December (and any multiple of 12) carrying into
      January of the next year. */
  lemma DateOfMonthIndex(mes: nat)
    ensures MakeDate(0, mes, 1) == CalendarDate(1900 + mes / 12, mes % 12 + 1, 1)
  {
  }

  /** `mesSeguinte()`: the pt-BR name of the month of `new Date(0, mes, 1)`
      (see DateOfMonthIndex), for the birth month `mes`. */
  function MesSeguinte(c: Cliente): string
    requires HasMonthField(c.nasc)
  {
    MonthName(ParseDecimal(c.nasc[3..5]) % 12 + 1)
  }

  /** Whatever the two month digits, the result is one of the twelve names. */
  lemma MesSeguinteIsMonthName(c: Cliente)
    requires HasMonthField(c.nasc)
    ensures MesSeguinte(c) in MonthNames
  {
    var k := ParseDecimal(c.nasc[3..5]) % 12;
    assert MesSeguinte(c) == MonthNames[k];
  }

  /** The name is the month name of the date `new Date(0, mes, 1)`. */
  lemma MesSeguinteIsDateMonth(c: Cliente)
    requires HasMonthField(c.nasc)
    ensures MesSeguinte(c) == MonthName(MakeDate(0, ParseDecimal(c.nasc[3..5]), 1).month)
  {
    DateOfMonthIndex(ParseDecimal(c.nasc[3..5]));
  }

  lemma MonthAfter(mes: nat)
    ensures 1 <= mes <= 11 ==> MonthName(mes % 12 + 1) == MonthName(mes + 1)
    ensures mes == 12 ==> MonthName(mes % 12 + 1) == "janeiro"
  {
    if mes == 12 {
      assert mes % 12 + 1 == 1;
    }
  }

  /** The name is that of the month after the birth month for 1..11, and
      January for December. */
  lemma MesSeguinteFollows(c: Cliente)
    requires HasMonthField(c.nasc)
    ensures var mes := ParseDecimal(c.nasc[3..5]);
            && (1 <= mes <= 11 ==> MesSeguinte(c) == MonthName(mes + 1))
            && (mes == 12 ==> MesSeguinte(c) == "janeiro")
  {
    MonthAfter(ParseDecimal(c.nasc[3..5]));
  }

  lemma MonthNamesDistinct(i: int, j: int)
    requires 0 <= i < 12 && 0 <= j < 12 && i != j
    ensures MonthNames[i] != MonthNames[j]
  {
    var a, b := MonthNames[i], MonthNames[j];
    assert |a| != |b| || a[0] != b[0] || a[2] != b[2];
  }

  /** Two birth months give the same name exactly when they agree modulo 12. */
  lemma MesSeguinteSameName(c1: Cliente, c2: Cliente)
    requires HasMonthField(c1.nasc) && HasMonthField(c2.nasc)
    ensures MesSeguinte(c1) == MesSeguinte(c2)
            <==> ParseDecimal(c1.nasc[3..5]) % 12 == ParseDecimal(c2.nasc[3..5]) % 12
  {
    var i, j := ParseDecimal(c1.nasc[3..5]) % 12, ParseDecimal(c2.nasc[3..5]) % 12;
    if i != j {
      MonthNamesDistinct(i, j);
    }
  }

  /** Born in March: "abril"; born in December: "janeiro". */
  lemma MesSeguinteExamples(c: Cliente, d: Cliente)
    requires c.nasc == "15/03/1990" && d.nasc == "01/12/1985"
    ensures MesSeguinte(c) == "abril"
    ensures MesSeguinte(d) == "janeiro"
  {
    ParseTwoDigits(c.nasc[3..5]);
    ParseTwoDigits(d.nasc[3..5]);
  }
}
