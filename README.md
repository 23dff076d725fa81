# Birthday-discount mailer: a verified model

The program reads customer rows (`data` as `dd/mm/yyyy`, `email`, `nome`) and
builds a `Cliente` for each row. It fills an HTML template with the
customer's name, age and the pt-BR name of the month after the birth month,
then sends one e-mail per row and stops at the first send that fails.

The model has four modules:

- `JsDate` (`js_date.dfy`): the calendar date of `new Date(year, monthIndex, day)`.
  - Out-of-range months carry into the year. Out-of-range days (day 0, 31 February) carry into neighbouring months.
  - Years 0..99 stand for 1900..1999.
  - It is specified by ECMAScript's MakeDay day number, and that day number determines the date.
- `JsString` (`js_string.dfy`) models these built-ins:
  - `parseInt` on digit strings;
  - `Number.prototype.toString` on integers;
  - `indexOf`;
  - `String.prototype.replace` with a string pattern. It replaces only the first occurrence and expands `$$`, `$&`, `` $` `` and `$'`.
- `Clientes` (`clientes.dfy`): the row and customer records, `idade()` and `mesSeguinte()`. The current date is a parameter.
- `Envio` (`envio.dfy`): the chain of three replacements, the message built for each row, and the sending loop.
  - Each row is rendered on the date the clock reads while that row is processed (`hoje[i]`).
  - Whether the transport accepts each send is the parameter `accepted`.

## Model

| member | source | states |
|---|---|---|
| JsDate.MakeDateDayNumber | index.ts:48 | `new Date(y, m, d)` lies `d - 1` days after the first of month `m % 12` of year `y + m / 12` (two-digit years in the 1900s), whatever the range of `m` and `d` |
| JsDate.MakeDateUnique | index.ts:48 | any valid calendar date with that day number is the date `new Date` yields, so the normalised date is unique |
| JsDate.MakeDateKeepsValidDate | index.ts:48 | a day and month already in range are kept unchanged |
| JsDate.MakeDateRollsOver | index.ts:48 | 31 Feb 1990 is 3 Mar 1990; day 0 of Jan 2000 is 31 Dec 1999; month index -1 is December of the year before; year 85 is 1985 |
| JsDate.RollForwardDayNumber | index.ts:48 | carrying a day past the end of a month into later months keeps its day number |
| JsDate.RollBackDayNumber | index.ts:48 | carrying a day 0 or below into earlier months keeps its day number |
| JsDate.DayNumberMonotone | index.ts:48 | day numbers follow calendar order on valid dates |
| JsDate.DayNumberInjective | index.ts:48 | two valid dates with the same day number are equal |
| JsDate.DayFromYearGrows | index.ts:48 | every day of an earlier year comes before the first day of a later year |
| JsString.ParsePadDecimal | index.ts:45-47 | `parseInt` of a zero-padded numeral gives back the number |
| JsString.PadParseDecimal | index.ts:45-47 | a digit string is the zero-padded numeral of its `parseInt` value at its own width |
| JsString.ParseTwoDigits | index.ts:46-47 | a two-digit field is worth ten times its first digit plus its second |
| JsString.ParseFourDigits | index.ts:45 | a four-digit year field is read positionally, thousands first |
| JsString.ParseNatToString | index.ts:94 | the numeral `toString` writes for a natural number reads back as that number |
| JsString.NatToString | index.ts:94 | the numeral is non-empty, all digits and has no leading zero |
| JsString.IntToString | index.ts:94 | the numeral starts with `-` exactly for a negative number and is otherwise made of digits |
| JsString.ParseIntToString | index.ts:94 | the digits of the age numeral read back as the age's magnitude |
| JsString.IndexOf | index.ts:93-95 | the result is the first index where the pattern occurs, or none when it occurs nowhere |
| JsString.Substitution | index.ts:93-95 | a replacement with no `$` is inserted literally |
| JsString.ReplaceFirstNoMatch | index.ts:93-95 | `replace` with a pattern that does not occur returns the string unchanged |
| JsString.ReplaceFirstAt | index.ts:93-95 | with the first match at `p`, the expanded replacement takes its place and everything else is kept, later matches included |
| JsString.FirstOccurrenceAfter | index.ts:93-95 | an occurrence preceded by text without the pattern's first character is the first one |
| JsString.ReplaceFirstAfter | index.ts:93-95 | such an occurrence is exactly where a `$`-free replacement lands |
| JsString.ReplaceFirstSplit | index.ts:93-95 | when the first occurrence of the pattern is the one right after a prefix, a `$`-free replacement takes exactly its place |
| JsString.NoOccurrenceInSuffix | index.ts:95 | a pattern that occurs nowhere in a string occurs nowhere in any suffix of it |
| JsString.NoOccurrenceAfterPrefix | index.ts:95 | a prefix without the pattern's first character creates no occurrence in front of a string that has none |
| Clientes.FromRegistro | index.ts:89 | the customer holds the row's name, date string and e-mail as given |
| Clientes.ReadDate | index.ts:45-47 | day, month and year are the numbers spelled by the digits at positions 0-1, 3-4 and 6-9 |
| Clientes.ReadFormatDate | index.ts:45-47 | reading a formatted `dd/mm/yyyy` date gives back its day, month and year |
| Clientes.FormatReadDate | index.ts:45-47 | a `dd/mm/yyyy` string is the formatting of what is read from it |
| Clientes.BirthDate | index.ts:45-48 | the birth date built from the fields is always a real calendar date |
| Clientes.AgeOn | index.ts:50-56 | the age is the number of anniversaries reached: the `r`-th is not after today, the next one is |
| Clientes.AgeOnUnique | index.ts:50-56 | only one count of anniversaries satisfies that, so the age is determined |
| Clientes.AgeOnMonotone | index.ts:50-56 | the age never decreases as the current date moves forward |
| Clientes.AgeOnBirthday | index.ts:50-55 | for every birth date and year (100 or later): each day of that year before the birthday gives one less than the year difference, each day from the birthday on gives the year difference, and the eve as `new Date` computes it (the last day of the previous month for a birthday on the 1st) gives one less |
| Clientes.Idade | index.ts:43-57 | `idade()` is the number of anniversaries of the normalised birth date reached by today |
| Clientes.IdadeOfCalendarDate | index.ts:50-55 | for a real birth date whose year field is 100 or more, the age is the year difference less one exactly when today's (month, day) comes before the birth (month, day) |
| Clientes.IdadeAroundBirthday | index.ts:43-57 | born 15/03/1990: 33 on 2024-03-14, 34 on 2024-03-15 and 2024-03-16 |
| Clientes.DateOfMonthIndex | index.ts:61 | `new Date(0, mes, 1)` is the first of month `mes % 12 + 1` of year `1900 + mes / 12` |
| Clientes.MesSeguinteIsMonthName | index.ts:59-63 | whatever the two month digits, the result is one of the twelve pt-BR month names |
| Clientes.MesSeguinteIsDateMonth | index.ts:60-62 | the result is the name of the month of `new Date(0, mes, 1)` |
| Clientes.MonthAfter | index.ts:61 | month index `mes` names the month after `mes` for 1..11 and January for 12 |
| Clientes.MesSeguinteFollows | index.ts:59-63 | born in months 1..11 gives the next month's name; born in December gives "janeiro" |
| Clientes.MonthNamesDistinct | index.ts:62 | the twelve month names are pairwise different |
| Clientes.MesSeguinteSameName | index.ts:59-63 | two birth months give the same name exactly when they agree modulo 12 |
| Clientes.MesSeguinteExamples | index.ts:59-63 | born in March gives "abril"; born in December gives "janeiro" |
| Envio.PersonalizeTokenFree | index.ts:92-95 | a template with none of the three tokens comes out unchanged |
| Envio.PersonalizeFillsTokens | index.ts:92-95 | a template with the tokens in the order name, age, month, where at each step the token meant is the first in the text as it then stands, gets each `$`-free value exactly in place of its token and keeps all other text, later copies of the tokens included |
| Envio.PersonalizeFillsTokensBraceFree | index.ts:92-95 | the same result when the template text before the month token, the name and the age hold no `{` |
| Envio.PersonalizeOrderMatters | index.ts:92-95 | for a template `a` + `{{nome}}` + `b` + `{{percdesc}}` + `c` with no `{` in `a` and no `{{mesquevem}}`: with the name being `{{percdesc}}`, the age (free of `{` and `$`) lands where `{{nome}}` stood and the template's own `{{percdesc}}` stays |
| Envio.RenderTokenFree | index.ts:89-95 | every customer gets a token-free template unchanged |
| Envio.NumeralBraceAndDollarFree | index.ts:94 | the age numeral holds neither `{` nor `$` |
| Envio.MonthNamesBraceAndDollarFree | index.ts:62 | no month name holds `{` or `$` |
| Envio.RenderFillsTokens | index.ts:89-95 | under the first-occurrence conditions of PersonalizeFillsTokens and a name without `$`, the message is the template with the customer's name, age numeral and next-month name in place of the three tokens |
| Envio.RenderOrderMatters | index.ts:89-95 | for the templates of PersonalizeOrderMatters, a customer named `{{percdesc}}` gets the age where `{{nome}}` stood, and the template's `{{percdesc}}` stays in the message |
| Envio.FirstRejected | index.ts:98-104 | the index of the first rejected send: all earlier sends are accepted, and that one is not |
| Envio.EnvelopeFor | index.ts:89-104 | the message goes to the row's e-mail with the fixed sender and subject, and the personalised text is both the text and the HTML body |
| Envio.Outbox | index.ts:88-104 | there is one message per row, in input order, each built from its own row |
| Envio.Deliver | index.ts:88-112 | the messages sent are exactly those before the first rejected one; the run aborts at that row or completes |
| Envio.SendAll | index.ts:88-112 | the same relation over the messages of the input rows |

## Left out

- Reading the CSV file (`lerCSV`, index.ts:13-29): the rows are the input sequence, already parsed, trimmed and without empty lines.
- The mail transport: creating the test account and the transporter, the SMTP details, and the preview URL. Each send's success is the `accepted` parameter.
- Reading `Mensagem.html`, console output and the `catch` handler: the template is a parameter, output is not modelled, and the run simply stops at the first failure.
- `parseInt` on fields that are not digits (NaN, signs, whitespace, `0x` prefixes): the digit positions of the date string are required to be decimal digits.
- `new Date()` (the clock): the current date is a parameter.
- Clientes.ReadDate, Clientes.HasMonthField and Clientes.WellFormedDate count positions in Unicode characters, while `substring` counts UTF-16 code units. The two agree only when the first ten characters of the date string lie in the Basic Multilingual Plane. A character outside it (an emoji, say) shifts the fields that `substring` reads, and the model does not capture that.
- Time zones, daylight-saving shifts and the time of day are not modelled. Dates are local calendar dates in the proleptic Gregorian calendar, which ignores the ±8.64e15 ms range limit of `Date`.
- `toLocaleString("pt-BR", { month: "long" })` is modelled as the table of the twelve pt-BR month names, not by ICU.
- SendAll: it builds every message before the first send, whereas the program builds each message just before sending it. The messages are pure values of the row and its date, so what is sent is the same.
- PersonalizeFillsTokens: it is stated only for templates with the tokens in the order name, age, month. Other orders, missing tokens and repeated tokens before the intended one are not covered. RenderFillsTokens inherits the same limits.
- PersonalizeOrderMatters: it is stated only for templates with no `{` before the first `{{nome}}` and no `{{mesquevem}}`, and with the name token before an age token. A template such as `{{percdesc}} {{nome}}`, where the template's own age token is the one replaced, is not stated. RenderOrderMatters inherits the same limits.
- AgeOnBirthday: it is stated for years 100 and later, because `new Date` reads years 0..99 as 1900..1999 when it computes the eve.
- JsString.ReplaceFirst and Envio.Personalize carry no contract of their own; their properties are the ReplaceFirst* and Personalize* lemmas.
- JsString.Substitution: the `$n` and `$<name>` patterns are kept literally, as they are for a string pattern, which has no capture groups.
