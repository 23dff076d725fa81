/** The per-record part of the mailing run: the HTML template is filled with
    one customer's values by three successive first-match replacements, and
    the run goes through the input rows in order, sending one message per row
    and stopping at the first send that fails. Whether the mail transport
    accepts each message is a parameter. */
module Envio {
  import opened JsDate
  import opened JsString
  import opened Clientes

  const TokenNome := "{{nome}}"
  /** Carries the customer's age, whatever its name suggests. */
  const TokenPercdesc := "{{percdesc}}"
  const TokenMesquevem := "{{mesquevem}}"

  /** None of the three tokens occurs anywhere in `s`. */
  ghost predicate TokenFree(s: string) {
    forall k :: !OccursAt(s, TokenNome, k) && !OccursAt(s, TokenPercdesc, k) && !OccursAt(s, TokenMesquevem, k)
  }

  /** The chain of three `replace` calls applied to the template: the first
      `{{nome}}` becomes `nome`, then the first `{{percdesc}}` of that result
      becomes `idade`, then the first `{{mesquevem}}` of that becomes `mes`
      (see PersonalizeTokenFree, PersonalizeFillsTokens and
      PersonalizeOrderMatters). */
  function Personalize(template: string, nome: string, idade: string, mes: string): string
  {
    var comNome := ReplaceFirst(template, TokenNome, nome);
    var comIdade := ReplaceFirst(comNome, TokenPercdesc, idade);
    ReplaceFirst(comIdade, TokenMesquevem, mes)
  }

  /** A template with none of the tokens comes out unchanged. */
  lemma PersonalizeTokenFree(template: string, nome: string, idade: string, mes: string)
    requires TokenFree(template)
    ensures Personalize(template, nome, idade, mes) == template
  {
    ReplaceFirstNoMatch(template, TokenNome, nome);
    ReplaceFirstNoMatch(template, TokenPercdesc, idade);
    ReplaceFirstNoMatch(template, TokenMesquevem, mes);
  }

  /** Re-brackets a template so that its first token stands between a prefix
      and the rest, the shape ReplaceFirstSplit works on. */
  lemma RegroupNome(a: string, b: string, c: string, d: string)
    ensures a + TokenNome + b + TokenPercdesc + c + TokenMesquevem + d
         == a + TokenNome + (b + TokenPercdesc + c + TokenMesquevem + d)
  {
  }

  /** The same re-bracketing after the name is in, around the age token. */
  lemma RegroupPercdesc(a: string, nome: string, b: string, c: string, d: string)
    ensures a + nome + (b + TokenPercdesc + c + TokenMesquevem + d)
         == a + nome + b + TokenPercdesc + c + TokenMesquevem + d
    ensures a + nome + b + TokenPercdesc + c + TokenMesquevem + d
         == (a + nome + b) + TokenPercdesc + (c + TokenMesquevem + d)
  {
  }

  /** The same re-bracketing after the age is in, around the month token. */
  lemma RegroupMesquevem(x: string, idade: string, c: string, d: string)
    ensures x + idade + (c + TokenMesquevem + d) == x + idade + c + TokenMesquevem + d
  {
  }

  /** Re-brackets `a + t + b + {{percdesc}} + c` around its leading part `a + t`. */
  lemma RegroupLeading(a: string, t: string, b: string, c: string)
    ensures a + t + b + TokenPercdesc + c == a + t + (b + TokenPercdesc + c)
  {
  }

  /** A template holding the tokens in the order name, age, month gets each
      value exactly in place of its token, everything else (other copies of
      the tokens included) kept, provided that at each step the token meant
      is the first one in the text as it then stands, and that no value
      holds a `$` (which `replace` would expand). */
  lemma PersonalizeFillsTokens(a: string, b: string, c: string, d: string, nome: string, idade: string, mes: string)
    requires FirstOccurrence(a + TokenNome + b + TokenPercdesc + c + TokenMesquevem + d, TokenNome, |a|)
    requires FirstOccurrence(a + nome + b + TokenPercdesc + c + TokenMesquevem + d, TokenPercdesc, |a + nome + b|)
    requires FirstOccurrence(a + nome + b + idade + c + TokenMesquevem + d, TokenMesquevem, |a + nome + b + idade + c|)
    requires '$' !in nome && '$' !in idade && '$' !in mes
    ensures Personalize(a + TokenNome + b + TokenPercdesc + c + TokenMesquevem + d, nome, idade, mes)
         == a + nome + b + idade + c + mes + d
  {
    RegroupNome(a, b, c, d);
    ReplaceFirstSplit(a, TokenNome, b + TokenPercdesc + c + TokenMesquevem + d, nome);
    RegroupPercdesc(a, nome, b, c, d);
    ReplaceFirstSplit(a + nome + b, TokenPercdesc, c + TokenMesquevem + d, idade);
    RegroupMesquevem(a + nome + b, idade, c, d);
    ReplaceFirstSplit(a + nome + b + idade + c, TokenMesquevem, d, mes);
  }

  /** A simple case of the above: no `{` in the template text before the
      month token, nor in the name or the age, so no token can start
      anywhere but where it is meant to. */
  lemma PersonalizeFillsTokensBraceFree(a: string, b: string, c: string, d: string, nome: string, idade: string, mes: string)
    requires '{' !in a && '{' !in b && '{' !in c
    requires '{' !in nome && '$' !in nome && '{' !in idade && '$' !in idade && '$' !in mes
    ensures Personalize(a + TokenNome + b + TokenPercdesc + c + TokenMesquevem + d, nome, idade, mes)
         == a + nome + b + idade + c + mes + d
  {
    RegroupNome(a, b, c, d);
    FirstOccurrenceAfter(a, TokenNome, b + TokenPercdesc + c + TokenMesquevem + d);
    RegroupPercdesc(a, nome, b, c, d);
    FirstOccurrenceAfter(a + nome + b, TokenPercdesc, c + TokenMesquevem + d);
    RegroupMesquevem(a + nome + b, idade, c, d);
    FirstOccurrenceAfter(a + nome + b + idade + c, TokenMesquevem, d);
    PersonalizeFillsTokens(a, b, c, d, nome, idade, mes);
  }

  /** The replacements run in sequence, each on the result of the one
      before. With the name being the age token itself, the age lands where
      `{{nome}}` stood and every `{{percdesc}}` of the template stays; here
      the template's text before its first `{{nome}}` has no `{`, the age
      holds no `{` or `$`, and the template has no `{{mesquevem}}`. */
  lemma PersonalizeOrderMatters(a: string, b: string, c: string, idade: string, mes: string)
    requires '{' !in a && '{' !in idade && '$' !in idade
    requires forall k :: !OccursAt(a + TokenNome + b + TokenPercdesc + c, TokenMesquevem, k)
    ensures Personalize(a + TokenNome + b + TokenPercdesc + c, TokenPercdesc, idade, mes)
         == a + idade + b + TokenPercdesc + c
  {
    var y := b + TokenPercdesc + c;
    RegroupLeading(a, TokenNome, b, c);
    ReplaceFirstAfter(a, TokenNome, y, TokenPercdesc);
    ReplaceFirstAfter(a, TokenPercdesc, y, idade);
    NoOccurrenceInSuffix(a + TokenNome, y, TokenMesquevem);
    NoOccurrenceAfterPrefix(a + idade, y, TokenMesquevem);
    ReplaceFirstNoMatch(a + idade + y, TokenMesquevem, mes);
    RegroupLeading(a, idade, b, c);
  }

  /** The personalised message for customer `c` on `today`: the name, the
      age as a decimal numeral and the name of the month after the birth
      month, put in by `Personalize`. */
  function Render(template: string, c: Cliente, today: CalendarDate): string
    requires WellFormedDate(c.nasc)
  {
    Personalize(template, c.nome, IntToString(Idade(c, today)), MesSeguinte(c))
  }

  /** Every customer gets a template without tokens as it is. */
  lemma RenderTokenFree(template: string, c: Cliente, today: CalendarDate)
    requires WellFormedDate(c.nasc) && TokenFree(template)
    ensures Render(template, c, today) == template
  {
    PersonalizeTokenFree(template, c.nome, IntToString(Idade(c, today)), MesSeguinte(c));
  }

  lemma NumeralBraceAndDollarFree(i: int)
    ensures '{' !in IntToString(i) && '$' !in IntToString(i)
  {
  }

  lemma MonthNamesBraceAndDollarFree(name: string)
    requires name in MonthNames
    ensures '{' !in name && '$' !in name
  {
  }

  /** The message is the template with the customer's name, age numeral
      and next-month name in place of the three tokens, under the conditions
      of PersonalizeFillsTokens for those values. */
  lemma RenderFillsTokens(a: string, b: string, c: string, d: string, cli: Cliente, today: CalendarDate)
    requires WellFormedDate(cli.nasc) && '$' !in cli.nome
    requires FirstOccurrence(a + TokenNome + b + TokenPercdesc + c + TokenMesquevem + d, TokenNome, |a|)
    requires FirstOccurrence(a + cli.nome + b + TokenPercdesc + c + TokenMesquevem + d,
                             TokenPercdesc, |a + cli.nome + b|)
    requires FirstOccurrence(a + cli.nome + b + IntToString(Idade(cli, today)) + c + TokenMesquevem + d,
                             TokenMesquevem, |a + cli.nome + b + IntToString(Idade(cli, today)) + c|)
    ensures Render(a + TokenNome + b + TokenPercdesc + c + TokenMesquevem + d, cli, today)
         == a + cli.nome + b + IntToString(Idade(cli, today)) + c + MesSeguinte(cli) + d
  {
    NumeralBraceAndDollarFree(Idade(cli, today));
    MesSeguinteIsMonthName(cli);
    MonthNamesBraceAndDollarFree(MesSeguinte(cli));
    PersonalizeFillsTokens(a, b, c, d, cli.nome, IntToString(Idade(cli, today)), MesSeguinte(cli));
  }

  /** A customer whose name is the age token gets the age where `{{nome}}`
      stood, and the template's own `{{percdesc}}` is left in the message,
      under the conditions of PersonalizeOrderMatters. */
  lemma RenderOrderMatters(a: string, b: string, c: string, cli: Cliente, today: CalendarDate)
    requires WellFormedDate(cli.nasc) && cli.nome == TokenPercdesc && '{' !in a
    requires forall k :: !OccursAt(a + TokenNome + b + TokenPercdesc + c, TokenMesquevem, k)
    ensures Render(a + TokenNome + b + TokenPercdesc + c, cli, today)
         == a + IntToString(Idade(cli, today)) + b + TokenPercdesc + c
  {
    NumeralBraceAndDollarFree(Idade(cli, today));
    PersonalizeOrderMatters(a, b, c, IntToString(Idade(cli, today)), MesSeguinte(cli));
  }

  /** A message handed to the mail transport. */
  datatype Envelope = Envelope(from: string, to: string, subject: string, text: string, html: string)

  const Remetente := "\"\U{D3}tica Teste\" <teste@example.com>"
  const Assunto := "\U{1F389} Desconto para aniversariante!"

  /** How the run ended: every row sent, or stopped by the send of row `at`. */
  datatype Outcome = Completed | Aborted(at: nat)

  /** The index of the first send the transport rejects, or the number of sends if none is. */
  function FirstRejected(accepted: seq<bool>): (k: nat)
    ensures k <= |accepted|
    ensures forall i :: 0 <= i < k ==> accepted[i]
    ensures k < |accepted| ==> !accepted[k]
  {
    if accepted == [] || !accepted[0] then 0
    else 1 + FirstRejected(accepted[1..])
  }

  /** The message for one row: the customer built from the row, the
      template rendered for that customer on `today`, sent to the customer's
      address with the fixed sender and subject, as both the text and the
      HTML body. */
  function EnvelopeFor(template: string, reg: Registro, today: CalendarDate): (e: Envelope)
    requires WellFormedDate(reg.data)
    ensures e.from == Remetente && e.subject == Assunto && e.to == reg.email
    ensures e.text == e.html == Render(template, FromRegistro(reg), today)
  {
    var cliente := FromRegistro(reg);
    var mensagem := Render(template, cliente, today);
    Envelope(Remetente, cliente.email, Assunto, mensagem, mensagem)
  }

  /** The message of every row, in input order, row `i` rendered on the
      date `hoje[i]` on which it is processed. */
  function Outbox(template: string, registros: seq<Registro>, hoje: seq<CalendarDate>): (r: seq<Envelope>)
    requires |hoje| == |registros|
    requires forall i :: 0 <= i < |registros| ==> WellFormedDate(registros[i].data)
    ensures |r| == |registros|
    ensures forall i :: 0 <= i < |registros| ==> r[i] == EnvelopeFor(template, registros[i], hoje[i])
  {
    seq(|registros|, i requires 0 <= i < |registros| => EnvelopeFor(template, registros[i], hoje[i]))
  }

  /** The transport loop: the messages are handed to the transport one by
      one, in order; `accepted[i]` is its answer to message `i`, and a
      rejected send ends the run (the awaited `sendMail` throws out of
      the loop). `sent` holds the messages delivered: those before the first
      rejected one. */
  method Deliver(outbox: seq<Envelope>, accepted: seq<bool>) returns (sent: seq<Envelope>, outcome: Outcome)
    requires |accepted| == |outbox|
    ensures |sent| == FirstRejected(accepted)
    ensures sent == outbox[..|sent|]
    ensures outcome == if |sent| < |outbox| then Aborted(|sent|) else Completed
  {
    sent := [];
    var i := 0;
    while i < |outbox|
      invariant 0 <= i <= |outbox|
      invariant forall j :: 0 <= j < i ==> accepted[j]
      invariant sent == outbox[..i]
    {
      if !accepted[i] {
        outcome := Aborted(i);
        return;
      }
      sent := sent + [outbox[i]];
      i := i + 1;
    }
    outcome := Completed;
  }

  /** The main loop over the rows: row `i` is turned into its message on
      the date `hoje[i]` the clock reads while it is processed, and the
      messages go to the transport in input order until one is rejected.
      Building a message is pure, so the messages are built up front. */
  method SendAll(template: string, registros: seq<Registro>, hoje: seq<CalendarDate>, accepted: seq<bool>)
    returns (sent: seq<Envelope>, outcome: Outcome)
    requires |hoje| == |registros| && |accepted| == |registros|
    requires forall i :: 0 <= i < |registros| ==> WellFormedDate(registros[i].data)
    ensures |sent| == FirstRejected(accepted)
    ensures sent == Outbox(template, registros, hoje)[..|sent|]
    ensures outcome == if |sent| < |registros| then Aborted(|sent|) else Completed
  {
    var outbox := Outbox(template, registros, hoje);
    sent, outcome := Deliver(outbox, accepted);
  }
}
