/** `RenewBookForm` (catalog/forms.py): the librarian's renewal form and its
    one rule, that a new due date lies between today and four weeks ahead. */
module Forms {
  import opened Wrappers
  import opened Models

  /** `timedelta(weeks = 4)`: the furthest a renewal may reach. */
  const MaxRenewalDays: int := 28

  /** `timedelta(weeks = 3)`: the date the form proposes, as its help text announces. */
  const ProposedRenewalDays: int := 21

  datatype RenewalError =
    | InPast           // the date is before today
    | BeyondFourWeeks  // the date is after today plus four weeks

  /** The message each rejection shows next to the field. */
  function ErrorMessage(e: RenewalError): string
  {
    match e
    case InPast => "Fecha no valida - Pasada fecha de renovación"
    case BeyondFourWeeks => "Fecha no valida - La renovación no puede ser superior a 4 semanas"
  }

  /** `RenewBookForm.clean_renewal_date`: a date before today is in the past;
      failing that, a date after today plus four weeks is too far; otherwise
      the date is accepted unchanged. */
  function CleanRenewalDate(candidate: Date, today: Date): (r: Result<Date, RenewalError>)
    ensures r == Success(candidate) <==> today <= candidate <= today + MaxRenewalDays
    ensures r == Failure(InPast) <==> candidate < today
    ensures r == Failure(BeyondFourWeeks) <==> candidate > today + MaxRenewalDays
  {
    if candidate < today then Failure(InPast)
    else if candidate > today + MaxRenewalDays then Failure(BeyondFourWeeks)
    else Success(candidate)
  }

  /** The two refusals show different messages, so the librarian can tell a
      date in the past from one too far ahead. */
  lemma ErrorMessagesDiffer()
    ensures ErrorMessage(InPast) != ErrorMessage(BeyondFourWeeks)
  {
  }

  /** Both ends of the window are accepted; the days just outside are not. */
  lemma RenewalWindowBoundaries(today: Date)
    ensures CleanRenewalDate(today, today) == Success(today)
    ensures CleanRenewalDate(today + MaxRenewalDays, today) == Success(today + MaxRenewalDays)
    ensures CleanRenewalDate(today - 1, today) == Failure(InPast)
    ensures CleanRenewalDate(today + MaxRenewalDays + 1, today) == Failure(BeyondFourWeeks)
  {
  }

  /** Every candidate gets exactly one of the three outcomes. */
  lemma ExactlyOneOutcome(candidate: Date, today: Date)
    ensures CleanRenewalDate(candidate, today) in
      {Success(candidate), Failure(InPast), Failure(BeyondFourWeeks)}
    ensures !(candidate < today && candidate > today + MaxRenewalDays)
  {
  }

  /** The proposed date, three weeks out, passes the rule with a week to spare. */
  lemma ProposedDateAccepted(today: Date)
    ensures CleanRenewalDate(today + ProposedRenewalDays, today) == Success(today + ProposedRenewalDays)
    ensures today + ProposedRenewalDays + 7 == today + MaxRenewalDays
  {
  }

  /** With today as 10 January: 9 January is in the past, 10 February (31
      days on) is too far, and 24 January (14 days on) is accepted. */
  lemma RenewalScenario(today: Date)
    ensures CleanRenewalDate(today - 1, today) == Failure(InPast)
    ensures CleanRenewalDate(today + 31, today) == Failure(BeyondFourWeeks)
    ensures CleanRenewalDate(today + 14, today) == Success(today + 14)
  {
  }

  /** What the `renewal_date` field received: nothing, text that is not a
      date, or a date. */
  datatype DateInput =
    | Missing
    | Unparsable
    | Entered(date: Date)

  /** Why a submitted form is refused. */
  datatype FormError =
    | Required                      // the field is empty (`required`)
    | Invalid                       // the text is not a date (`invalid`)
    | Rejected(error: RenewalError) // `clean_renewal_date` refused it

  /** `RenewBookForm(request.POST).is_valid()`: the `renewal_date` field must
      hold a date, which `clean_renewal_date` then checks. */
  function ValidateRenewBookForm(input: DateInput, today: Date): (r: Result<Date, FormError>)
    ensures r.Success? <==> input.Entered? && CleanRenewalDate(input.date, today).Success?
    ensures r.Success? ==> r.value == input.date
    ensures r == Failure(Required) <==> input.Missing?
    ensures r == Failure(Invalid) <==> input.Unparsable?
    ensures input.Entered? && r.Failure? ==> r.error == Rejected(CleanRenewalDate(input.date, today).error)
  {
    match input
    case Missing => Failure(Required)
    case Unparsable => Failure(Invalid)
    case Entered(d) =>
      match CleanRenewalDate(d, today)
      case Success(v) => Success(v)
      case Failure(e) => Failure(Rejected(e))
  }
}
