/**
 The submit handler of the contact form (js/main.js): the fields are read into
 a record, the four required ones must be non-empty, then the e-mail must match
 the pattern of the `Email` module. Only when both checks pass is the record
 produced (logged, and the success panel shown).
 */
module ContactForm {
  import opened Email

  /** The values read from the form; `siteVisit` is the checkbox. */
  datatype FormData = FormData(
    name: string,
    email: string,
    phone: string,
    address: string,
    serviceType: string,
    message: string,
    siteVisit: bool)

  /** The outcome of a submit: the record, or which check stopped it. */
  datatype Validation = Ok(record: FormData) | MissingRequired | BadEmail

  /** Some required field is empty (an empty string is falsy in the `!field` test). */
  predicate RequiredMissing(f: FormData) {
    f.name == "" || f.email == "" || f.phone == "" || f.message == ""
  }

  function Validate(f: FormData): (r: Validation)
    ensures r.MissingRequired? <==> RequiredMissing(f)
    ensures r.BadEmail? <==> !RequiredMissing(f) && !MatchesEmailRegex(f.email)
    ensures r.Ok? <==> !RequiredMissing(f) && MatchesEmailRegex(f.email)
    ensures r.Ok? ==> r.record == f
  {
    if RequiredMissing(f) then MissingRequired
    else if !MatchesEmailRegex(f.email) then BadEmail
    else Ok(f)
  }

  /** The alert shown for a rejected submit. */
  function AlertText(r: Validation): (msg: string)
    requires !r.Ok?
    ensures |msg| > 0
  {
    match r
    case MissingRequired => "Vennligst fyll ut alle obligatoriske felt."
    case BadEmail => "Vennligst oppgi en gyldig e-postadresse."
  }

  /** The two rejections are told apart by their messages. */
  lemma AlertTextsDistinct()
    ensures AlertText(MissingRequired) != AlertText(BadEmail)
  {
  }

  /** An empty required field wins over a malformed e-mail: the required
      check comes first, whatever the e-mail looks like. */
  lemma EmptyRequiredRejectsWhateverTheEmail(f: FormData, email: string)
    requires f.name == "" || f.phone == "" || f.message == ""
    ensures Validate(f.(email := email)) == MissingRequired
  {
  }

  /** Address, service type and the site-visit box never decide the outcome. */
  lemma OptionalFieldsNeverReject(f: FormData, address: string, serviceType: string, siteVisit: bool)
    ensures var g := f.(address := address, serviceType := serviceType, siteVisit := siteVisit);
      Validate(g).Ok? <==> Validate(f).Ok?
  {
  }

  /** A produced record has every required field filled and an address with
      exactly one `@`, no whitespace and a dotted domain. */
  lemma AcceptedRecordIsComplete(f: FormData)
    requires Validate(f).Ok?
    ensures var g := Validate(f).record;
      g.name != "" && g.email != "" && g.phone != "" && g.message != "" && WellFormedEmail(g.email)
  {
    RegexIffWellFormed(f.email);
  }
}
