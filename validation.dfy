/** Request-body validation of the two write endpoints, and the error
    envelopes they answer with. */
module Validation {
  import opened Wrappers
  import opened EmailFormat

  /** The field names listed in the "required" member of the error body. */
  const RequiredFields: seq<string> := ["name", "email", "message"]

  const DefaultSubject: string := "General Inquiry"

  /** The validation failures, each answered with HTTP status 400. */
  datatype ApiError = MissingRequiredFields | InvalidEmailFormat | PageNameRequired {

    /** The "error" member of the response body. */
    function Text(): (t: string)
      ensures t != ""
      ensures t == "Missing required fields" <==> this == MissingRequiredFields
      ensures t == "Invalid email format" <==> this == InvalidEmailFormat
      ensures t == "Page name required" <==> this == PageNameRequired
    {
      match this
      case MissingRequiredFields => "Missing required fields"
      case InvalidEmailFormat => "Invalid email format"
      case PageNameRequired => "Page name required"
    }

    /** The "required" member of the response body, present only when fields
        are missing. */
    function Required(): (f: Option<seq<string>>)
      ensures f.Some? <==> this == MissingRequiredFields
      ensures f.Some? ==> f.value == RequiredFields
    {
      if MissingRequiredFields? then Some(RequiredFields) else None
    }

    function Status(): nat {
      400
    }
  }

  /** JavaScript truthiness of a request-body string: it fails when it is
      absent or the empty string. */
  predicate Present(f: Option<string>)
    ensures Present(f) <==> f != None && f != Some("")
    ensures Present(f) ==> |f.value| >= 1
  {
    f.Some? && f.value != ""
  }

  /** `subject || "General Inquiry"`. */
  function SubjectOrDefault(subject: Option<string>): (s: string)
    ensures s != ""
    ensures Present(subject) ==> s == subject.value
    ensures s != DefaultSubject ==> subject == Some(s)
  {
    if Present(subject) then subject.value else DefaultSubject
  }

  /** The contact-form checks in the handler's order: required fields first,
      then the email regex. None means the submission is accepted. */
  function ValidateContact(name: Option<string>, email: Option<string>, message: Option<string>): (r: Option<ApiError>)
    ensures r == Some(MissingRequiredFields) <==> !(Present(name) && Present(email) && Present(message))
    ensures r == Some(InvalidEmailFormat) <==>
      Present(name) && Present(email) && Present(message) && !EmailPattern(email.value)
    ensures r == None <==>
      Present(name) && Present(email) && Present(message) && EmailPattern(email.value)
    ensures r != Some(PageNameRequired)
  {
    if !Present(name) || !Present(email) || !Present(message) then Some(MissingRequiredFields)
    else
      EmailPatternIff(email.value);
      if !ValidEmail(email.value) then Some(InvalidEmailFormat) else None
  }

  /** The handler's checks as it runs them: the truthiness test of the three
      fields, then `emailRegex.test(email)` by the one-pass scanner. */
  method CheckContact(name: Option<string>, email: Option<string>, message: Option<string>)
    returns (r: Option<ApiError>)
    ensures r == ValidateContact(name, email, message)
    ensures r.Some? ==> r.value.Required().Some? == !(Present(name) && Present(email) && Present(message))
  {
    if !Present(name) || !Present(email) || !Present(message) {
      return Some(MissingRequiredFields);
    }
    var ok := TestEmail(email.value);
    r := if ok then None else Some(InvalidEmailFormat);
  }

  /** The page-view check: the page name must be present and non-empty. */
  function ValidatePageView(page: Option<string>): (r: Option<ApiError>)
    ensures r == None <==> Present(page)
    ensures r != None ==> r == Some(PageNameRequired)
  {
    if Present(page) then None else Some(PageNameRequired)
  }
}
