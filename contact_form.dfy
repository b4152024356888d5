/** The contact form's submit handler (site/script.js:94-179): trim the
    three fields, check each one, mark each with `aria-invalid`, and either
    report the aggregate error or open the mailto URI. */
module ContactForm {
  import opened Wrappers
  import opened Text
  import opened Email
  import opened Mailto

  const ERROR_MESSAGE: string := "Please fill in the required fields (name, email, message)."
  const OPENING_MESSAGE: string := "Opening your email app\U{2026}"

  /** The value `setInvalid` writes into `aria-invalid`. */
  function AriaInvalid(isInvalid: bool): string
  {
    if isInvalid then "true" else "false"
  }

  /** The email field passes: present and matching the pattern. */
  predicate EmailAccepted(email: string)
  {
    email != [] && IsValidEmail(email)
  }

  /** All three trimmed fields pass their checks. */
  predicate Accepted(name: string, email: string, message: string)
  {
    name != [] && EmailAccepted(email) && message != []
  }

  /** The three `aria-invalid` values one submission writes. */
  datatype Marks = Marks(name: string, email: string, message: string)

  /** The checks of site/script.js:130-151 on the trimmed values: `ok`
      starts true and each failing field clears it and is marked invalid;
      each field is marked, whatever the others hold. */
  method Validate(name: string, email: string, message: string) returns (ok: bool, marks: Marks)
    ensures ok <==> Accepted(name, email, message)
    ensures marks.name == AriaInvalid(name == [])
    ensures marks.email == AriaInvalid(!EmailAccepted(email))
    ensures marks.message == AriaInvalid(message == [])
    ensures ok <==> marks == Marks("false", "false", "false")
  {
    ok := true;
    var nameMark, emailMark, messageMark;
    if name == [] {
      ok := false;
      nameMark := "true";
    } else {
      nameMark := "false";
    }
    if !EmailAccepted(email) {
      ok := false;
      emailMark := "true";
    } else {
      emailMark := "false";
    }
    if message == [] {
      ok := false;
      messageMark := "true";
    } else {
      messageMark := "false";
    }
    marks := Marks(nameMark, emailMark, messageMark);
  }

  /** The form as the handler sees it: the status element (if the page has
      one), the three fields' `aria-invalid` attributes (absent until the
      first submission) and the address last assigned to
      `window.location.href`. */
  class Form {
    /** The page has a `[data-form-status]` element. */
    const hasStatus: bool
    /** `#name`, `#email` and `#message` exist with the expected types. */
    const hasFields: bool

    var statusText: string
    var statusIsError: bool
    var nameInvalid: Option<string>
    var emailInvalid: Option<string>
    var messageInvalid: Option<string>
    var location: Option<string>

    constructor (hasStatus: bool, hasFields: bool)
      ensures this.hasStatus == hasStatus && this.hasFields == hasFields
      ensures statusText == "" && !statusIsError
      ensures nameInvalid == None && emailInvalid == None && messageInvalid == None
      ensures location == None
    {
      this.hasStatus := hasStatus;
      this.hasFields := hasFields;
      statusText := "";
      statusIsError := false;
      nameInvalid, emailInvalid, messageInvalid := None, None, None;
      location := None;
    }

    /** `setStatus`: without a status element nothing happens. */
    method SetStatus(message: string, isError: bool)
      modifies this`statusText, this`statusIsError
      ensures hasStatus ==> statusText == message && statusIsError == isError
      ensures !hasStatus ==> statusText == old(statusText) && statusIsError == old(statusIsError)
    {
      if hasStatus {
        statusText := message;
        statusIsError := isError;
      }
    }

    /** The submit listener, given the raw field values and the page's
        address. The fields are trimmed; every field is marked; an invalid
        form shows the error and navigates nowhere; a valid one shows the
        opening message and sets the location to the mailto URI. */
    method Submit(nameValue: string, emailValue: string, messageValue: string, pageUrl: string)
      modifies this
      ensures !hasFields ==>
        nameInvalid == old(nameInvalid) && emailInvalid == old(emailInvalid)
        && messageInvalid == old(messageInvalid) && location == old(location)
        && (hasStatus ==> statusText == "" && !statusIsError)
      ensures hasFields ==>
        var name, email, message := Trim(nameValue), Trim(emailValue), Trim(messageValue);
        var accepted := Accepted(name, email, message);
        && nameInvalid == Some(AriaInvalid(name == []))
        && emailInvalid == Some(AriaInvalid(!EmailAccepted(email)))
        && messageInvalid == Some(AriaInvalid(message == []))
        && location == (if accepted then Some(MailtoUrl(name, email, message, pageUrl)) else old(location))
        && (hasStatus ==>
              statusText == (if accepted then OPENING_MESSAGE else ERROR_MESSAGE)
              && statusIsError == !accepted)
      ensures !hasStatus ==> statusText == old(statusText) && statusIsError == old(statusIsError)
    {
      SetStatus("", false);
      if !hasFields {
        return;
      }
      var name := Trim(nameValue);
      var email := Trim(emailValue);
      var message := Trim(messageValue);
      var ok, marks := Validate(name, email, message);
      nameInvalid := Some(marks.name);
      emailInvalid := Some(marks.email);
      messageInvalid := Some(marks.message);
      if !ok {
        SetStatus(ERROR_MESSAGE, true);
        return;
      }
      var mailto := MailtoUrl(name, email, message, pageUrl);
      SetStatus(OPENING_MESSAGE, false);
      location := Some(mailto);
    }
  }

  /** A sample rejected submission: an empty name and
      the address "bad" are both marked, the message "hi" is not (the three
      values are already trimmed). */
  method RejectedExample() returns (ok: bool, marks: Marks)
    ensures !ok && marks == Marks("true", "true", "false")
  {
    RejectsWithoutAt("bad");
    ok, marks := Validate("", "bad", "hi");
  }

  /** A sample accepted submission: nothing is marked. */
  method AcceptedExample() returns (ok: bool, marks: Marks)
    ensures ok && marks == Marks("false", "false", "false")
  {
    AcceptsExample();
    ok, marks := Validate("Ada", "ada@example.com", "Hello");
  }
}
