/**
  The contact form's submit handler. A submission either is refused
  with one of two error notifications, leaving the form as it was, or
  puts the submit button into its pending state and schedules the
  simulated send; when that send completes, a success notification is
  shown, the fields are reset and the button is restored.

  The decision and the two phases are stated on values (`Decide`,
  `Begin`, `Complete` over a `Form` record); the class `ContactForm`
  holds the same state in fields and its methods are proved against
  those functions.
 */
module Contact {
  import Email

  const FillInText := "Please fill in all fields"
  const BadEmailText := "Please enter a valid email address"
  const SentText := "Message sent successfully!"
  /** Button label while the simulated send is pending. */
  const SendingLabel := "Sending..."
  /** Button label when the form is idle. */
  const IdleLabel := "Send Message"

  datatype NoticeKind = Success | Error
  /** A notification banner, as passed to showNotification. */
  datatype Notice = Notice(text: string, kind: NoticeKind)

  /** What the handler decides about the submitted values. */
  datatype Decision = MissingFields | BadEmail | Send

  /** The form's field values and the submit button's label and disabled flag. */
  datatype Form = Form(name: string, email: string, message: string,
                       btnLabel: string, btnDisabled: bool)

  /** The two guards of the handler, in order: an empty field is reported
      before the address is looked at. */
  function Decide(name: string, email: string, message: string): (d: Decision)
    ensures d == MissingFields <==> name == "" || email == "" || message == ""
    ensures d == BadEmail <==>
      name != "" && email != "" && message != "" && !Email.IsEmailShape(email)
    ensures d == Send <==> name != "" && message != "" && Email.IsEmailShape(email)
  {
    Email.ValidIffShape(email);
    if name == "" || email == "" || message == "" then MissingFields
    else if !Email.IsValidEmail(email) then BadEmail
    else Send
  }

  /** The notification shown for a refused submission. */
  function Rejection(d: Decision): (n: Notice)
    requires d != Send
    ensures n.kind == Error
  {
    if d == MissingFields then Notice(FillInText, Error) else Notice(BadEmailText, Error)
  }

  /** The state after the handler's synchronous part. */
  function Begin(f: Form): Form {
    if Decide(f.name, f.email, f.message) == Send
    then f.(btnLabel := SendingLabel, btnDisabled := true)
    else f
  }

  /** The state after the simulated send completes: form reset, button restored. */
  function Complete(f: Form): Form {
    f.(name := "", email := "", message := "", btnLabel := IdleLabel, btnDisabled := false)
  }

  /** The button is disabled exactly while it shows the pending label, and it
      shows one of its two labels. */
  ghost predicate Coherent(f: Form) {
    && (f.btnDisabled <==> f.btnLabel == SendingLabel)
    && (f.btnLabel == SendingLabel || f.btnLabel == IdleLabel)
  }

  // ---------------------------------------------------------------------
  // Properties of the two phases

  /** An empty field is reported whatever the address, and nothing changes. */
  lemma EmptyFieldRejected(f: Form)
    requires f.name == "" || f.email == "" || f.message == ""
    ensures Decide(f.name, f.email, f.message) == MissingFields
    ensures Rejection(MissingFields) == Notice(FillInText, Error)
    ensures Begin(f) == f
  {
  }

  /** With every field filled in, an address the validator refuses is
      reported, and nothing changes. */
  lemma BadEmailRejected(f: Form)
    requires f.name != "" && f.email != "" && f.message != ""
    requires !Email.IsValidEmail(f.email)
    ensures Decide(f.name, f.email, f.message) == BadEmail
    ensures Rejection(BadEmail) == Notice(BadEmailText, Error)
    ensures Begin(f) == f
  {
  }

  /** Valid input enters the pending state with the fields kept; completion
      then leaves an empty, idle form, whatever the form held before. */
  lemma AcceptedThenReset(f: Form)
    requires f.name != "" && f.message != "" && Email.IsValidEmail(f.email)
    ensures Decide(f.name, f.email, f.message) == Send
    ensures Begin(f).btnLabel == SendingLabel && Begin(f).btnDisabled
    ensures Begin(f).name == f.name && Begin(f).email == f.email && Begin(f).message == f.message
    ensures Complete(Begin(f)) == Form("", "", "", IdleLabel, false)
  {
  }

  /** Right after a reset, submitting again is refused as incomplete. */
  lemma ResubmitAfterResetRejected(f: Form)
    ensures var g := Complete(f); Decide(g.name, g.email, g.message) == MissingFields
  {
  }

  /** Both phases keep the button coherent. */
  lemma PhasesKeepCoherent(f: Form)
    ensures Coherent(f) ==> Coherent(Begin(f))
    ensures Coherent(Complete(f))
  {
  }

  // ---------------------------------------------------------------------
  // The form on the page

  class ContactForm {
    var name: string
    var email: string
    var message: string
    var btnLabel: string
    var btnDisabled: bool
    /** Simulated sends scheduled and not yet completed. */
    var pending: nat
    /** Notifications shown so far, oldest first. */
    var notices: seq<Notice>

    function State(): Form
      reads this
    {
      Form(name, email, message, btnLabel, btnDisabled)
    }

    ghost predicate Valid()
      reads this
    {
      Coherent(State()) && (pending == 0 ==> !btnDisabled)
    }

    /** The assumed starting state from the markup: the fields hold what the visitor typed, the button is idle. */
    constructor (name: string, email: string, message: string)
      ensures Valid()
      ensures State() == Form(name, email, message, IdleLabel, false)
      ensures pending == 0 && notices == []
    {
      this.name, this.email, this.message := name, email, message;
      btnLabel, btnDisabled := IdleLabel, false;
      pending, notices := 0, [];
    }

    /** The submit handler: refuse with a notification, or enter the pending
        state and schedule the simulated send. */
    method Submit() returns (d: Decision)
      requires Valid()
      modifies this
      ensures Valid()
      ensures d == Decide(old(name), old(email), old(message))
      ensures State() == Begin(old(State()))
      ensures d == Send ==> pending == old(pending) + 1 && notices == old(notices)
      ensures d != Send ==> pending == old(pending) && notices == old(notices) + [Rejection(d)]
    {
      if name == "" || email == "" || message == "" {
        notices := notices + [Notice(FillInText, Error)];
        d := MissingFields;
        return;
      }
      if !Email.IsValidEmail(email) {
        notices := notices + [Notice(BadEmailText, Error)];
        d := BadEmail;
        return;
      }
      btnLabel := SendingLabel;
      btnDisabled := true;
      pending := pending + 1;
      d := Send;
    }

    /** The simulated send completes: notify, reset the form, restore the button. */
    method OnSendComplete()
      requires Valid() && pending > 0
      modifies this
      ensures Valid()
      ensures State() == Complete(old(State()))
      ensures pending == old(pending) - 1
      ensures notices == old(notices) + [Notice(SentText, Success)]
    {
      notices := notices + [Notice(SentText, Success)];
      name, email, message := "", "", "";
      btnLabel := IdleLabel;
      btnDisabled := false;
      pending := pending - 1;
    }
  }
}
