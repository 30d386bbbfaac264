/** The contact form of the call-to-action section and the serverless
    handler it posts to. The network, the email service and the environment
    are parameters: the form sees only whether the response was OK or the
    request threw, the handler sees the configured recipient and what the
    email service reported. */
module Contact {
  import opened Wrappers
  import opened Strings

  // ------------------------------------------------------------- form

  datatype Status = Idle | Submitting | Success | Failed

  datatype Form = Form(status: Status, name: string, email: string, message: string)

  /** The JSON body the form posts: exactly its three fields. */
  datatype Payload = Payload(name: string, email: string, message: string)

  function InitialForm(): (r: Form)
    ensures r.status == Idle && r.name == "" && r.email == "" && r.message == ""
  {
    Form(Idle, "", "", "")
  }

  datatype FieldName = NameField | EmailField | MessageField

  /** Typing into an input replaces that field alone. */
  function Edit(f: Form, field: FieldName, value: string): (r: Form)
    ensures r.status == f.status
    ensures r.name == (if field == NameField then value else f.name)
    ensures r.email == (if field == EmailField then value else f.email)
    ensures r.message == (if field == MessageField then value else f.message)
  {
    match field
    case NameField => f.(name := value)
    case EmailField => f.(email := value)
    case MessageField => f.(message := value)
  }

  /** `handleSubmit` up to the request: the status becomes `submitting`
      and the body carries the three fields as they are. */
  function Submit(f: Form): (r: (Form, Payload))
    ensures r.0 == f.(status := Submitting)
    ensures r.1.name == f.name && r.1.email == f.email && r.1.message == f.message
  {
    (f.(status := Submitting), Payload(f.name, f.email, f.message))
  }

  /** What the request produced: a response with its `ok` flag, or a
      rejection. */
  datatype FetchOutcome = Responded(ok: bool) | Rejected

  /** The rest of `handleSubmit`: an OK response clears the fields and
      reports success; a non-OK response is thrown and, like a rejection,
      ends in `error` with the fields kept. */
  function Settle(f: Form, outcome: FetchOutcome): (r: Form)
    ensures r.status == Success <==> outcome == Responded(true)
    ensures r.status == Failed <==> outcome != Responded(true)
    ensures r.status == Success ==> r.name == "" && r.email == "" && r.message == ""
    ensures r.status == Failed ==> r.name == f.name && r.email == f.email && r.message == f.message
  {
    if outcome == Responded(true) then Form(Success, "", "", "")
    else f.(status := Failed)
  }

  /** What the section renders. */
  datatype View = View(formShown: bool, buttonDisabled: bool, buttonText: string, errorShown: bool)

  function Render(f: Form): (r: View)
    ensures !r.formShown <==> f.status == Success
    ensures r.buttonDisabled <==> f.status == Submitting
    ensures r.buttonText == (if f.status == Submitting then "SENDING..." else "GET IN TOUCH")
    ensures r.errorShown <==> f.status == Failed
  {
    View(f.status != Success, f.status == Submitting,
         if f.status == Submitting then "SENDING..." else "GET IN TOUCH",
         f.status == Failed)
  }

  /** User events: typing and submitting need the form on screen, and a
      submit needs the button enabled; the request settles only while it is
      in flight. */
  datatype FormEvent = Type(field: FieldName, value: string) | SubmitForm | RequestSettles(outcome: FetchOutcome)

  predicate Enabled(f: Form, e: FormEvent) {
    match e
    case Type(_, _) => Render(f).formShown
    case SubmitForm => Render(f).formShown && !Render(f).buttonDisabled
    case RequestSettles(_) => f.status == Submitting
  }

  /** One user or network event. Success is reached only through an OK
      response; typing never changes the status; a submission is always in
      flight afterwards; and the fields are cleared only on success. */
  function FormStep(f: Form, e: FormEvent): (r: Form)
    ensures r.status == Success && f.status != Success ==> e == RequestSettles(Responded(true))
    ensures e.Type? ==> r.status == f.status
    ensures e.SubmitForm? ==> r.status == Submitting
    ensures r.status != Success && !e.Type? ==> r.name == f.name && r.email == f.email && r.message == f.message
  {
    match e
    case Type(field, value) => Edit(f, field, value)
    case SubmitForm => Submit(f).0
    case RequestSettles(outcome) => Settle(f, outcome)
  }

  /** Success is final: the form is gone, so nothing can change the section
      any more. */
  lemma SuccessIsFinal(f: Form, e: FormEvent)
    requires f.status == Success
    ensures !Enabled(f, e) || FormStep(f, e) == f
  {
  }

  /** A failed submission can be retried with the same fields. */
  lemma RetryAfterFailure(f: Form)
    requires f.status == Failed
    ensures Enabled(f, SubmitForm)
    ensures Submit(f).1 == Submit(f.(status := Idle)).1
  {
  }

  // ----------------------------------------------------------- handler

  /** A body field: missing (`undefined`) or a string. */
  type Field = Option<string>

  /** JavaScript truthiness of a field. */
  predicate Truthy(x: Field) {
    x.Some? && x.value != ""
  }

  datatype Body = Body(name: Field, email: Field, message: Field)

  /** The request: its HTTP method and its parsed body (`None` when there is no
      body at all). */
  datatype Request = Request(verb: string, body: Option<Body>)

  datatype Email = Email(from: string, to: string, subject: string, replyTo: string, html: string)

  /** What the email service did with the email. */
  datatype SendOutcome = Sent | ServiceError | ServiceThrew

  /** A response: its status, the `message` of its JSON body and its
      `Allow` header. A request without a body fails while the fields are
      destructured, outside the `try`, and is reported as `Crash`. */
  datatype Response = Respond(status: int, message: string, allow: seq<string>) | Crash

  const Sender := "Portfolio Contact Form <onboarding@resend.dev>"
  const MissingFields := "Name, email, and message are required."
  const ConfigError := "Server configuration error."
  const SendError := "Error sending email."
  const Unexpected := "An unexpected error occurred."
  const Delivered := "Email sent successfully."

  /** The line break and indentation between the paragraphs of the email. */
  const Break := "\n             "

  /** The pieces of the email's template, in order. */
  const Notice := "<p>You have a new message from your portfolio contact form.</p>"
  const NameLabel := "<p><strong>Name:</strong> "
  const EmailLabel := "<p><strong>Email:</strong> "
  const MessageHeading := "<p><strong>Message:</strong></p>"
  const ParaClose := "</p>"

  /** The template text in front of each field: the notice and the name
      label; the name's closing tag and the email label; the email's
      closing tag, the message heading and the message's opening tag. */
  const NameLead := Notice + Break + NameLabel
  const EmailLead := ParaClose + Break + EmailLabel
  const MessageLead := ParaClose + Break + MessageHeading + Break + "<p>"

  /** The number of characters the template itself contributes. */
  const HtmlOverhead := |NameLead| + |EmailLead| + |MessageLead| + |ParaClose|

  /** The email's HTML: the fields are spliced in unescaped, so its length
      grows by exactly theirs. */
  function Html(name: string, email: string, message: string): (r: string)
    ensures StartsWith(r, Notice)
    ensures |r| == HtmlOverhead + |name| + |email| + |message|
  {
    NameLead + name + EmailLead + email + MessageLead + message + ParaClose
  }

  /** Each field sits in its own place in the template: the name right
      after the name label, then the email after its closing tag and the
      email label, then the message after the heading, closed by the last
      `</p>`. */
  lemma FieldsInPlace(name: string, email: string, message: string)
    ensures var html := Html(name, email, message);
            var e := |NameLead| + |name| + |EmailLead|;
            var m := e + |email| + |MessageLead|;
            && OccursAt(html, NameLead, 0)
            && OccursAt(html, name, |NameLead|)
            && OccursAt(html, EmailLead, |NameLead| + |name|)
            && OccursAt(html, email, e)
            && OccursAt(html, MessageLead, e + |email|)
            && OccursAt(html, message, m)
            && OccursAt(html, ParaClose, m + |message|)
            && m + |message| + |ParaClose| == |html|
  {
    Interleave(NameLead, name, EmailLead, email, MessageLead, message, ParaClose);
  }

  /** Where each part of `a + x + b + y + c + z + d` lies. */
  lemma Interleave(a: string, x: string, b: string, y: string, c: string, z: string, d: string)
    ensures var s := a + x + b + y + c + z + d;
            var i := |a| + |x| + |b|;
            var j := i + |y| + |c|;
            && OccursAt(s, a, 0) && OccursAt(s, x, |a|) && OccursAt(s, b, |a| + |x|)
            && OccursAt(s, y, i) && OccursAt(s, c, i + |y|) && OccursAt(s, z, j)
            && OccursAt(s, d, j + |z|) && j + |z| + |d| == |s|
  {
    var s1 := a + x;
    var s2 := s1 + b;
    var s3 := s2 + y;
    var s4 := s3 + c;
    var s5 := s4 + z;
    AppendedAt(a, x);
    AppendedAt(s1, b);
    AppendedAt(s2, y);
    AppendedAt(s3, c);
    AppendedAt(s4, z);
    AppendedAt(s5, d);
    KeptInFront(s1, b, a, 0);
    KeptInFront(s1, b, x, |a|);
    KeptInFront(s2, y, a, 0);
    KeptInFront(s2, y, x, |a|);
    KeptInFront(s2, y, b, |s1|);
    KeptInFront(s3, c, a, 0);
    KeptInFront(s3, c, x, |a|);
    KeptInFront(s3, c, b, |s1|);
    KeptInFront(s3, c, y, |s2|);
    KeptInFront(s4, z, a, 0);
    KeptInFront(s4, z, x, |a|);
    KeptInFront(s4, z, b, |s1|);
    KeptInFront(s4, z, y, |s2|);
    KeptInFront(s4, z, c, |s3|);
    KeptInFront(s5, d, a, 0);
    KeptInFront(s5, d, x, |a|);
    KeptInFront(s5, d, b, |s1|);
    KeptInFront(s5, d, y, |s2|);
    KeptInFront(s5, d, c, |s3|);
    KeptInFront(s5, d, z, |s4|);
  }

  /** Both halves of `p + q` occur where they were put. */
  lemma AppendedAt(p: string, q: string)
    ensures OccursAt(p + q, p, 0) && OccursAt(p + q, q, |p|)
  {
    assert (p + q)[..|p|] == p;
    assert (p + q)[|p|..|p| + |q|] == q;
  }

  /** Appending text keeps every occurrence in what it is appended to. */
  lemma KeptInFront(p: string, q: string, v: string, i: nat)
    requires OccursAt(p, v, i)
    ensures OccursAt(p + q, v, i)
  {
    assert (p + q)[i..i + |v|] == p[i..i + |v|];
  }

  /** The email that is handed to the service. */
  function Compose(recipient: string, name: string, email: string, message: string): (r: Email)
    ensures r.from == Sender && r.to == recipient && r.replyTo == email
    ensures StartsWith(r.subject, "New message from ") && r.subject[|"New message from "|..] == name
  {
    Email(Sender, recipient, "New message from " + name, email, Html(name, email, message))
  }

  /** The handler. `recipient` is the environment's recipient address and
      `outcome` is what the email service does with the email, if one is
      sent; the second component is that email. */
  function Handle(req: Request, recipient: Option<string>, outcome: SendOutcome): (r: (Response, Option<Email>))
    ensures req.verb != "POST" ==> r == (Respond(405, "Method Not Allowed", ["POST"]), None)
    ensures req.verb == "POST" && req.body.None? ==> r == (Crash, None)
    ensures r.1.Some? <==>
              req.verb == "POST" && req.body.Some?
              && Truthy(req.body.value.name) && Truthy(req.body.value.email) && Truthy(req.body.value.message)
              && Truthy(recipient)
    ensures r.1.Some? ==> r.1.value == Compose(recipient.value, req.body.value.name.value,
                                                req.body.value.email.value, req.body.value.message.value)
    ensures r.0.Respond? && r.0.status == 200 <==> r.1.Some? && outcome == Sent
  {
    if req.verb != "POST" then (Respond(405, "Method Not Allowed", ["POST"]), None)
    else match req.body
      case None => (Crash, None)
      case Some(b) =>
        if !Truthy(b.name) || !Truthy(b.email) || !Truthy(b.message) then (Respond(400, MissingFields, []), None)
        else if !Truthy(recipient) then (Respond(500, ConfigError, []), None)
        else
          var mail := Compose(recipient.value, b.name.value, b.email.value, b.message.value);
          match outcome
          case Sent => (Respond(200, Delivered, []), Some(mail))
          case ServiceError => (Respond(500, SendError, []), Some(mail))
          case ServiceThrew => (Respond(500, Unexpected, []), Some(mail))
  }

  /** The field check comes before the configuration check: a request with
      a missing field gets 400 even when no recipient is configured. */
  lemma MissingFieldBeforeConfig(b: Body, recipient: Option<string>, outcome: SendOutcome)
    requires !Truthy(b.name) || !Truthy(b.email) || !Truthy(b.message)
    ensures Handle(Request("POST", Some(b)), recipient, outcome).0 == Respond(400, MissingFields, [])
  {
  }

  /** Every status the handler answers with, and which message goes with
      it. */
  lemma HandlerStatuses(req: Request, recipient: Option<string>, outcome: SendOutcome)
    ensures var r := Handle(req, recipient, outcome).0;
            r.Crash? || r.status in {200, 400, 405, 500}
    ensures var r := Handle(req, recipient, outcome).0;
            r.Respond? && r.status == 500 ==> r.message in {ConfigError, SendError, Unexpected}
    ensures var r := Handle(req, recipient, outcome).0;
            r.Respond? && r.status == 500 && r.message != ConfigError ==> Handle(req, recipient, outcome).1.Some?
  {
  }

  /** The message reaches the email unchanged, markup included. */
  lemma MessageVerbatimInHtml(name: string, email: string, message: string)
    ensures var html := Html(name, email, message);
            OccursAt(html, message, |html| - |message| - 4)
            && EndsWith(html, message + "</p>")
  {
    var html := Html(name, email, message);
    var k := |html| - |message| - 4;
    assert html == (html[..k] + message) + "</p>";
    assert html[k..k + |message|] == message;
    assert html[|html| - |message + "</p>"|..] == message + "</p>";
  }

  /** The body a form posts, as the handler parses it. */
  function Parse(p: Payload): Body {
    Body(Some(p.name), Some(p.email), Some(p.message))
  }

  /** End to end: a filled-in form, a configured recipient and a delivered
      email end in `success`; an empty field ends in `error` with the text
      kept, whatever is configured. */
  lemma SubmitEndToEnd(f: Form, recipient: Option<string>, outcome: SendOutcome)
    ensures var (submitted, payload) := Submit(f);
            var (resp, _) := Handle(Request("POST", Some(Parse(payload))), recipient, outcome);
            var ok := resp.Respond? && 200 <= resp.status < 300;
            var settled := Settle(submitted, Responded(ok));
            (settled.status == Success <==>
               f.name != "" && f.email != "" && f.message != "" && Truthy(recipient) && outcome == Sent)
            && (f.name == "" || f.email == "" || f.message == "" ==>
                  settled.status == Failed && settled.name == f.name && settled.message == f.message)
  {
  }
}
