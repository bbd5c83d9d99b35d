/** The contact form's submit handler: validate, then either show the error or
    hand a `mailto:` link to the browser and show the success message. */
module SubmitHandler {
  import opened Results
  import opened Text
  import opened Validation
  import opened PercentEncoding
  import opened Mailto
  import opened FormMessage

  const SuccessText: string := "Opening your email client... You can send the message from there."

  /** What one submission does: the URL the browser is sent to, if any, and
      the page afterwards. */
  datatype Effect = Effect(navigation: Option<string>, page: Page)

  /** The submit handler. Default submission is always prevented; the form is
      on the page, since the handler is attached to it. */
  function HandleSubmit(f: Submission, p: Page): (e: Effect)
    requires ContactForm in p
    ensures e.navigation.Some? <==> Validate(f).Ok?
    ensures ContactForm in e.page
  {
    match Validate(f)
    case Err(err) =>
      ShowKeepsForm(p, ErrorText(err), Error);
      Effect(None, ShowFormMessage(p, ErrorText(err), Error))
    case Ok(c) =>
      ShowKeepsForm(p, SuccessText, Success);
      Effect(Some(BuildMailto(c)), ShowFormMessage(p, SuccessText, Success))
  }

  /** A rejected submission navigates nowhere and leaves the one message box
      holding the error of the first failed check. */
  lemma RejectedShowsError(f: Submission, p: Page)
    requires ContactForm in p && MessageCount(p) <= 1
    requires Validate(f).Err?
    ensures HandleSubmit(f, p).navigation == None
    ensures var q := HandleSubmit(f, p).page;
            && MessageCount(q) == 1
            && FirstMessage(q) < |q| && q[FirstMessage(q)] == MessageBox(ErrorText(Validate(f).error), Error)
  {
    var err := Validate(f).error;
    assert HandleSubmit(f, p).page == ShowFormMessage(p, ErrorText(err), Error);
    ShowLeavesOneMessage(p, ErrorText(err), Error);
  }

  /** An accepted submission navigates to the link built from the trimmed
      fields, `mailto:connfedd@outlook.com?subject=<enc>&body=<enc>`. */
  lemma AcceptedNavigates(f: Submission, p: Page)
    requires ContactForm in p
    requires Validate(f).Ok?
    ensures var name, email, message := Trim(f.name), Trim(f.email), Trim(f.message);
            HandleSubmit(f, p).navigation
            == Some(Scheme + Recipient + "?subject="
                    + EncodeComponent("Portfolio Contact from " + name)
                    + "&body="
                    + EncodeComponent("Name: " + name + "\nEmail: " + email + "\n\nMessage:\n" + message))
  {
    var c := Validate(f).value;
  }

  /** An accepted submission leaves one message box, holding the success
      text, on a page that had at most one. */
  lemma AcceptedShowsSuccess(f: Submission, p: Page)
    requires ContactForm in p && MessageCount(p) <= 1
    requires Validate(f).Ok?
    ensures var q := HandleSubmit(f, p).page;
            && MessageCount(q) == 1
            && FirstMessage(q) < |q| && q[FirstMessage(q)] == MessageBox(SuccessText, Success)
  {
    assert HandleSubmit(f, p).page == ShowFormMessage(p, SuccessText, Success);
    ShowLeavesOneMessage(p, SuccessText, Success);
  }

  /** The mail client receives, for an accepted submission, the fixed
      recipient, and a subject and body that decode to the trimmed field
      values. */
  lemma AcceptedCarriesTrimmedFields(f: Submission, p: Page)
    requires ContactForm in p
    requires Validate(f).Ok?
    ensures var m := ParseMailto(HandleSubmit(f, p).navigation.value);
            && m.Some? && m.value.to == Recipient && |m.value.hfields| == 2
            && FieldText(m.value, "subject") == Some("Portfolio Contact from " + Trim(f.name))
            && FieldText(m.value, "body")
               == Some("Name: " + Trim(f.name) + "\nEmail: " + Trim(f.email)
                       + "\n\nMessage:\n" + Trim(f.message))
  {
    MailtoRoundTrip(Validate(f).value);
  }

  /** White space typed around the fields changes neither the link nor the
      message shown. */
  lemma SubmitIgnoresPadding(f: Submission, p: Page, nameBefore: string, nameAfter: string,
                             emailBefore: string, emailAfter: string,
                             messageBefore: string, messageAfter: string)
    requires ContactForm in p
    requires AllWhiteSpace(nameBefore) && AllWhiteSpace(nameAfter)
    requires AllWhiteSpace(emailBefore) && AllWhiteSpace(emailAfter)
    requires AllWhiteSpace(messageBefore) && AllWhiteSpace(messageAfter)
    ensures HandleSubmit(Submission(nameBefore + f.name + nameAfter,
                                    emailBefore + f.email + emailAfter,
                                    messageBefore + f.message + messageAfter), p)
         == HandleSubmit(f, p)
  {
    PaddingIsIgnored(f, nameBefore, nameAfter, emailBefore, emailAfter, messageBefore, messageAfter);
  }
}
