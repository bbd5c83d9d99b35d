/** Validation of the contact form: trim the three fields, then check them in
    a fixed order where the first failing check decides the outcome. */
module Validation {
  import opened Results
  import opened Text
  import opened Email

  /** The raw values of the name, e-mail and message inputs. */
  datatype Submission = Submission(name: string, email: string, message: string)

  /** The trimmed values of a submission that passed every check. */
  datatype Contact = Contact(name: string, email: string, message: string)

  /** The three ways validation can fail, in the order they are checked. */
  datatype FormError = MissingName | InvalidEmail | MissingMessage

  /** The text shown for each failure. */
  function ErrorText(e: FormError): string
  {
    match e
    case MissingName => "Please enter your name."
    case InvalidEmail => "Please enter a valid email address."
    case MissingMessage => "Please enter your message."
  }

  /** What a contact accepted by the form looks like: trimmed fields, a
      non-empty name and message, and an address passing the e-mail rule. */
  predicate IsContact(c: Contact)
  {
    && c.name != [] && NoEdgeWhiteSpace(c.name)
    && IsValidEmail(c.email)
    && c.message != [] && NoEdgeWhiteSpace(c.message)
  }

  /** The e-mail check of the submit handler passes: the address is non-empty
      and matches the pattern. The first conjunct mirrors the handler's
      separate emptiness test; the pattern already implies it. */
  predicate EmailAccepted(email: string)
  {
    email != [] && IsValidEmail(email)
  }

  /** The submit handler's validation of the trimmed field values. */
  function Validate(f: Submission): (r: Result<Contact, FormError>)
    ensures r.Ok? ==> IsContact(r.value)
    ensures r.Ok? ==> r.value == Contact(Trim(f.name), Trim(f.email), Trim(f.message))
  {
    var name, email, message := Trim(f.name), Trim(f.email), Trim(f.message);
    if name == [] then Err(MissingName)
    else if !EmailAccepted(email) then Err(InvalidEmail)
    else if message == [] then Err(MissingMessage)
    else Ok(Contact(name, email, message))
  }

  /** An empty trimmed name is reported, whatever the other fields hold. */
  lemma NameCheckedFirst(f: Submission)
    requires Trim(f.name) == []
    ensures Validate(f) == Err(MissingName)
  {
  }

  /** The e-mail error is reported exactly when the name is present and the
      trimmed address fails the pattern. */
  lemma EmailCheckedSecond(f: Submission)
    ensures Validate(f) == Err(InvalidEmail)
        <==> Trim(f.name) != [] && !MatchesPattern(Trim(f.email))
  {
    ValidEmailIffPattern(Trim(f.email));
  }

  /** The message error is reported exactly when both earlier checks pass and
      the trimmed message is empty. */
  lemma MessageCheckedLast(f: Submission)
    ensures Validate(f) == Err(MissingMessage)
        <==> Trim(f.name) != [] && MatchesPattern(Trim(f.email)) && Trim(f.message) == []
  {
    ValidEmailIffPattern(Trim(f.email));
  }

  /** A submission is accepted exactly when all three checks pass; the only
      demand on the message is that something is left after trimming. */
  lemma AcceptedIffAllChecksPass(f: Submission)
    ensures Validate(f).Ok?
        <==> Trim(f.name) != [] && MatchesPattern(Trim(f.email)) && Trim(f.message) != []
  {
    ValidEmailIffPattern(Trim(f.email));
  }

  /** Validation accepts every well-formed contact as it stands: a contact is a
      fixed point of trim-then-validate. */
  lemma ContactIsAccepted(c: Contact)
    requires IsContact(c)
    ensures Validate(Submission(c.name, c.email, c.message)) == Ok(c)
  {
    var f := Submission(c.name, c.email, c.message);
    TrimKeepsTrimmed(c.name);
    assert NoEdgeWhiteSpace(c.email);
    TrimKeepsTrimmed(c.email);
    TrimKeepsTrimmed(c.message);
    assert EmailAccepted(Trim(f.email));
  }

  /** White space typed around any of the three fields never changes the
      outcome of validation. */
  lemma PaddingIsIgnored(f: Submission, nameBefore: string, nameAfter: string,
                         emailBefore: string, emailAfter: string,
                         messageBefore: string, messageAfter: string)
    requires AllWhiteSpace(nameBefore) && AllWhiteSpace(nameAfter)
    requires AllWhiteSpace(emailBefore) && AllWhiteSpace(emailAfter)
    requires AllWhiteSpace(messageBefore) && AllWhiteSpace(messageAfter)
    ensures Validate(Submission(nameBefore + f.name + nameAfter,
                                emailBefore + f.email + emailAfter,
                                messageBefore + f.message + messageAfter)) == Validate(f)
  {
    TrimIgnoresPadding(nameBefore, f.name, nameAfter);
    TrimIgnoresPadding(emailBefore, f.email, emailAfter);
    TrimIgnoresPadding(messageBefore, f.message, messageAfter);
  }
}
