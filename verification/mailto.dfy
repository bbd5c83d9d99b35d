/** The `mailto:` link the contact form hands to the browser, and a parser for
    the `hfields` form of section 2 of RFC 6068 that reads it back:
    `mailto:` to `?` hfield *( `&` hfield ), with hfield = hfname `=` hfvalue. */
module Mailto {
  import opened Results
  import opened Seqs
  import opened PercentEncoding
  import opened Validation

  const Scheme: string := "mailto:"

  /** The fixed destination address of every message. */
  const Recipient: string := "connfedd@outlook.com"

  /** The subject line, before encoding. */
  function Subject(name: string): string
  {
    "Portfolio Contact from " + name
  }

  /** The message body, before encoding: the name, the address, a blank line
      and the message. */
  function Body(c: Contact): string
  {
    "Name: " + c.name + "\nEmail: " + c.email + "\n\nMessage:\n" + c.message
  }

  /** The link built for a validated contact:
      `mailto:connfedd@outlook.com?subject=<subject>&body=<body>`, both texts
      passed through `encodeURIComponent`. */
  function BuildMailto(c: Contact): (uri: string)
  {
    Scheme + Recipient + "?subject=" + EncodeComponent(Subject(c.name))
      + "&body=" + EncodeComponent(Body(c))
  }

  /** A header field as written in the URI: `name=value`. */
  function HFieldText(name: string, value: string): string
  {
    name + "=" + value
  }

  /** One `name=value` header field, value still percent-encoded. */
  datatype HField = HField(name: string, value: string)

  datatype MailtoUri = MailtoUri(to: string, hfields: seq<HField>)

  /** Splits a header field at its first `=`; a field without one is malformed. */
  function ParseHField(f: string): Option<HField>
  {
    var i := IndexOf(f, '=');
    if i == |f| then None else Some(HField(f[..i], f[i + 1..]))
  }

  function ParseHFields(parts: seq<string>): (r: Option<seq<HField>>)
    ensures r.Some? ==> |r.value| == |parts|
  {
    if |parts| == 0 then Some([])
    else
      var h, hs := ParseHField(parts[0]), ParseHFields(parts[1..]);
      if h.Some? && hs.Some? then Some([h.value] + hs.value) else None
  }

  /** Reads a `mailto:` URI: the recipient up to the first `?`, then the
      `&`-separated header fields. */
  function ParseMailto(u: string): Option<MailtoUri>
  {
    if |u| < |Scheme| || u[..|Scheme|] != Scheme then None
    else
      var rest := u[|Scheme|..];
      var q := IndexOf(rest, '?');
      if q == |rest| then Some(MailtoUri(rest, []))
      else match ParseHFields(Split(rest[q + 1..], '&'))
        case None => None
        case Some(fields) => Some(MailtoUri(rest[..q], fields))
  }

  /** Encoded text holds no `&`, so it never splits a query. */
  lemma NoSeparatorsInEncoded(t: string)
    requires OnlyUriSafe(t)
    ensures '&' !in t && '=' !in t && '?' !in t && '#' !in t && ' ' !in t
  {
  }

  lemma ParseNamedField(name: string, value: string)
    requires '=' !in name
    ensures ParseHField(HFieldText(name, value)) == Some(HField(name, value))
  {
    IndexOfAfterPrefix(name, '=', value);
    var f := name + "=" + value;
    assert f[..|name|] == name;
    assert f[|name| + 1..] == value;
  }

  /** The link is the address, `?` and a query of two header fields. */
  lemma BuildMailtoQuery(c: Contact)
    ensures BuildMailto(c)
         == Scheme + Recipient + "?"
            + (HFieldText("subject", EncodeComponent(Subject(c.name)))
               + "&" + HFieldText("body", EncodeComponent(Body(c))))
  {
    assert "?subject=" == "?" + "subject" + "=";
    assert "&body=" == "&" + "body" + "=";
    RegroupQuery(Scheme + Recipient, "subject", EncodeComponent(Subject(c.name)), "body", EncodeComponent(Body(c)));
  }

  lemma RegroupQuery(x: string, n: string, a: string, m: string, b: string)
    ensures x + ("?" + n + "=") + a + ("&" + m + "=") + b
         == x + "?" + ((n + "=" + a) + "&" + (m + "=" + b))
  {
  }

  /** A link with a recipient free of `?` parses into that recipient and the
      fields of its query. */
  lemma ParseWithQuery(to: string, query: string)
    requires '?' !in to
    ensures ParseMailto(Scheme + to + "?" + query)
         == match ParseHFields(Split(query, '&'))
            case None => None
            case Some(fields) => Some(MailtoUri(to, fields))
  {
    var u := Scheme + to + "?" + query;
    assert u[..|Scheme|] == Scheme;
    var rest := u[|Scheme|..];
    assert rest == to + "?" + query;
    IndexOfAfterPrefix(to, '?', query);
    assert rest[..|to|] == to;
    assert rest[|to| + 1..] == query;
  }

  /** Parsing a list of fields that all parse is parsing each of them. */
  lemma ParseFieldsCons(f: string, rest: seq<string>)
    requires ParseHField(f).Some? && ParseHFields(rest).Some?
    ensures ParseHFields([f] + rest) == Some([ParseHField(f).value] + ParseHFields(rest).value)
  {
    var parts := [f] + rest;
    assert parts[0] == f;
    assert parts[1..] == rest;
  }

  lemma ParseFieldPair(f: string, g: string)
    requires ParseHField(f).Some? && ParseHField(g).Some?
    ensures ParseHFields([f, g]) == Some([ParseHField(f).value, ParseHField(g).value])
  {
    var hf, hg := ParseHField(f).value, ParseHField(g).value;
    assert ParseHFields([]) == Some([]);
    ParseFieldsCons(g, []);
    assert [g] + [] == [g];
    assert [hg] + [] == [hg];
    assert ParseHFields([g]) == Some([hg]);
    ParseFieldsCons(f, [g]);
    assert [f] + [g] == [f, g];
    assert [hf] + [hg] == [hf, hg];
  }

  /** A query of a `subject` and a `body` field whose values hold no `&`
      reads back as exactly those two fields. */
  lemma ParseTwoFields(a: string, b: string)
    requires '&' !in a && '&' !in b
    ensures ParseHFields(Split(HFieldText("subject", a) + "&" + HFieldText("body", b), '&'))
         == Some([HField("subject", a), HField("body", b)])
  {
    var first, second := HFieldText("subject", a), HFieldText("body", b);
    assert '&' !in first;
    assert '&' !in second;
    SplitPair(first, '&', second);
    ParseNamedField("subject", a);
    ParseNamedField("body", b);
    ParseFieldPair(first, second);
  }

  /** The link for a contact parses into the fixed recipient and exactly two
      header fields, `subject` then `body`, holding the encoded texts. */
  lemma BuildMailtoParses(c: Contact)
    ensures ParseMailto(BuildMailto(c))
         == Some(MailtoUri(Recipient, [HField("subject", EncodeComponent(Subject(c.name))),
                                       HField("body", EncodeComponent(Body(c)))]))
  {
    var a, b := EncodeComponent(Subject(c.name)), EncodeComponent(Body(c));
    NoSeparatorsInEncoded(a);
    NoSeparatorsInEncoded(b);
    var query := HFieldText("subject", a) + "&" + HFieldText("body", b);
    BuildMailtoQuery(c);
    assert '?' !in Recipient;
    ParseWithQuery(Recipient, query);
    ParseTwoFields(a, b);
  }

  /** The value of the named header field, percent-decoded. */
  function FieldText(m: MailtoUri, name: string): Option<string>
  {
    var i := FieldIndex(m.hfields, name);
    if i == |m.hfields| then None else DecodeComponent(m.hfields[i].value)
  }

  /** Position of the first field called `name`. */
  function FieldIndex(hs: seq<HField>, name: string): (i: nat)
    ensures i <= |hs|
    ensures i < |hs| ==> hs[i].name == name
    ensures forall k :: 0 <= k < i ==> hs[k].name != name
  {
    if |hs| == 0 then 0
    else if hs[0].name == name then 0
    else 1 + FieldIndex(hs[1..], name)
  }

  /** Whoever opens the link reads back exactly the subject and body the form
      composed from the trimmed values, addressed to the fixed recipient. */
  lemma MailtoRoundTrip(c: Contact)
    ensures ParseMailto(BuildMailto(c)).Some?
    ensures ParseMailto(BuildMailto(c)).value.to == Recipient
    ensures |ParseMailto(BuildMailto(c)).value.hfields| == 2
    ensures FieldText(ParseMailto(BuildMailto(c)).value, "subject") == Some(Subject(c.name))
    ensures FieldText(ParseMailto(BuildMailto(c)).value, "body") == Some(Body(c))
  {
    BuildMailtoParses(c);
    DecodeEncodeComponent(Subject(c.name));
    DecodeEncodeComponent(Body(c));
    var m := ParseMailto(BuildMailto(c)).value;
    assert m.hfields[0].name == "subject";
    assert m.hfields[1].name == "body";
    assert "subject" != "body";
  }
}
