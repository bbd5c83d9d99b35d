# Portfolio page script: a Dafny model

This project models the decision and string logic of the script behind a
one-page portfolio site (`script.js`):

- the contact form's submit handler, which trims the name, e-mail and message
  fields and checks them in a fixed order, first failure wins;
- the `mailto:` link it builds on success, with subject and body passed
  through `encodeURIComponent`;
- `showFormMessage`, the single message box above the form, and the delayed
  removal of that box after a successful submission;
- the navigation rules: which link clicks are taken over for smooth
  scrolling, the mobile menu's open/closed state, and the navigation bar's
  look as a function of the scroll offset;
- the IntersectionObserver callback that animates each observed element once.

Modules, in dependency order:

| module | file | contents |
|---|---|---|
| `Results` | results.dfy | `Option` and `Result` |
| `Seqs` | seqs.dfy | `IndexOf`, `Count`, `Split` and sequence facts |
| `Text` | text.dfy | the ECMAScript white-space set and `String.prototype.trim` |
| `Email` | email.dfy | the e-mail regular expression and the explicit rule it amounts to |
| `Validation` | validation.dfy | the three field checks |
| `Utf8` | utf8.dfy | UTF-8 encoding of code points (RFC 3629) and its decoder |
| `PercentEncoding` | percent.dfy | `encodeURIComponent` (section 2.1 of RFC 3986 percent-encoding) and a decoder |
| `Mailto` | mailto.dfy | the link, and a reader for the `hfields` form of section 2 of RFC 6068 |
| `FormMessage` | form_message.dfy | the message slot next to the form |
| `SubmitHandler` | submit_handler.dfy | the submit handler as a whole |
| `Navigation` | navigation.dfy | link clicks, the menu toggle and the navbar threshold |
| `Reveal` | reveal.dfy | the scroll-triggered animation state of each element |

Browser effects are modelled as values. The page around the form is a
sequence of nodes. Navigation to the link is an `Option<string>` output.
Scrolling an element into view is the selector it would scroll to. The
observer's entries are inputs.

## Model

| member | source | states |
|---|---|---|
| Text.Trim | script.js:99-101 | the trimmed value has no white space at either end and is no longer than the input |
| Text.TrimOfPadded | script.js:99-101 | a value without edge white space, surrounded by any white space, trims to exactly that value |
| Text.TrimSplits | script.js:99-101 | every string is its trimmed value with white space before and after it |
| Text.TrimIgnoresPadding | script.js:99-101 | adding white space around a field never changes its trimmed value |
| Text.TrimKeepsTrimmed | script.js:99-101 | a value without edge white space is left unchanged by trim |
| Text.TrimIdempotent | script.js:99-101 | trimming twice gives the same as trimming once |
| Text.LeadingSpaceUnique | script.js:99-101 | the leading white-space count is the unique position with only white space before it and a non-space (or the end) at it |
| Text.TrailingSpaceUnique | script.js:99-101 | the same uniqueness for the trailing white-space count |
| Email.PatternIsValid | script.js:109 | every string the regular expression `^[^\s@]+@[^\s@]+\.[^\s@]+$` matches has no white space, exactly one `@`, a non-empty local part and a domain with a dot that is neither its first nor its last character |
| Email.ValidIsPattern | script.js:109 | conversely, every string with those properties is matched by the regular expression |
| Email.ValidEmailIffPattern | script.js:109 | the explicit rule and the regular expression accept exactly the same strings |
| Validation.Validate | script.js:99-117 | an accepted submission yields the three trimmed values, with a non-empty name and message and an address passing the e-mail rule |
| Validation.NameCheckedFirst | script.js:104-107 | an empty trimmed name gives the name error whatever the e-mail and message hold |
| Validation.EmailCheckedSecond | script.js:109-112 | the e-mail error is reported if and only if the trimmed name is non-empty and the trimmed address does not match the pattern |
| Validation.MessageCheckedLast | script.js:114-117 | the message error is reported if and only if both earlier checks pass and the trimmed message is empty |
| Validation.AcceptedIffAllChecksPass | script.js:104-117 | a submission is accepted if and only if all three checks pass; any non-empty trimmed message is enough |
| Validation.ContactIsAccepted | script.js:99-117 | a contact that is already well formed is accepted unchanged |
| Validation.PaddingIsIgnored | script.js:99-117 | white space around any of the three fields never changes the validation outcome |
| Utf8.EncodeChar | script.js:120-121 | a code point takes one to four bytes, one exactly when it is ASCII, where that byte is the code point itself; otherwise the first byte is a lead byte (at least 0xC0) and every byte after it is a continuation byte |
| Utf8.DecodeEncodedChar | script.js:120-121 | the bytes of one character decode back to that character, whatever follows them |
| Utf8.DecodeEncode | script.js:120-121 | UTF-8 decoding inverts UTF-8 encoding on every string |
| PercentEncoding.EncodeBytesUriSafe | script.js:120-121 | percent-encoded bytes contain only unescaped characters and `%` |
| PercentEncoding.EncodeComponent | script.js:120-121 | `encodeURIComponent` output is made of unescaped characters and `%XX` triplets only |
| PercentEncoding.EncodeComponentConcat | script.js:120-121 | `encodeURIComponent` of a concatenation is the concatenation of the two encodings |
| PercentEncoding.EncodeOneChar | script.js:120-121 | a character of the unescaped set (ASCII letters, digits and `- _ . ! ~ * ' ( )`) is kept as it is; any other character becomes one `%XX` triplet, upper-case hex, per byte of its UTF-8 encoding |
| PercentEncoding.DecodeEncodeBytes | script.js:120-121 | percent-decoding inverts percent-encoding on every byte sequence |
| PercentEncoding.DecodeEncodeComponent | script.js:120-121 | `decodeURIComponent(encodeURIComponent(s))` gives back `s` for every string |
| Mailto.NoSeparatorsInEncoded | script.js:120-122 | encoded text contains none of `&`, `=`, `?`, `#` or a space |
| Mailto.ParseTwoFields | script.js:122 | a query of a `subject` and a `body` field with `&`-free values reads back as exactly those two fields |
| Mailto.BuildMailtoParses | script.js:120-122 | the link parses into the fixed recipient and exactly two header fields, `subject` then `body`, holding the encoded texts |
| Mailto.MailtoRoundTrip | script.js:120-122 | reading the link back gives the recipient `connfedd@outlook.com`, two fields, and a subject and body that decode to `Portfolio Contact from <name>` and the composed body |
| FormMessage.ShowKeepsForm | script.js:141-146 | showing a message never removes the contact form |
| FormMessage.ShownIsFirst | script.js:141-150 | the box just written is the one `querySelector('.form-message')` finds next |
| FormMessage.ShowLeavesOneMessage | script.js:141-150 | on a page with at most one message box, showing a message leaves exactly one, holding the new text and type, and every other node is unchanged |
| FormMessage.ShowTwice | script.js:141-150 | showing two messages in a row leaves the page as if only the second had been shown |
| FormMessage.RemoveEmptiesSlot | script.js:133-136 | the delayed removal leaves no message box on a page that had at most one, and changes no other node |
| SubmitHandler.HandleSubmit | script.js:95-128 | a link is produced if and only if validation succeeds, and the form stays on the page |
| SubmitHandler.RejectedShowsError | script.js:104-117 | a rejected submission navigates nowhere and leaves one message box holding the error text of the first failed check, with the error type |
| SubmitHandler.AcceptedNavigates | script.js:119-125 | an accepted submission navigates to `mailto:connfedd@outlook.com?subject=<encoded subject>&body=<encoded body>` built from the trimmed values, whatever the page holds |
| SubmitHandler.AcceptedShowsSuccess | script.js:127-128 | an accepted submission on a page with at most one message box leaves exactly one, holding the success text with the success type |
| SubmitHandler.AcceptedCarriesTrimmedFields | script.js:99-122 | the link of an accepted submission reads back as the fixed recipient with exactly two fields, whose decoded values are the subject and body composed from the trimmed fields |
| SubmitHandler.SubmitIgnoresPadding | script.js:99-128 | white space around the fields changes neither the link nor the page afterwards |
| Navigation.ClickRule | script.js:7-18 | a click is taken over if and only if the href starts with `#`; it scrolls, to that selector, if and only if it is taken over and the target is found; the menu ends up open if and only if it was open and the click was not a fragment link with a found target at a width of at most 768; other clicks change nothing |
| Navigation.ToggleMenu | script.js:22-26 | a toggle click always flips the menu state |
| Navigation.MenuParity | script.js:7-26 | without a closing link click, the menu ends in the opposite of its starting state exactly when it was toggled an odd number of times |
| Navigation.CloseResets | script.js:9-17 | after a closing link click (a fragment link whose target is found, at a width of at most 768) the menu behaves as if it had started closed |
| Navigation.NavbarThreshold | script.js:82-90 | the bar has the scrolled look if and only if the offset is strictly above 50, so it never turns back as the offset grows |
| Navigation.NavbarNoHistory | script.js:82-90 | after any series of scroll events the look depends on the last offset only |
| Reveal.Register | script.js:44-78 | every registered element starts observed and not animated |
| Reveal.CallbackKeys | script.js:34-41 | the callback never adds or removes registered elements |
| Reveal.CallbackEffect | script.js:34-41 | after a batch an element is animated if and only if it was before or an entry reported it intersecting, and it is still observed if and only if it was and no such entry came |
| Reveal.Deliverable | script.js:34-41 | the callback receives exactly the entries of elements still observed |
| Reveal.NotifyKeepsCoherent | script.js:34-41 | every element is either waiting (observed, not animated) or done (animated, unobserved), before and after each batch |
| Reveal.NotifyKeepsAnimated | script.js:36-39 | once animated, an element stays animated |
| Reveal.NotifyAnimatesOnIntersection | script.js:36-39 | a waiting element becomes animated in a batch if and only if the batch reports it intersecting |
| Reveal.StaysAnimated | script.js:36-39 | an element that is already animated never goes through another transition to animated |
| Reveal.AnimatedAtMostOnce | script.js:36-39 | however many batches arrive, each element goes from not animated to animated at most once |

## Left out

- DOM access, event-listener registration and the `DOMContentLoaded` wiring are not modelled. The page is a sequence of nodes, and the effects are returned as values.
- `scrollIntoView` is not modelled. The click outcome only names the selector that would be scrolled to.
- Navigation links are assumed to carry an `href`. For a link without one, `getAttribute('href')` returns null and `targetId.startsWith('#')` (script.js:8-9) throws a TypeError. That path is not modelled; apart from the uncaught error, it behaves like the non-fragment branch.
- Navigation.ClickNavLink: whether `document.querySelector(targetId)` (script.js:11) finds an element is an input, `found`. The model does not tell a throwing selector (a bare `#`, `#1top`) from a missing element, where `scrollIntoView` throws on null: in both cases the click is intercepted, nothing scrolls and the menu is left as it was. The exception itself is not modelled.
- The message box's `className` string (script.js:149) is represented by its `MessageType`. Both class names keep `form-message` first, which is all the later lookups rely on.
- `window.location.href` navigation and `contactForm.reset()` are not modelled. Navigation is the handler's `Option<string>` output, and resetting the inputs has no modelled state.
- The `setTimeout` delay (script.js:131-137) is not modelled. Only the removal step it schedules is modelled, as `FormMessage.RemoveFormMessage`, which works on whatever page exists when it runs.
- The IntersectionObserver `threshold` and `rootMargin` (script.js:29-32) are not modelled, because the browser computes the geometry. Entries are inputs.
- Inline styles are not modelled: transforms, transition delays (`index * 0.2s`), colours and shadows. They are presentation and fractional numbers. The navbar's two looks are the datatype `NavbarLook`.
- `encodeURIComponent`'s `URIError` on lone surrogates is not modelled. A Dafny `char` is a Unicode scalar value, so a lone surrogate cannot be written, and the encoder is total.
- PercentEncoding.DecodeComponent: rejects raw non-ASCII characters, which `decodeURIComponent` would pass through unchanged. The encoder never produces such characters, so the round trip is unaffected.
- Mailto.ParseMailto: reads only the parts of RFC 6068 that the built link uses, namely the address before `?` and `&`-separated `name=value` fields. It does not percent-decode the address or check the addressee syntax.
- `script.js` has no minimum message length, no overlay and no disabling of the submit button. The message only has to be non-empty after trimming, and its error text is "Please enter your message."
- `script.js` declares `const contactForm` twice, once inside the `DOMContentLoaded` handler (line 65) and once at top level (line 93). The model uses the top-level form that the submit handler belongs to.
