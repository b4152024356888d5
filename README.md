# MineAnvil site script, modelled in Dafny

The MineAnvil marketing site has one script, `site/script.js`. Three parts
of it have behaviour that can be stated precisely, and this project models
and proves them:

- **Contact form** (`ContactForm`, `Email`, `UriEncoding`, `Mailto`). The
  submit handler trims the name, email and message fields and checks each
  one on its own. It writes every field's `aria-invalid` mark. If any check
  fails it shows the fixed error message. Otherwise it sets the window
  location to a `mailto:` URI with the form of section 2 of RFC 6068:
  `?subject=…&body=…`. `isValidEmail` is the regular language
  `^[^\s@]+@[^\s@]+\.[^\s@]+$`, written as a predicate. `encodeLine` is
  `encodeURIComponent(trim(s))`. It is modelled after section 19.2.6 of
  ECMA-262: unreserved characters are kept and every other character
  becomes the `%XX` triplets of its UTF-8 bytes (section 2.1 of RFC 3986).
  It is proved against `decodeURIComponent`, and the built URI is proved
  against a reader for RFC 6068 URIs.
- **Navigation toggle** (`Navigation`). A `Nav` object holds the "is-open"
  class and the toggle's `aria-expanded` attribute. It has one method per
  event: toggle click, document click, key press. Every method keeps the
  class and the attribute in agreement. The constructor starts that
  agreement, so it holds after any sequence of events.
- **Hash to id** (`Scroll`). This is the first step of `scrollToHash`.

`Text` holds the string primitives the script uses: the white-space class
shared by `trim` and `\s`, `trim`, `Array.prototype.join`, and a
first-occurrence search that the mailto reader uses.

The body of the mail is encoded **once**, as the whole joined string
(`site/script.js:162-173`), so its line feeds go out as `%0A`.

## Model

| member | source | states |
|---|---|---|
| `Text.Join` | site/script.js:172 | `Array.prototype.join`. It has no contract. `Mailto.BodyText` spells out its result for the body's eight lines. |
| `Text.Trim` | site/script.js:126-128 | `trim` returns a string with no white space at either end, never longer than its input. |
| `Text.TrimStartSplit` | site/script.js:126-128 | What the leading strip removes is a run of white space at the front, and what it keeps is the rest of the string. |
| `Text.TrimEndSplit` | site/script.js:126-128 | What the trailing strip removes is a run of white space at the back, and what it keeps is the rest of the string. |
| `Text.TrimIsInfix` | site/script.js:126-128 | `trim(s)` is a slice `s[i..j]` with only white space before `i` and after `j`. |
| `Text.TrimUnique` | site/script.js:126-128 | Any split of `s` into white space, a middle without white space at its ends, and white space has `trim(s)` as that middle. Together with `TrimIsInfix` this characterises `trim` fully. |
| `Text.TrimIdempotent` | site/script.js:110 | Trimming twice gives the same result as trimming once. |
| `Email.IsValidEmail` | site/script.js:104-107 | The language of `^[^\s@]+@[^\s@]+\.[^\s@]+$`, written as a predicate. It has no contract of its own. See `Email.ValidEmailIff` and `Email.ValidEmailShape`. |
| `Email.ValidEmailIff` | site/script.js:104-107 | The pattern accepts `v` exactly when `v = L + "@" + D`, where L is non-empty with no white space and no `@`, and D has no white space, no `@`, and a `.` that is neither its first nor its last character. |
| `Email.ValidEmailShape` | site/script.js:104-107 | An accepted address has no white space and exactly one `@`, so `trim` leaves it unchanged. |
| `Email.AcceptsExample` | site/script.js:104-107 | `ada@example.com` is accepted. |
| `Email.RejectsWithoutAt` | site/script.js:104-107 | A string with no `@` is rejected. |
| `UriEncoding.EncodeURIComponent` | site/script.js:110 | `encodeURIComponent`, character by character. It has no contract of its own. See `UriEncoding.DecodeEncode`, `UriEncoding.EncodeInjective`, `UriEncoding.EncodeAppend`, `UriEncoding.EncodeUnreserved` and `UriEncoding.EncodeIsPercentEncoded`. |
| `UriEncoding.EncodeLine` | site/script.js:109-111 | `encodeLine`: encode the trimmed string. It has no contract of its own. See `UriEncoding.DecodeEncodeLine`, `UriEncoding.EncodeLineOfTrimmed` and `UriEncoding.EncodeLineHasNoDelimiters`. |
| `UriEncoding.HexDigit` | site/script.js:110 | The digits of an escape are upper-case hexadecimal digits, and they are unreserved characters. |
| `UriEncoding.Utf8RoundTrip` | site/script.js:110 | The UTF-8 bytes written for a character decode back to that character, and the first byte gives the length of the sequence. |
| `UriEncoding.DecodeEncode` | site/script.js:175 | `decodeURIComponent(encodeURIComponent(s)) == s` for every string. |
| `UriEncoding.DecodeEncodeLine` | site/script.js:109-111 | Percent-decoding `encodeLine(s)` gives `trim(s)`. |
| `UriEncoding.EncodeLineOfTrimmed` | site/script.js:109-111 | `encodeLine(trim(s)) == encodeLine(s)`. |
| `UriEncoding.EncodeInjective` | site/script.js:175 | Different strings are encoded differently. |
| `UriEncoding.EncodeAppend` | site/script.js:110 | Encoding a concatenation gives the concatenation of the encodings. |
| `UriEncoding.EncodeUnreserved` | site/script.js:110 | Text made only of unreserved characters is left as it is. |
| `UriEncoding.EncodeIsPercentEncoded` | site/script.js:109-111 | The output holds only unreserved characters and `%XX` triplets with upper-case digits. |
| `UriEncoding.PercentEncodedChars` | site/script.js:109-111 | Every character of such output is unreserved or `%`. |
| `UriEncoding.EncodeLineHasNoDelimiters` | site/script.js:109-111 | `encodeLine` output contains no `&`, `=`, `?`, `#` and no white space, including line feeds. |
| `Mailto.BodyLines` | site/script.js:163-172 | The eight body lines, built from the trimmed fields and the page's address. It has no contract. See `Mailto.BodyText`. |
| `Mailto.Body` | site/script.js:162-173 | The lines joined with line feeds, before `encodeLine`. It has no contract of its own. See `Mailto.BodyText` and `Mailto.BodyUntrimmed`. |
| `Mailto.MailtoUrl` | site/script.js:160-175 | The URI assigned to the location. It has no contract of its own. See `Mailto.MailtoRoundTrip`. |
| `Mailto.BodyText` | site/script.js:162-173 | The joined body is the greeting, a blank line, the message, a blank line, `---`, `Name: ` + name, `Email: ` + email, and `Sent from: ` + page URL, separated by line feeds. |
| `Mailto.BodyUntrimmed` | site/script.js:162-173 | If the page URL ends in a character that is not white space, the trim inside `encodeLine` leaves the joined body unchanged. |
| `Mailto.SubjectIsTrimmed` | site/script.js:161 | The fixed subject line has no white space at either end. |
| `Mailto.ParseBuiltShape` | site/script.js:175 | Any URI `"mailto:" + T + "?subject=" + S + "&body=" + B` built from percent-encoded parts reads back as the decoded T, with exactly two headers, `subject` and `body`, holding the decoded S and B. |
| `Mailto.MailtoRoundTrip` | site/script.js:160-175 | The URI the form builds reads back as recipient `hello@mineanvil.com`, subject `MineAnvil updates request`, and body `trim(join(lines, "\n"))`. Field contents cannot add a header or end one early. |
| `ContactForm.AriaInvalid` | site/script.js:100-102 | The value `setInvalid` writes: `"true"` or `"false"`. It has no contract of its own. `ContactForm.Validate` and `ContactForm.Form.Submit` state each field's mark through it. |
| `ContactForm.Validate` | site/script.js:130-151 | `ok` holds exactly when name ≠ "", email ≠ "", `isValidEmail(email)` and message ≠ "". Each mark is `"true"` exactly when that field's own check fails, whatever the other fields hold. `ok` holds exactly when all three marks are `"false"`. |
| `ContactForm.RejectedExample` | site/script.js:132-151 | Name "", email "bad", message "hi" is rejected: name and email are marked invalid, the message is not. |
| `ContactForm.AcceptedExample` | site/script.js:132-151 | Name "Ada", email "ada@example.com", message "Hello" is accepted, and no field is marked. |
| `ContactForm.Form.constructor` | site/script.js:91-92 | The form before any submission: it records whether the status element and the fields exist, no status is shown, no field carries `aria-invalid`, and no location has been assigned. |
| `ContactForm.Form.SetStatus` | site/script.js:94-98 | The status text and the error flag are set when the status element exists. Otherwise nothing changes. |
| `ContactForm.Form.Submit` | site/script.js:114-179 | The status is cleared first. If a field element is missing, nothing else happens. Otherwise each field's `aria-invalid` is set from its own trimmed check. A rejected form shows the fixed error with the error flag set and leaves the location alone. An accepted form shows the opening message without the flag and sets the location to `MailtoUrl(trimmed name, trimmed email, trimmed message, page URL)`. |
| `Navigation.Nav.constructor` | site/script.js:12-13 | The page loads with the menu closed and `aria-expanded="false"`, so the class and the attribute agree. |
| `Navigation.Nav.CloseNav` | site/script.js:16-20 | The menu ends closed with `aria-expanded="false"`, whatever its state was. So a second call changes nothing. With the elements missing, nothing changes. |
| `Navigation.Nav.OpenNav` | site/script.js:22-26 | The menu ends open with `aria-expanded="true"`. With the elements missing, nothing changes. |
| `Navigation.Nav.ToggleClick` | site/script.js:29-33 | A toggle click flips the open state and keeps the class and the attribute in agreement. |
| `Navigation.Nav.DocumentClick` | site/script.js:36-42 | Only a click on an element outside both the nav and the toggle, while the menu is open, closes it. Any other click leaves the state unchanged. The class and the attribute still agree. |
| `Navigation.Nav.KeyDown` | site/script.js:45-48 | Escape always leaves the menu closed. Any other key changes nothing. The class and the attribute still agree. |
| `Navigation.ToggleThenBubble` | site/script.js:29-42 | A click on the toggle runs the toggle listener and then the document listener, where it counts as inside. Together they flip the state. |
| `Navigation.CloseTwice` | site/script.js:16-20 | `closeNav` is idempotent. |
| `Scroll.RemoveFirst` | site/script.js:53 | `replace("#", "")` removes only the first `#`. Without a `#` the string is unchanged. |
| `Scroll.HashToId` | site/script.js:51-53 | No target for `""` or `"#"`. Otherwise the id is the hash with its first `#` removed, which for a hash starting with `#` is everything after it. |

## Left out

- DOM lookups, event wiring and the `instanceof` guards (site/script.js:11-14, 28, 39, 113, 118-124). The results of `contains`/`closest` and of the guards are boolean inputs (`Nav.present`, `DocumentClick`'s arguments, `Form.hasFields`, `Form.hasStatus`).
- Moving focus to the first field marked invalid (site/script.js:155-156). This is a platform call, and which field comes first depends on the page's markup.
- `scrollIntoView`, `getElementById`, `history.replaceState` and the two in-page link listeners (site/script.js:54-84). They hand their work to the browser. The listeners' only effect on modelled state is a call to `closeNav`, and `Nav.CloseNav` models that.
- The navigation itself when `window.location.href` is assigned (site/script.js:178). The model records the assigned URI in `Form.location`.
- The footer year (site/script.js:87-88). It reads the wall clock.
- The regular-expression engine. `isValidEmail` is stated as the language its pattern denotes.
- Lone surrogates. Dafny's `char` is a Unicode scalar value, while a JavaScript string is a sequence of UTF-16 code units. A string with an unpaired surrogate cannot be written in the model, so the `URIError` that `encodeURIComponent` throws for one is not modelled. Paired surrogates are modelled as the one code point they stand for. That is what `encodeURIComponent` sees. The pattern has no `u` flag, so it sees two code units, each in `[^\s@]`, and acceptance is the same as for the one code point.
- White space follows the WhiteSpace and LineTerminator lists of ECMA-262, with the space separators of current Unicode. A different Unicode version in an engine could add or drop characters from that class.
- `Nav.constructor` assumes that the page's markup starts closed with `aria-expanded="false"`. The script never sets the initial value.
- The contact card with clipboard copy. The script has no such code.
