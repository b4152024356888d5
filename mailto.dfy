/** The mailto URI that the contact form opens (site/script.js:160-175),
    and a reader for the URI form of section 2 of RFC 6068
    (`mailto:to?hfname=hfvalue&hfname=hfvalue`) that the URI is proved
    against. */
module Mailto {
  import opened Wrappers
  import opened Text
  import opened UriEncoding

  // The two constants are written as concatenations so that the verifier
  // does not evaluate their encodings wherever the mailto URI appears.
  const RECIPIENT: string := "hello" + "@mineanvil.com"
  const SUBJECT: string := "MineAnvil" + " updates request"

  /** The lines of the message body, from the trimmed field values and the
      page's address. */
  function BodyLines(name: string, email: string, message: string, pageUrl: string): seq<string>
  {
    ["Hello MineAnvil,", "", message, "", "---",
     "Name: " + name, "Email: " + email, "Sent from: " + pageUrl]
  }

  /** The body, joined with line feeds before it is encoded. */
  function Body(name: string, email: string, message: string, pageUrl: string): string
  {
    Join(BodyLines(name, email, message, pageUrl), "\n")
  }

  /** The URI assigned to `window.location.href`: the body is encoded once,
      as the joined string. */
  function MailtoUrl(name: string, email: string, message: string, pageUrl: string): string
  {
    "mailto:" + EncodeURIComponent(RECIPIENT)
    + "?subject=" + EncodeLine(SUBJECT)
    + "&body=" + EncodeLine(Body(name, email, message, pageUrl))
  }

  // ---------------------------------------------------------------------
  // Reading a mailto URI back (section 2 of RFC 6068).

  datatype MailtoUri = MailtoUri(to: string, headers: seq<(string, string)>)

  /** `hfname=hfvalue`, both percent-decoded. */
  function ParseHeader(f: string): Option<(string, string)>
  {
    var k := IndexOf(f, '=');
    if k == |f| then None
    else
      var name := DecodeURIComponent(f[..k]);
      var value := DecodeURIComponent(f[k + 1..]);
      if name.Some? && value.Some? then Some((name.value, value.value)) else None
  }

  function ParseHeaders(fs: seq<string>): Option<seq<(string, string)>>
  {
    if fs == [] then Some([])
    else
      var h := ParseHeader(fs[0]);
      var hs := ParseHeaders(fs[1..]);
      if h.Some? && hs.Some? then Some([h.value] + hs.value) else None
  }

  /** What follows `mailto:`: the recipient, then the headers after `?`. */
  function ParseAddressAndHeaders(rest: string): Option<MailtoUri>
  {
    var k := IndexOf(rest, '?');
    var to := DecodeURIComponent(rest[..k]);
    if to.None? then None
    else if k == |rest| then Some(MailtoUri(to.value, []))
    else
      var hs := ParseHeaders(SplitOn(rest[k + 1..], '&'));
      if hs.None? then None else Some(MailtoUri(to.value, hs.value))
  }

  const SCHEME: string := "mailto:"

  function ParseMailto(u: string): Option<MailtoUri>
  {
    if |u| < |SCHEME| || u[..|SCHEME|] != SCHEME then None
    else ParseAddressAndHeaders(u[|SCHEME|..])
  }

  // ---------------------------------------------------------------------
  // Properties.

  lemma SubjectIsTrimmed()
    ensures Trim(SUBJECT) == SUBJECT
  {
    assert SUBJECT[..0] == [] && SUBJECT[|SUBJECT|..] == [] && SUBJECT[0..|SUBJECT|] == SUBJECT;
    TrimUnique(SUBJECT, 0, |SUBJECT|);
  }

  /** A header written as `name=` followed by an encoded value. */
  lemma ParseWrittenHeader(name: string, e: string, v: string)
    requires '=' !in name && '%' !in name
    requires DecodeURIComponent(e) == Some(v)
    ensures ParseHeader(name + "=" + e) == Some((name, v))
  {
    var f := name + "=" + e;
    IndexOfAfter(name, "=" + e, '=');
    assert f == name + ("=" + e);
    assert f[..|name|] == name;
    assert f[|name| + 1..] == e;
    DecodePlain(name);
  }

  /** The query `subject=S&body=B` reads back as its two decoded headers. */
  lemma ParseQuery(s: string, b: string, sv: string, bv: string)
    requires '&' !in s && '&' !in b
    requires DecodeURIComponent(s) == Some(sv) && DecodeURIComponent(b) == Some(bv)
    ensures ParseHeaders(SplitOn("subject=" + s + "&body=" + b, '&'))
      == Some([("subject", sv), ("body", bv)])
  {
    SplitQuery(s, b);
    assert ParseHeader("subject=" + s) == Some(("subject", sv)) by {
      assert "subject=" + s == "subject" + "=" + s;
      ParseWrittenHeader("subject", s, sv);
    }
    assert ParseHeader("body=" + b) == Some(("body", bv)) by {
      assert "body=" + b == "body" + "=" + b;
      ParseWrittenHeader("body", b, bv);
    }
    ParseHeadersTwo("subject=" + s, "body=" + b, ("subject", sv), ("body", bv));
  }

  lemma SplitQuery(s: string, b: string)
    requires '&' !in s && '&' !in b
    ensures SplitOn("subject=" + s + "&body=" + b, '&') == ["subject=" + s, "body=" + b]
  {
    assert "subject=" + s + "&body=" + b == ("subject=" + s) + ['&'] + ("body=" + b);
    SplitOnTwo("subject=" + s, "body=" + b, '&');
  }

  lemma ParseHeadersTwo(f1: string, f2: string, h1: (string, string), h2: (string, string))
    requires ParseHeader(f1) == Some(h1) && ParseHeader(f2) == Some(h2)
    ensures ParseHeaders([f1, f2]) == Some([h1, h2])
  {
    assert [f1, f2][1..] == [f2];
    assert [f2][1..] == [];
    assert [h2] + [] == [h2];
    assert ParseHeaders([f2]) == Some([h2]);
    assert [h1] + [h2] == [h1, h2];
  }

  lemma Reassociate(t: string, s: string, b: string)
    ensures "mailto:" + t + "?subject=" + s + "&body=" + b
      == "mailto:" + (t + ("?" + ("subject=" + s + "&body=" + b)))
  {
    assert "?subject=" == "?" + "subject=";
    calc {
      "mailto:" + t + "?subject=" + s + "&body=" + b;
      "mailto:" + t + ("?" + "subject=") + s + "&body=" + b;
      ("mailto:" + t) + ("?" + ("subject=" + s + "&body=" + b));
    }
  }

  /** The scheme is stripped and the rest is read as address and headers. */
  lemma ParseAfterScheme(rest: string)
    ensures ParseMailto(SCHEME + rest) == ParseAddressAndHeaders(rest)
  {
    var u := SCHEME + rest;
    assert u[..|SCHEME|] == SCHEME && u[|SCHEME|..] == rest;
  }

  /** A recipient without `?` ends at the first `?`; the query follows it. */
  lemma ParseAddressThenQuery(t: string, query: string, tv: string, hs: seq<(string, string)>)
    requires '?' !in t && DecodeURIComponent(t) == Some(tv)
    requires ParseHeaders(SplitOn(query, '&')) == Some(hs)
    ensures ParseAddressAndHeaders(t + ("?" + query)) == Some(MailtoUri(tv, hs))
  {
    var rest := t + ("?" + query);
    IndexOfAfter(t, "?" + query, '?');
    assert IndexOf(rest, '?') == |t|;
    assert rest[..|t|] == t;
    assert rest[|t| + 1..] == query;
  }

  /** Any URI of the shape the form builds, from percent-encoded parts,
      reads back as the decoded parts. */
  lemma ParseBuiltShape(t: string, s: string, b: string, tv: string, sv: string, bv: string)
    requires IsPercentEncoded(t) && IsPercentEncoded(s) && IsPercentEncoded(b)
    requires DecodeURIComponent(t) == Some(tv)
    requires DecodeURIComponent(s) == Some(sv) && DecodeURIComponent(b) == Some(bv)
    ensures ParseMailto("mailto:" + t + "?subject=" + s + "&body=" + b)
      == Some(MailtoUri(tv, [("subject", sv), ("body", bv)]))
  {
    var query := "subject=" + s + "&body=" + b;
    Reassociate(t, s, b);
    PercentEncodedHasNoDelimiters(s);
    PercentEncodedHasNoDelimiters(b);
    ParseQuery(s, b, sv, bv);
    PercentEncodedHasNoDelimiters(t);
    ParseAddressThenQuery(t, query, tv, [("subject", sv), ("body", bv)]);
    ParseAfterScheme(t + ("?" + query));
  }

  /** The mailto URI reads back as the fixed recipient, the fixed subject
      and the trimmed body, and as nothing else: no field value can add a
      header or end one early. */
  lemma MailtoRoundTrip(name: string, email: string, message: string, pageUrl: string)
    ensures ParseMailto(MailtoUrl(name, email, message, pageUrl)) == Some(MailtoUri(RECIPIENT,
      [("subject", SUBJECT), ("body", Trim(Body(name, email, message, pageUrl)))]))
  {
    var body := Body(name, email, message, pageUrl);
    EncodeIsPercentEncoded(RECIPIENT);
    EncodeIsPercentEncoded(Trim(SUBJECT));
    EncodeIsPercentEncoded(Trim(body));
    DecodeEncode(RECIPIENT);
    DecodeEncodeLine(SUBJECT);
    DecodeEncodeLine(body);
    SubjectIsTrimmed();
    ParseBuiltShape(EncodeURIComponent(RECIPIENT), EncodeLine(SUBJECT), EncodeLine(body),
      RECIPIENT, SUBJECT, Trim(body));
  }

  lemma JoinCons(x: string, rest: seq<string>, sep: string)
    requires rest != []
    ensures Join([x] + rest, sep) == x + sep + Join(rest, sep)
  {
    assert ([x] + rest)[1..] == rest;
  }

  /** The body spelled out: the eight lines with a line feed between
      neighbours. */
  lemma BodyText(name: string, email: string, message: string, pageUrl: string)
    ensures Body(name, email, message, pageUrl) ==
      "Hello MineAnvil," + "\n" + "" + "\n" + message + "\n" + "" + "\n" + "---"
      + "\n" + ("Name: " + name) + "\n" + ("Email: " + email) + "\n" + ("Sent from: " + pageUrl)
  {
    var l5, l6, l7 := "Name: " + name, "Email: " + email, "Sent from: " + pageUrl;
    var nl := "\n";
    JoinCons(l6, [l7], nl);
    JoinCons(l5, [l6, l7], nl);
    JoinCons("---", [l5, l6, l7], nl);
    JoinCons("", ["---", l5, l6, l7], nl);
    JoinCons(message, ["", "---", l5, l6, l7], nl);
    JoinCons("", [message, "", "---", l5, l6, l7], nl);
    JoinCons("Hello MineAnvil,", ["", message, "", "---", l5, l6, l7], nl);
    FlattenEight("Hello MineAnvil,", "", message, "", "---", l5, l6, l7, nl);
  }

  lemma FlattenEight(a1: string, a2: string, a3: string, a4: string, a5: string, a6: string,
                     a7: string, a8: string, d: string)
    ensures a1 + d + (a2 + d + (a3 + d + (a4 + d + (a5 + d + (a6 + d + (a7 + d + a8))))))
      == a1 + d + a2 + d + a3 + d + a4 + d + a5 + d + a6 + d + a7 + d + a8
  {
  }

  /** When the page address ends in a character other than white space
      (every absolute URL does), the trim inside `encodeLine` leaves the
      body alone, so the mail client receives exactly the joined lines. */
  lemma BodyUntrimmed(name: string, email: string, message: string, pageUrl: string)
    requires pageUrl != [] && !IsWhiteSpace(pageUrl[|pageUrl| - 1])
    ensures Trim(Body(name, email, message, pageUrl)) == Body(name, email, message, pageUrl)
  {
    var body := Body(name, email, message, pageUrl);
    BodyText(name, email, message, pageUrl);
    assert body[0] == 'H';
    assert body[|body| - 1] == pageUrl[|pageUrl| - 1];
    assert body[..0] == [] && body[|body|..] == [] && body[0..|body|] == body;
    TrimUnique(body, 0, |body|);
  }
}
