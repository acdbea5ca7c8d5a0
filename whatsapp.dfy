/**
 * The WhatsApp deep link the page opens: formatWaNumber and buildWaLink
 * (client/src/pages/home.tsx), and a parser for the link that recovers the
 * number and the message from it.
 */
module WhatsApp {
  import opened Wrappers
  import SiteConfig
  import UriComponent
  import opened Sequences

  /** Strings of what `\D` leaves alone: the ASCII digits only (the regex has no `u` flag). */
  predicate AllDigits(s: string) {
    forall i :: 0 <= i < |s| ==> UriComponent.IsDecimalDigit(s[i])
  }

  /** formatWaNumber: `input.replace(/\D/g, "")`. */
  function FormatWaNumber(input: string): (digits: string)
    ensures AllDigits(digits)
    ensures |digits| <= |input|
  {
    if input == [] then []
    else if UriComponent.IsDecimalDigit(input[0]) then [input[0]] + FormatWaNumber(input[1..])
    else FormatWaNumber(input[1..])
  }

  /** The digits come out in their original order. */
  lemma {:induction false} FormatWaNumberIsSubsequence(input: string)
    ensures IsSubsequence(FormatWaNumber(input), input)
  {
    if input != [] {
      FormatWaNumberIsSubsequence(input[1..]);
    }
  }

  /** Formatting a concatenation formats each part: nothing but the digits matters. */
  lemma {:induction false} FormatWaNumberAppend(a: string, b: string)
    ensures FormatWaNumber(a + b) == FormatWaNumber(a) + FormatWaNumber(b)
  {
    if a == [] {
      assert a + b == b;
    } else {
      assert (a + b)[0] == a[0];
      assert (a + b)[1..] == a[1..] + b;
      FormatWaNumberAppend(a[1..], b);
    }
  }

  /** A string is left unchanged exactly when it already consists of digits. */
  lemma {:induction false} FormatWaNumberFixedPoints(s: string)
    ensures FormatWaNumber(s) == s <==> AllDigits(s)
  {
    if s != [] && AllDigits(s) {
      assert AllDigits(s[1..]) by {
        assert forall i :: 0 <= i < |s[1..]| ==> s[1..][i] == s[i + 1];
      }
      FormatWaNumberFixedPoints(s[1..]);
    }
  }

  lemma FormatWaNumberIdempotent(s: string)
    ensures FormatWaNumber(FormatWaNumber(s)) == FormatWaNumber(s)
  {
    FormatWaNumberFixedPoints(FormatWaNumber(s));
  }

  lemma FormatWaNumberOfConfigured()
    ensures FormatWaNumber(SiteConfig.WhatsappNumber) == "971504486615"
  {
    var n := SiteConfig.WhatsappNumber;
    assert !UriComponent.IsDecimalDigit(n[0]);
    assert AllDigits(n[1..]);
    FormatWaNumberFixedPoints(n[1..]);
    assert n[1..] == "971504486615";
  }

  const LinkPrefix: string := "https://wa.me/"

  /** buildWaLink's template for a destination number: its digits and the URI-component-encoded message. */
  function WaLink(number: string, message: string): string {
    LinkPrefix + FormatWaNumber(number) + "?text=" + UriComponent.Encode(message)
  }

  /** buildWaLink, which always sends to the configured number. */
  function BuildWaLink(message: string): string {
    WaLink(SiteConfig.WhatsappNumber, message)
  }

  /**
   * Reads a link of the form https://wa.me/<digits>?text=<encoded message>
   * back into its number and its decoded message (what the messaging client
   * does with it); None for anything else.
   */
  function ParseWaLink(url: string): Option<(string, string)> {
    if |url| < |LinkPrefix| || url[..|LinkPrefix|] != LinkPrefix then None
    else
      var rest := url[|LinkPrefix|..];
      match Find(rest, '?')
      case None => None
      case Some(q) =>
        var phone, query := rest[..q], rest[q + 1..];
        if !AllDigits(phone) || |query| < 5 || query[..5] != "text=" then None
        else
          match UriComponent.Decode(query[5..])
          case None => None
          case Some(m) => Some((phone, m))
  }

  lemma ParseLink(phone: string, message: string)
    requires AllDigits(phone)
    ensures ParseWaLink(LinkPrefix + phone + "?text=" + UriComponent.Encode(message)) == Some((phone, message))
  {
    var text := UriComponent.Encode(message);
    var url := LinkPrefix + phone + "?text=" + text;
    var rest := phone + ['?'] + ("text=" + text);
    assert url[..|LinkPrefix|] == LinkPrefix;
    assert url[|LinkPrefix|..] == rest;
    assert '?' !in phone by {
      assert !UriComponent.IsDecimalDigit('?');
    }
    FindAfter(phone, '?', "text=" + text);
    assert rest[..|phone|] == phone;
    assert rest[|phone| + 1..] == "text=" + text;
    UriComponent.DecodeEncode(message);
  }

  /** The link carries the number's digits and exactly the message. */
  lemma ParseWaLinkOfWaLink(number: string, message: string)
    ensures ParseWaLink(WaLink(number, message)) == Some((FormatWaNumber(number), message))
  {
    ParseLink(FormatWaNumber(number), message);
  }

  lemma ParseBuildWaLink(message: string)
    ensures ParseWaLink(BuildWaLink(message)) == Some((FormatWaNumber(SiteConfig.WhatsappNumber), message))
  {
    var number := SiteConfig.WhatsappNumber;
    ParseWaLinkOfWaLink(number, message);
  }

  lemma PrefixHasNoDelimiters(phone: string)
    requires AllDigits(phone)
    ensures var head := LinkPrefix + phone;
      '?' !in head && '=' !in head && ' ' !in head && '\n' !in head && '&' !in head && '#' !in head
  {
  }

  /** x occurs once in a + [x] + b when it occurs in neither part. */
  lemma SoleOccurrence(a: string, x: char, b: string)
    requires x !in a && x !in b
    ensures Find(a + [x] + b, x) == Some(|a|)
    ensures x !in (a + [x] + b)[|a| + 1..]
  {
    FindAfter(a, x, b);
    assert (a + [x] + b)[|a| + 1..] == b;
  }

  lemma QueryDelimiters(head: string, text: string)
    requires '?' !in head && '=' !in head && '?' !in text && '=' !in text
    ensures var url := head + "?text=" + text;
      && Find(url, '?') == Some(|head|) && '?' !in url[|head| + 1..]
      && Find(url, '=') == Some(|head| + 5) && '=' !in url[|head| + 6..]
  {
    var url := head + "?text=" + text;
    assert url == head + ['?'] + ("text=" + text);
    SoleOccurrence(head, '?', "text=" + text);
    assert url == (head + "?text") + ['='] + text;
    SoleOccurrence(head + "?text", '=', text);
  }

  lemma LinkDelimiters(phone: string, message: string)
    requires AllDigits(phone)
    ensures var url := LinkPrefix + phone + "?text=" + UriComponent.Encode(message);
      && ' ' !in url && '\n' !in url && '&' !in url && '#' !in url
      && Find(url, '?') == Some(|LinkPrefix| + |phone|)
      && '?' !in url[|LinkPrefix| + |phone| + 1..]
      && Find(url, '=') == Some(|LinkPrefix| + |phone| + 5)
      && '=' !in url[|LinkPrefix| + |phone| + 6..]
  {
    var text := UriComponent.Encode(message);
    UriComponent.EncodeHasNoDelimiters(message);
    PrefixHasNoDelimiters(phone);
    QueryDelimiters(LinkPrefix + phone, text);
  }

  /**
   * The message cannot leak into the rest of the URL: the link holds no space,
   * line break, '&' or '#', and its only '?' and its only '=' are the ones
   * that open the text parameter.
   */
  lemma WaLinkDelimiters(number: string, message: string)
    ensures var url, n := WaLink(number, message), |LinkPrefix| + |FormatWaNumber(number)|;
      && ' ' !in url && '\n' !in url && '&' !in url && '#' !in url
      && Find(url, '?') == Some(n) && '?' !in url[n + 1..]
      && Find(url, '=') == Some(n + 5) && '=' !in url[n + 6..]
  {
    LinkDelimiters(FormatWaNumber(number), message);
  }

  /** The link for the configured number, "+971504486615", carries its digits without the '+'. */
  lemma BuildWaLinkForConfigured(message: string)
    ensures BuildWaLink(message) == LinkPrefix + "971504486615" + "?text=" + UriComponent.Encode(message)
  {
    FormatWaNumberOfConfigured();
  }
}
