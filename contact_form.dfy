/**
 * The contact form's submit handler (Contact in client/src/pages/home.tsx):
 * three fields that must not be blank once trimmed, and the fixed four-line
 * message the WhatsApp link is built from.
 */
module ContactForm {
  import opened Wrappers
  import opened Sequences
  import SiteConfig
  import WhatsApp

  /**
   * The WhiteSpace and LineTerminator code points of ECMA-262 (its sections
   * on white space and line terminators), which String.prototype.trim
   * removes: TAB, VT, FF, ZWNBSP, the Zs category, LF, CR, LS and PS.
   */
  predicate IsTrimmable(c: char) {
    || c == '\t' || c == '\U{B}' || c == '\U{C}' || c == '\U{FEFF}'
    || c == ' ' || c == '\U{A0}' || c == '\U{1680}' || '\U{2000}' <= c <= '\U{200A}'
    || c == '\U{202F}' || c == '\U{205F}' || c == '\U{3000}'
    || c == '\n' || c == '\r' || c == '\U{2028}' || c == '\U{2029}'
  }

  /** The number of trimmable characters s starts with. */
  function LeadingTrimmable(s: string): (k: nat)
    ensures k <= |s|
    ensures forall i :: 0 <= i < k ==> IsTrimmable(s[i])
    ensures k < |s| ==> !IsTrimmable(s[k])
  {
    if s != [] && IsTrimmable(s[0]) then 1 + LeadingTrimmable(s[1..]) else 0
  }

  /** The number of trimmable characters s ends with. */
  function TrailingTrimmable(s: string): (k: nat)
    ensures k <= |s|
    ensures forall i :: |s| - k <= i < |s| ==> IsTrimmable(s[i])
    ensures k < |s| ==> !IsTrimmable(s[|s| - k - 1])
  {
    if s != [] && IsTrimmable(s[|s| - 1]) then 1 + TrailingTrimmable(s[..|s| - 1]) else 0
  }

  /**
   * String.prototype.trim: the slice of s left after cutting off a blank
   * prefix and a blank suffix, and the slice cannot be cut further.
   */
  function Trim(s: string): (r: string)
    ensures exists k, l :: 0 <= k <= l <= |s| && r == s[k..l] && IsBlank(s[..k]) && IsBlank(s[l..])
    ensures r == [] || (!IsTrimmable(r[0]) && !IsTrimmable(r[|r| - 1]))
  {
    var k := LeadingTrimmable(s);
    var t := s[k..];
    var l := k + |t| - TrailingTrimmable(t);
    TrimSlice(s, k, l);
    s[k..l]
  }

  lemma TrimSlice(s: string, k: nat, l: nat)
    requires k == LeadingTrimmable(s) && l == k + |s[k..]| - TrailingTrimmable(s[k..])
    ensures k <= l <= |s| && IsBlank(s[..k]) && IsBlank(s[l..])
    ensures s[k..l] == [] || (!IsTrimmable(s[k..l][0]) && !IsTrimmable(s[k..l][l - k - 1]))
  {
    var t := s[k..];
    var n := TrailingTrimmable(t);
    var u := t[|t| - n..];
    assert s[l..] == u;
    assert s[k..l] == t[..|t| - n];
    assert forall i :: 0 <= i < |u| ==> u[i] == t[|t| - n + i];
  }

  /** Nothing but white space and line breaks. */
  predicate IsBlank(s: string) {
    forall i :: 0 <= i < |s| ==> IsTrimmable(s[i])
  }

  /** `s.trim().length === 0` holds exactly for the blank strings. */
  lemma TrimEmptyIffBlank(s: string)
    ensures |Trim(s)| == 0 <==> IsBlank(s)
  {
    var k := LeadingTrimmable(s);
    var t := s[k..];
    if k < |s| {
      assert t[0] == s[k];
      assert !IsBlank(s);
    }
  }

  /** What the user typed; the handler reads the fields untrimmed. */
  datatype Draft = Draft(name: string, contact: string, message: string)

  datatype FieldErrors = FieldErrors(name: bool, contact: bool, message: bool)

  /** The `errors` record: a field is in error when it is empty once trimmed. */
  function Errors(d: Draft): FieldErrors {
    FieldErrors(|Trim(d.name)| == 0, |Trim(d.contact)| == 0, |Trim(d.message)| == 0)
  }

  /** What a submit does: an error toast and nothing else, or a success toast and a new window on the link. */
  datatype Outcome = Rejected(notice: string) | Opened(notice: string, url: string)

  const IncompleteNotice: string := "Please complete all fields."
  const OpeningNotice: string := "Opening WhatsApp…"

  /** The first line of every message, also the text of the page's plain WhatsApp buttons. */
  function Greeting(): string {
    "Hello " + SiteConfig.BrandName + ", I want a personalized branding website."
  }

  function ComposeMessage(d: Draft): string {
    Greeting() + "\nName: " + d.name + "\nContact: " + d.contact + "\nMessage: " + d.message
  }

  /** onSubmit. */
  function Submit(d: Draft): Outcome {
    var e := Errors(d);
    if e.name || e.contact || e.message then Rejected(IncompleteNotice)
    else Opened(OpeningNotice, WhatsApp.BuildWaLink(ComposeMessage(d)))
  }

  /** The link of the WhatsApp buttons in the navigation bar and beside the form. */
  function GreetingLink(): string {
    WhatsApp.BuildWaLink(Greeting())
  }

  /** The submit aborts exactly when one of the three fields is blank. */
  lemma SubmitRejectsIffBlank(d: Draft)
    ensures Submit(d).Rejected? <==> IsBlank(d.name) || IsBlank(d.contact) || IsBlank(d.message)
    ensures Submit(d).Rejected? ==> Submit(d).notice == IncompleteNotice
  {
    TrimEmptyIffBlank(d.name);
    TrimEmptyIffBlank(d.contact);
    TrimEmptyIffBlank(d.message);
  }

  /** A submit that goes through opens a link that carries exactly the composed message. */
  lemma SubmitOpensComposedMessage(d: Draft)
    requires Submit(d).Opened?
    ensures Submit(d).notice == OpeningNotice
    ensures WhatsApp.ParseWaLink(Submit(d).url)
         == Some((WhatsApp.FormatWaNumber(SiteConfig.WhatsappNumber), ComposeMessage(d)))
  {
    WhatsApp.ParseBuildWaLink(ComposeMessage(d));
  }

  lemma GreetingLinkCarriesGreeting()
    ensures WhatsApp.ParseWaLink(GreetingLink())
         == Some((WhatsApp.FormatWaNumber(SiteConfig.WhatsappNumber), Greeting()))
  {
    WhatsApp.ParseBuildWaLink(Greeting());
  }

  /** How the recipient reads a message: its lines, split at each line break, empty lines kept. */
  function Lines(s: string): (lines: seq<string>)
    ensures |lines| >= 1
    decreases |s|
  {
    match Find(s, '\n')
    case None => [s]
    case Some(i) => [s[..i]] + Lines(s[i + 1..])
  }

  lemma LinesCons(a: string, b: string)
    requires '\n' !in a
    ensures Lines(a + "\n" + b) == [a] + Lines(b)
  {
    FindAfter(a, '\n', b);
    var s := a + "\n" + b;
    assert s[..|a|] == a;
    assert s[|a| + 1..] == b;
  }

  lemma GreetingHasNoLineBreak()
    ensures '\n' !in Greeting()
  {
    assert '\n' !in SiteConfig.BrandName;
  }

  lemma LabelledHasNoLineBreak(caption: string, field: string)
    requires '\n' !in caption && '\n' !in field
    ensures '\n' !in caption + field
  {
  }

  lemma LinesSingle(s: string)
    requires '\n' !in s
    ensures Lines(s) == [s]
  {
  }

  lemma LinesOfThree(a: string, b: string, c: string)
    requires '\n' !in a && '\n' !in b && '\n' !in c
    ensures Lines(a + "\n" + (b + "\n" + c)) == [a, b, c]
  {
    LinesSingle(c);
    LinesCons(b, c);
    LinesCons(a, b + "\n" + c);
  }

  lemma JoinedRight(a: string, b: string, c: string, e: string)
    ensures a + "\n" + b + "\n" + c + "\n" + e == a + "\n" + (b + "\n" + (c + "\n" + e))
  {
    var nl := "\n";
    assert a + nl + b + nl + c + nl + e == a + nl + (b + nl + c + nl + e);
    assert b + nl + c + nl + e == b + nl + (c + nl + e);
  }

  lemma LinesOfFour(a: string, b: string, c: string, e: string)
    requires '\n' !in a && '\n' !in b && '\n' !in c && '\n' !in e
    ensures Lines(a + "\n" + b + "\n" + c + "\n" + e) == [a, b, c, e]
  {
    var tail := b + "\n" + (c + "\n" + e);
    LinesOfThree(b, c, e);
    assert Lines(tail) == [b, c, e];
    LinesCons(a, tail);
    JoinedRight(a, b, c, e);
    assert a + "\n" + b + "\n" + c + "\n" + e == a + "\n" + tail;
  }

  /** The message template, read as its lines joined by line breaks. */
  lemma ComposeMessageJoined(d: Draft)
    ensures ComposeMessage(d)
         == Greeting() + "\n" + ("Name: " + d.name) + "\n" + ("Contact: " + d.contact) + "\n" + ("Message: " + d.message)
  {
    var nl := "\n";
    assert "\nName: " == nl + "Name: ";
    assert "\nContact: " == nl + "Contact: ";
    assert "\nMessage: " == nl + "Message: ";
  }

  /**
   * When no field holds a line break the recipient sees four lines: the
   * greeting, then each field after its label, exactly as typed.
   */
  lemma ComposedLines(d: Draft)
    requires '\n' !in d.name && '\n' !in d.contact && '\n' !in d.message
    ensures Lines(ComposeMessage(d))
         == [Greeting(), "Name: " + d.name, "Contact: " + d.contact, "Message: " + d.message]
  {
    GreetingHasNoLineBreak();
    LabelledHasNoLineBreak("Name: ", d.name);
    LabelledHasNoLineBreak("Contact: ", d.contact);
    LabelledHasNoLineBreak("Message: ", d.message);
    LinesOfFour(Greeting(), "Name: " + d.name, "Contact: " + d.contact, "Message: " + d.message);
    ComposeMessageJoined(d);
  }
}
