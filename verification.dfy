/** The verification-token workflow of the backend: a token is issued for a user
    and a purpose string, saved, and a link to it is mailed. */
module Verification {
  import opened Wrappers

  /** The two purpose strings the service knows. */
  const EmailVerification: string := "EMAIL_VERIFICATION"
  const PasswordReset: string := "PASSWORD_RESET"

  /** Fixed envelope: the recipient does not depend on the user's address. */
  const Sender: string := "HobbyList <onboarding@resend.dev>"
  const Recipient: string := "hobbylistproj@gmail.com"

  const VerifyPath: string := "verification?token="
  const ResetPath: string := "reset-password?token="
  const VerifySubject: string := "Verify your email"
  const ResetSubject: string := "Reset your password"
  const VerifyLead: string := "<p>Click the link to verify your account: "
  const ResetLead: string := "<p>Click the link to reset your password: "
  const Closing: string := "</p>"

  datatype User = User(id: int, email: string)

  /** What the token repository stores. */
  datatype VerificationToken = VerificationToken(token: string, user: User, tokenType: string)

  /** The options handed to the mail client. */
  datatype EmailMessage = EmailMessage(from: string, to: string, subject: string, html: string)

  /** The calls the service makes on its collaborators, in order. */
  datatype Event =
    | Saved(record: VerificationToken)
    | SendAttempted(message: EmailMessage, delivered: bool)

  predicate IsKnownType(tokenType: string) {
    tokenType == EmailVerification || tokenType == PasswordReset
  }

  /** The frontend path and query key for a known purpose. */
  function LinkPath(tokenType: string): string
    requires IsKnownType(tokenType)
  {
    if tokenType == EmailVerification then VerifyPath else ResetPath
  }

  /** The link mailed to the user. The base is used exactly as configured, with
      no separator added, and an unknown purpose gives no link at all. */
  function CompositeUrl(frontendUrl: string, tokenType: string, token: string): (r: string)
    ensures tokenType == EmailVerification ==> r == frontendUrl + "verification?token=" + token
    ensures tokenType == PasswordReset ==> r == frontendUrl + "reset-password?token=" + token
    ensures !IsKnownType(tokenType) ==> r == ""
    ensures IsKnownType(tokenType) ==> |r| > |token| && r[|r| - |token|..] == token
  {
    if IsKnownType(tokenType) then
      var r := frontendUrl + LinkPath(tokenType) + token;
      assert r[|r| - |token|..] == token;
      r
    else ""
  }

  /** What the frontend reads back out of a link of the given purpose: the text
      after the base and the path, or nothing when the link has another shape. */
  function TokenFromUrl(frontendUrl: string, tokenType: string, url: string): Option<string>
    requires IsKnownType(tokenType)
  {
    var prefix := frontendUrl + LinkPath(tokenType);
    if |prefix| <= |url| && url[..|prefix|] == prefix then Some(url[|prefix|..]) else None
  }

  /** The token in a mailed link is the token that was issued. */
  lemma TokenRoundTrip(frontendUrl: string, tokenType: string, token: string)
    requires IsKnownType(tokenType)
    ensures TokenFromUrl(frontendUrl, tokenType, CompositeUrl(frontendUrl, tokenType, token)) == Some(token)
  {
    var prefix := frontendUrl + LinkPath(tokenType);
    var url := CompositeUrl(frontendUrl, tokenType, token);
    assert url == prefix + token;
    assert url[..|prefix|] == prefix;
    assert url[|prefix|..] == token;
  }

  /** Links of one purpose for different tokens differ. */
  lemma CompositeUrlInjective(frontendUrl: string, tokenType: string, t1: string, t2: string)
    requires IsKnownType(tokenType)
    requires CompositeUrl(frontendUrl, tokenType, t1) == CompositeUrl(frontendUrl, tokenType, t2)
    ensures t1 == t2
  {
    TokenRoundTrip(frontendUrl, tokenType, t1);
    TokenRoundTrip(frontendUrl, tokenType, t2);
  }

  function Subject(tokenType: string): (r: string)
    ensures tokenType == EmailVerification ==> r == "Verify your email"
    ensures tokenType == PasswordReset ==> r == "Reset your password"
    ensures !IsKnownType(tokenType) ==> r == ""
  {
    if tokenType == EmailVerification then VerifySubject
    else if tokenType == PasswordReset then ResetSubject
    else ""
  }

  /** A link whose target and text are both `url`. */
  function Anchor(url: string): string {
    "<a href=\"" + url + "\">" + url + "</a>"
  }

  /** `sub` occurs in `s` starting at index `i`. */
  predicate OccursAt(s: string, sub: string, i: int) {
    0 <= i && i + |sub| <= |s| && s[i..i + |sub|] == sub
  }

  function Lead(tokenType: string): string
    requires IsKnownType(tokenType)
  {
    if tokenType == EmailVerification then VerifyLead else ResetLead
  }

  /** The mail body: a paragraph holding one link, empty for an unknown purpose. */
  function HtmlContent(tokenType: string, url: string): (r: string)
    ensures !IsKnownType(tokenType) ==> r == ""
    ensures IsKnownType(tokenType) ==> OccursAt(r, Anchor(url), |Lead(tokenType)|)
    ensures IsKnownType(tokenType) ==> r[..|Lead(tokenType)|] == Lead(tokenType)
    ensures IsKnownType(tokenType) ==> r == Lead(tokenType) + Anchor(url) + Closing
  {
    if IsKnownType(tokenType) then
      var r := Lead(tokenType) + Anchor(url) + Closing;
      assert r[|Lead(tokenType)|..|Lead(tokenType)| + |Anchor(url)|] == Anchor(url);
      r
    else ""
  }

  /** An occurrence inside an occurrence is an occurrence. */
  lemma OccursWithin(s: string, a: string, i: int, b: string, j: int)
    requires OccursAt(s, a, i) && OccursAt(a, b, j)
    ensures OccursAt(s, b, i + j)
  {
    forall k | 0 <= k < |b|
      ensures s[i + j + k] == b[k]
    {
      assert s[i..i + |a|][j + k] == s[i + j + k];
      assert a[j..j + |b|][k] == a[j + k];
    }
    assert s[i + j..i + j + |b|] == b;
  }

  /** The anchor names its url as the `href` target and as the link text. */
  lemma AnchorCarriesUrlTwice(url: string)
    ensures OccursAt(Anchor(url), url, 9)
    ensures OccursAt(Anchor(url), url, 11 + |url|)
  {
    var a := Anchor(url);
    assert a == "<a href=\"" + url + "\">" + url + "</a>";
    assert a[9..9 + |url|] == url;
    assert a[11 + |url|..11 + 2 * |url|] == url;
  }

  /** The link appears twice in the body: as the `href` target and as the link
      text. */
  lemma HtmlCarriesUrlTwice(tokenType: string, url: string)
    requires IsKnownType(tokenType)
    ensures OccursAt(HtmlContent(tokenType, url), url, |Lead(tokenType)| + 9)
    ensures OccursAt(HtmlContent(tokenType, url), url, |Lead(tokenType)| + 11 + |url|)
  {
    var h, i := HtmlContent(tokenType, url), |Lead(tokenType)|;
    AnchorCarriesUrlTwice(url);
    OccursWithin(h, Anchor(url), i, url, 9);
    OccursWithin(h, Anchor(url), i, url, 11 + |url|);
  }

  /** The message submitted for one issuance. */
  function Compose(frontendUrl: string, user: User, tokenType: string, token: string): (m: EmailMessage)
    ensures m.from == Sender && m.to == Recipient
    ensures !IsKnownType(tokenType) ==> m.subject == "" && m.html == ""
    ensures m.subject == Subject(tokenType)
    ensures m.html == HtmlContent(tokenType, CompositeUrl(frontendUrl, tokenType, token))
    ensures IsKnownType(tokenType) ==>
      OccursAt(m.html, Anchor(CompositeUrl(frontendUrl, tokenType, token)), |Lead(tokenType)|)
  {
    var url := CompositeUrl(frontendUrl, tokenType, token);
    EmailMessage(Sender, Recipient, Subject(tokenType), HtmlContent(tokenType, url))
  }

  /** The test's configuration: a reset link for the local frontend. */
  lemma LocalResetLink(token: string)
    ensures CompositeUrl("http://localhost:3000/", PasswordReset, token)
         == "http://localhost:3000/reset-password?token=" + token
  {
  }

  /** The records the calls in `log` saved, in order. */
  function SavedRecords(log: seq<Event>): seq<VerificationToken> {
    if log == [] then []
    else
      var last := log[|log| - 1];
      SavedRecords(log[..|log| - 1]) + if last.Saved? then [last.record] else []
  }

  /** The messages the mail client accepted, in order. */
  function Delivered(log: seq<Event>): seq<EmailMessage> {
    if log == [] then []
    else
      var last := log[|log| - 1];
      Delivered(log[..|log| - 1])
        + if last.SendAttempted? && last.delivered then [last.message] else []
  }

  /** One issuance: a save, then a send attempt of the message for that very
      record. */
  predicate IsIssuance(frontendUrl: string, save: Event, send: Event) {
    save.Saved? && send.SendAttempted? &&
    send.message == Compose(frontendUrl, save.record.user, save.record.tokenType, save.record.token)
  }

  /** `log` is a sequence of whole issuances. */
  predicate Issuances(frontendUrl: string, log: seq<Event>)
    decreases |log|
  {
    if log == [] then true
    else |log| >= 2 && Issuances(frontendUrl, log[..|log| - 2])
         && IsIssuance(frontendUrl, log[|log| - 2], log[|log| - 1])
  }

  /** In a log of issuances, there are as many saved records as send attempts, and
      no more delivered messages than saved records. */
  lemma {:induction false} IssuanceCounts(frontendUrl: string, log: seq<Event>)
    requires Issuances(frontendUrl, log)
    ensures 2 * |SavedRecords(log)| == |log|
    ensures |Delivered(log)| <= |SavedRecords(log)|
    decreases |log|
  {
    if log != [] {
      IssuanceCounts(frontendUrl, log[..|log| - 2]);
      LastIssuance(log);
    }
  }

  /** What the last issuance of a log adds: one saved record, at most one
      delivered message. */
  lemma LastIssuance(log: seq<Event>)
    requires |log| >= 2 && log[|log| - 2].Saved? && log[|log| - 1].SendAttempted?
    ensures |SavedRecords(log)| == |SavedRecords(log[..|log| - 2])| + 1
    ensures |Delivered(log)| <= |Delivered(log[..|log| - 2])| + 1
  {
    var middle := log[..|log| - 1];
    var prefix := log[..|log| - 2];
    assert middle[..|middle| - 1] == prefix;
    assert SavedRecords(middle) == SavedRecords(prefix) + [log[|log| - 2].record];
    assert Delivered(middle) == Delivered(prefix);
  }

  /** Every delivered message carries the link for a token that was saved
      before it. */
  lemma {:induction false} DeliveredWereSaved(frontendUrl: string, log: seq<Event>, m: EmailMessage)
    requires Issuances(frontendUrl, log)
    requires m in Delivered(log)
    ensures exists r :: r in SavedRecords(log) && m == Compose(frontendUrl, r.user, r.tokenType, r.token)
    decreases |log|
  {
    var prefix := log[..|log| - 2];
    var save, send := log[|log| - 2], log[|log| - 1];
    assert log[..|log| - 1][..|log| - 2] == prefix;
    assert SavedRecords(log) == SavedRecords(prefix) + [save.record];
    if m in Delivered(prefix) {
      DeliveredWereSaved(frontendUrl, prefix, m);
      var r :| r in SavedRecords(prefix) && m == Compose(frontendUrl, r.user, r.tokenType, r.token);
      assert r in SavedRecords(log);
    } else {
      assert m == send.message;
      assert save.record in SavedRecords(log);
    }
  }

  /** Appending one issuance to a log of issuances: one more record, and one more
      delivered message exactly when the send succeeded. */
  lemma AppendIssuance(frontendUrl: string, log: seq<Event>, record: VerificationToken, ok: bool)
    requires Issuances(frontendUrl, log)
    ensures var message := Compose(frontendUrl, record.user, record.tokenType, record.token);
            var log' := log + [Saved(record), SendAttempted(message, ok)];
            Issuances(frontendUrl, log') &&
            SavedRecords(log') == SavedRecords(log) + [record] &&
            Delivered(log') == Delivered(log) + if ok then [message] else []
  {
    var message := Compose(frontendUrl, record.user, record.tokenType, record.token);
    var middle := log + [Saved(record)];
    var log' := middle + [SendAttempted(message, ok)];
    assert log' == log + [Saved(record), SendAttempted(message, ok)];
    assert log'[..|log'| - 1] == middle;
    assert middle[..|middle| - 1] == log;
    assert log'[..|log'| - 2] == log;
    assert log'[|log'| - 2] == Saved(record);
    assert log'[|log'| - 1] == SendAttempted(message, ok);
    assert IsIssuance(frontendUrl, Saved(record), SendAttempted(message, ok));
    assert Issuances(frontendUrl, log');
    assert SavedRecords(middle) == SavedRecords(log) + [record];
    assert SavedRecords(log') == SavedRecords(middle);
    assert Delivered(middle) == Delivered(log);
    assert Delivered(log') == Delivered(middle) + if ok then [message] else [];
  }

  /** The service with its two collaborators: the token repository and the mail
      client. `log` records the calls made on them. */
  class VerificationService {
    const frontendUrl: string
    var tokenRepository: seq<VerificationToken>
    var outbox: seq<EmailMessage>
    ghost var log: seq<Event>

    ghost predicate Valid()
      reads this
    {
      Issuances(frontendUrl, log) &&
      tokenRepository == SavedRecords(log) &&
      outbox == Delivered(log)
    }

    constructor (frontendUrl: string)
      ensures Valid()
      ensures this.frontendUrl == frontendUrl
      ensures tokenRepository == [] && outbox == [] && log == []
    {
      this.frontendUrl := frontendUrl;
      tokenRepository, outbox := [], [];
      log := [];
    }

    /** Issues `token` (the fresh UUID) for `user` and `tokenType`. `sendSucceeds`
        is the mail client's outcome; a failed send is swallowed. */
    method SendVerificationEmail(user: User, tokenType: string, token: string, sendSucceeds: bool)
      requires Valid()
      modifies this
      ensures Valid()
      ensures tokenRepository == old(tokenRepository) + [VerificationToken(token, user, tokenType)]
      ensures log == old(log) + [Saved(VerificationToken(token, user, tokenType)),
                                 SendAttempted(Compose(frontendUrl, user, tokenType, token), sendSucceeds)]
      ensures outbox == old(outbox) + if sendSucceeds then [Compose(frontendUrl, user, tokenType, token)] else []
    {
      var verificationToken := VerificationToken(token, user, tokenType);
      tokenRepository := tokenRepository + [verificationToken];
      log := log + [Saved(verificationToken)];

      var compositeUrl := "";
      if tokenType == EmailVerification {
        compositeUrl := frontendUrl + VerifyPath + token;
      } else if tokenType == PasswordReset {
        compositeUrl := frontendUrl + ResetPath + token;
      }

      var subject := "";
      var htmlContent := "";
      if tokenType == EmailVerification {
        subject := VerifySubject;
        htmlContent := VerifyLead + Anchor(compositeUrl) + Closing;
      } else if tokenType == PasswordReset {
        subject := ResetSubject;
        htmlContent := ResetLead + Anchor(compositeUrl) + Closing;
      }

      assert compositeUrl == CompositeUrl(frontendUrl, tokenType, token);
      assert htmlContent == HtmlContent(tokenType, compositeUrl);
      var params := EmailMessage(Sender, Recipient, subject, htmlContent);
      assert params == Compose(frontendUrl, user, tokenType, token);
      log := log + [SendAttempted(params, sendSucceeds)];
      if sendSucceeds {
        outbox := outbox + [params];
      }
      // A failed send is caught and only logged: the method returns normally.

      assert log == old(log) + [Saved(verificationToken), SendAttempted(params, sendSucceeds)];
      AppendIssuance(frontendUrl, old(log), verificationToken, sendSucceeds);
    }
  }
}
