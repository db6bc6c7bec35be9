/**
 * The form-submission path: `addSubscriber` (ActiveCampaign `contact_sync`),
 * `sendDownloadEmail` and the AJAX handler `submitLeadbox`.  Every step returns
 * an error message or false, and the first error ends the chain.
 */
module Submission {
  import opened Wrappers
  import opened Php
  import Message
  import opened DownloadLink

  /** A scalar as `json_decode(..., true)` yields it. */
  datatype JsonValue = JNull | JBool(b: bool) | JInt(i: int) | JString(s: string)

  /** PHP truthiness of a decoded value; a missing key reads as null. */
  predicate JsonTruthy(v: Option<JsonValue>) {
    match v
    case None => false
    case Some(JNull) => false
    case Some(JBool(b)) => b
    case Some(JInt(i)) => i != 0
    case Some(JString(s)) => StringTruthy(s)
  }

  const SubscribeError: string := "Contact could not be added"
  const MailError: string := "Email could not be sent"
  const NoPermission: string := "No permission."
  const Thanks: string := "Thanks, check your inbox now!"

  /** `addSubscriber`, given the decoded `result_code` of the API response. */
  function AddSubscriber(resultCode: Option<JsonValue>): (r: Option<string>)
    ensures r.None? <==> JsonTruthy(resultCode)
    ensures r.Some? ==> r.value == SubscribeError && Truthy(r)
  {
    if JsonTruthy(resultCode) then None else Some(SubscribeError)
  }

  /** Everything the outside world contributes to one submission. */
  datatype World = World(
    resultCode: Option<JsonValue>,   // ActiveCampaign's decoded result_code
    permalink: string,               // get_permalink($post_id)
    basename: string,                // basename(get_permalink($post_id))
    uploads: Uploads,                // wp_get_upload_dir()
    pdf: PdfService,                 // conversion, download and metadata outcomes
    siteUrl: string,                 // get_site_url()
    title: string,                   // get_the_title($post_id)
    template: string,                // the mail template file
    mailSent: bool)                  // what wp_mail returned

  datatype Mail = Mail(to: string, subject: string, body: string)

  /** The result, the PDF generation run if any, the mail handed over if any, and the metadata afterwards. */
  datatype Sent = Sent(error: Option<string>, generated: Option<Generated>, mail: Option<Mail>, meta: map<int, string>)

  /** `get_post_meta($post_id, 'pdf_download_url', true)`: "" when absent. */
  function StoredUrl(meta: map<int, string>, postId: int): string {
    if postId in meta then meta[postId] else ""
  }

  function DownloadMail(email: string, url: string, w: World): Mail {
    Mail(email, "Download " + w.title, Message.FormatMessage(w.template, w.siteUrl, w.title, url))
  }

  /** `sendDownloadEmail`. */
  function SendDownloadEmail(email: string, postId: int, meta: map<int, string>, w: World): Sent {
    var subscribed := AddSubscriber(w.resultCode);
    if Truthy(subscribed) then
      Sent(subscribed, None, None, meta)
    else if !StringTruthy(StoredUrl(meta, postId)) then
      var g := GenerateDownloadLink(postId, meta, w.permalink, w.basename, w.uploads, w.pdf);
      if Truthy(g.error) then
        Sent(g.error, Some(g), None, g.meta)
      else
        Sent(if w.mailSent then None else Some(MailError), Some(g),
             Some(DownloadMail(email, StoredUrl(g.meta, postId), w)), g.meta)
    else
      Sent(if w.mailSent then None else Some(MailError), None,
           Some(DownloadMail(email, StoredUrl(meta, postId), w)), meta)
  }

  /** The JSON envelope `wp_send_json_success` / `wp_send_json_error` sends. */
  datatype Response = Response(success: bool, data: string)

  datatype Submitted = Submitted(response: Response, sent: Option<Sent>)

  /** `submitLeadbox`; each `wp_send_json_*` call ends the request. */
  function SubmitLeadbox(nonceOk: bool, email: string, postId: int, meta: map<int, string>, w: World): Submitted {
    if !nonceOk then
      Submitted(Response(false, NoPermission), None)
    else
      var s := SendDownloadEmail(email, postId, meta, w);
      if Truthy(s.error) then Submitted(Response(false, s.error.value), Some(s))
      else Submitted(Response(true, Thanks), Some(s))
  }

  // ----- the error chain -----

  /** A failed subscription is returned as it is; nothing is generated or mailed. */
  lemma SubscriberErrorStops(email: string, postId: int, meta: map<int, string>, w: World)
    requires !JsonTruthy(w.resultCode)
    ensures SendDownloadEmail(email, postId, meta, w) == Sent(AddSubscriber(w.resultCode), None, None, meta)
    ensures SendDownloadEmail(email, postId, meta, w).error == Some(SubscribeError)
  {
  }

  /** Without a stored link, a failed generation is returned as it is and no mail goes out. */
  lemma GenerationErrorStops(email: string, postId: int, meta: map<int, string>, w: World)
    requires JsonTruthy(w.resultCode) && !StringTruthy(StoredUrl(meta, postId))
    requires GenerateDownloadLink(postId, meta, w.permalink, w.basename, w.uploads, w.pdf).error.Some?
    ensures SendDownloadEmail(email, postId, meta, w).error
            == GenerateDownloadLink(postId, meta, w.permalink, w.basename, w.uploads, w.pdf).error
    ensures SendDownloadEmail(email, postId, meta, w).mail.None?
    ensures SendDownloadEmail(email, postId, meta, w).meta == meta
  {
  }

  /** The link a successful chain mails: the stored one, or else the freshly generated one. */
  function LinkToMail(postId: int, meta: map<int, string>, w: World): string {
    if StringTruthy(StoredUrl(meta, postId)) then StoredUrl(meta, postId)
    else PdfLocation(w.uploads.url, w.basename)
  }

  /** The chain reached the mail: the subscription worked and a link exists or was made. */
  predicate ReachesMail(postId: int, meta: map<int, string>, w: World) {
    JsonTruthy(w.resultCode) &&
    (StringTruthy(StoredUrl(meta, postId)) ||
     GenerateDownloadLink(postId, meta, w.permalink, w.basename, w.uploads, w.pdf).error.None?)
  }

  /**
   * The outcome of `sendDownloadEmail`: false exactly when subscription, link
   * and mail all succeed; a mail goes out exactly when the first two do, to the
   * visitor, carrying the link; and every error it returns is a true value.
   */
  lemma SendDownloadEmailOutcome(email: string, postId: int, meta: map<int, string>, w: World)
    ensures var s := SendDownloadEmail(email, postId, meta, w);
      && (s.error.None? <==> ReachesMail(postId, meta, w) && w.mailSent)
      && (s.error.Some? ==> Truthy(s.error))
      && (ReachesMail(postId, meta, w) && !w.mailSent ==> s.error == Some(MailError))
      && (s.mail.Some? <==> ReachesMail(postId, meta, w))
      && (s.mail.Some? ==> s.mail.value == DownloadMail(email, LinkToMail(postId, meta, w), w))
      && (s.generated.Some? <==> JsonTruthy(w.resultCode) && !StringTruthy(StoredUrl(meta, postId)))
      && (s.generated.Some? ==> s.generated.value == GenerateDownloadLink(postId, meta, w.permalink, w.basename, w.uploads, w.pdf))
      && (ReachesMail(postId, meta, w) ==> s.meta == (if StringTruthy(StoredUrl(meta, postId)) then meta
                                                      else meta[postId := PdfLocation(w.uploads.url, w.basename)]))
  {
    var g := GenerateDownloadLink(postId, meta, w.permalink, w.basename, w.uploads, w.pdf);
    if g.error.None? {
      assert StoredUrl(g.meta, postId) == PdfLocation(w.uploads.url, w.basename);
    }
  }

  /** A nonce failure answers "No permission." and does nothing else. */
  lemma BadNonceRejected(email: string, postId: int, meta: map<int, string>, w: World)
    ensures SubmitLeadbox(false, email, postId, meta, w) == Submitted(Response(false, NoPermission), None)
  {
  }

  /** With a valid nonce the response reports the chain's outcome, its error message or the thanks. */
  lemma SubmitReportsOutcome(email: string, postId: int, meta: map<int, string>, w: World)
    ensures var r := SubmitLeadbox(true, email, postId, meta, w);
      && r.sent == Some(SendDownloadEmail(email, postId, meta, w))
      && (r.response.success <==> ReachesMail(postId, meta, w) && w.mailSent)
      && (r.response.success ==> r.response.data == Thanks)
      && (!r.response.success ==> Some(r.response.data) == SendDownloadEmail(email, postId, meta, w).error)
  {
    SendDownloadEmailOutcome(email, postId, meta, w);
  }

  /**
   * A visitor asking for a post that already has its PDF link gets one mail
   * holding that link, for any template with a `{{ pdf }}` placeholder, and the
   * thank-you response.
   */
  lemma StoredLinkIsMailed(email: string, postId: int, meta: map<int, string>, w: World)
    requires JsonTruthy(w.resultCode) && w.mailSent
    requires postId in meta && StringTruthy(meta[postId])
    requires Message.Contains(w.template, Message.PdfTag)
    ensures var r := SubmitLeadbox(true, email, postId, meta, w);
      && r.response == Response(true, Thanks)
      && r.sent.Some? && r.sent.value.generated.None? && r.sent.value.mail.Some?
      && r.sent.value.mail.value.to == email
      && Message.Contains(r.sent.value.mail.value.body, meta[postId])
  {
    Message.FormatMessageCarriesLink(w.template, w.siteUrl, w.title, meta[postId]);
  }
}
