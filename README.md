# FluentU Leadbox, modelled in Dafny

FluentU Leadbox is a WordPress plugin. It replaces the old Easy Leadbox
shortcodes in blog posts with a "get a PDF copy of this post" call-to-action
snippet. It also handles the form that call-to-action opens:

- the visitor's address is added to an ActiveCampaign list;
- a PDF of the post is produced through PrintFriendly and stored in the
  uploads directory, unless its link is already in the post metadata;
- the link is mailed to the visitor.

This project models the plugin's decision logic in `fluentu-leadbox.php` as
pure Dafny functions over explicit inputs. WordPress, PHP and the web
services become parameters:

- the single-view test, `$_GET['output']` and the snippet and mail template
  files;
- the insert point, the permalink and its basename, and the uploads
  directory;
- what PrintFriendly, ActiveCampaign, `update_post_meta` and `wp_mail` answer.

The project proves properties of these functions.

Modules:

- `Wrappers`: `Option`.
- `Text`: line breaks, ASCII case folding, counting a character.
- `Php`: PHP truthiness of strings, optional values and `strpos` results.
- `Scan`: one scanner for both `preg_replace` with the shortcode pattern
  `/\[easyleadbox id=[^\n\r]+\]/` and `str_replace` with a literal needle.
  - The scan is leftmost, non-overlapping and greedy. For the shortcode,
    greedy means the match runs to the last `]` on its line.
  - `Tokens` splits a text into kept characters and matches.
  - `Replace` renders the tokens with the replacement text.
  - `LeftmostLongest` is an independent, declarative description of such a
    split. It is proved to hold of `Tokens`, and to be satisfied by no other
    split.
- `LinkSnippet`: `insertLinkSnippet` (fluentu-leadbox.php:110-129).
- `Message`: `formatMessage` (fluentu-leadbox.php:227-235). It is compared
  with a typed reading of the template as text pieces and placeholders.
- `DownloadLink`: `generateDownloadLink` (fluentu-leadbox.php:74-101). This
  covers the query suffix, `trailingslashit`, the PDF path and URL, and the
  result over the service outcomes.
- `Submission`: `addSubscriber`, `sendDownloadEmail` and `submitLeadbox`
  (fluentu-leadbox.php:148-218). Each is a chain of "error message or
  false" results that stops at the first error.

## Model

| member | source | states |
|---|---|---|
| Scan.ShortcodeLength | fluentu-leadbox.php:120 | the length of the greedy shortcode match at the start of a text: `[easyleadbox id=`, at least one character that is not CR or LF, and the last `]` reachable on that line; no longer match exists, and None exactly when no match starts there |
| Scan.MatchLength | fluentu-leadbox.php:128 | for either pattern, the longest non-empty match at the start of a text, or None when none starts there; a literal needle matches only itself, and the empty needle matches nothing |
| Scan.TokensCover | fluentu-leadbox.php:114 | the scan splits the text into kept characters and matches that, joined in order, give back the whole text, so no text outside a match is lost or reordered |
| Scan.TokensLeftmostLongest | fluentu-leadbox.php:120 | the scan's split is leftmost, non-overlapping and greedy: no match starts at a kept character, and each match is the longest at its position |
| Scan.LeftmostLongestUnique | fluentu-leadbox.php:120 | any split of a text that is leftmost, non-overlapping and greedy is the scan's split, so the replacement is fully determined |
| Scan.MatchesSomewhereMeans | fluentu-leadbox.php:114 | "the pattern matches somewhere" holds exactly when some start index and length form a match |
| Scan.ReplaceWithoutMatch | fluentu-leadbox.php:122-123 | where the pattern matches nowhere, replacing returns the text unchanged |
| Scan.ReplaceSkipsPrefix | fluentu-leadbox.php:230-232 | a prefix in which no match starts passes through the replacement unchanged |
| LinkSnippet.FindMarker | fluentu-leadbox.php:124 | the first index at or after a position where the insert point occurs ignoring ASCII case, with no occurrence before it; None when there is none |
| LinkSnippet.InsertAtMarker | fluentu-leadbox.php:123-124 | with no occurrence of the insert point the text is unchanged; otherwise the first occurrence, whatever its case, becomes the snippet followed by the insert point as written, and everything before and after is kept |
| LinkSnippet.ReplaceDropsBrackets | fluentu-leadbox.php:120 | replacing shortcodes by a text without `[` never adds a `[`, and removes at least one when a shortcode is present |
| LinkSnippet.ShortcodeReplacementChanges | fluentu-leadbox.php:122 | with such a snippet, content holding a shortcode always differs after the replacement, so the insert-point branch is not taken |
| LinkSnippet.DeletionCreatesNoMatch | fluentu-leadbox.php:113-114 | a shortcode at the start of a text followed by deleted shortcodes was already there before the deletion: a deleted greedy match cannot be followed, on its line, by a closing `]` |
| LinkSnippet.DeletionLeavesNoShortcode | fluentu-leadbox.php:114 | deleting every shortcode leaves a text in which the pattern matches nowhere |
| LinkSnippet.DeletionIsIdempotent | fluentu-leadbox.php:112-114 | deleting shortcodes from an already cleaned text changes nothing |
| LinkSnippet.OffSingleViewOnlyDeletes | fluentu-leadbox.php:112-115 | off single views, or whenever `$_GET['output']` is a true value, the result is the content with every shortcode deleted: no shortcode is left, the snippet and insert point play no part, `&nbsp;` is kept, and content without a shortcode comes back unchanged |
| LinkSnippet.SingleViewReplacesShortcodes | fluentu-leadbox.php:117-125 | on a single view with a shortcode, each shortcode becomes the snippet and `&nbsp;` is then removed; the insert point plays no part, so the snippet is never both substituted and inserted |
| LinkSnippet.SingleViewInsertsAtMarker | fluentu-leadbox.php:122-128 | on a single view without a shortcode, the snippet is placed before the first case-insensitive occurrence of the insert point, which takes the insert point's own casing, and `&nbsp;` is removed; with no occurrence only the `&nbsp;` removal happens |
| LinkSnippet.StripWithoutNbspIsIdentity | fluentu-leadbox.php:128 | the cleanup leaves a text without `&nbsp;` unchanged |
| LinkSnippet.StripIsSinglePass | fluentu-leadbox.php:127-128 | the cleanup is a single left-to-right pass: `&nb&nbsp;sp;` becomes `&nbsp;` |
| Message.ReplacePassFills | fluentu-leadbox.php:231 | one replace pass over a template of brace-free text and placeholders replaces exactly the placeholders of its field, for a value without `{` |
| Message.FormatMessageFillsPlaceholders | fluentu-leadbox.php:227-235 | for such a template and values without `{`, the message is the template with each placeholder replaced by its value, and no `{` or placeholder is left |
| Message.OtherPassKeepsPdfTag | fluentu-leadbox.php:230-231 | a `{{ pdf }}` placeholder in any text survives the `{{ url }}` and `{{ title }}` passes, whatever values they put in, since the placeholders cannot overlap |
| Message.PassPutsValue | fluentu-leadbox.php:232 | a pass over a text that holds its placeholder somewhere puts its value in |
| Message.FormatMessageCarriesLink | fluentu-leadbox.php:227-234 | for every template holding `{{ pdf }}` and any site URL, title and link, the message contains the download link |
| Message.LaterPassesSeeEarlierValues | fluentu-leadbox.php:230-231 | the passes run in a fixed order over each other's output: a site URL that reads `{{ title }}` ends up as the title |
| Php.StrPos | fluentu-leadbox.php:77 | the index of the first occurrence of a character, or None exactly when it does not occur |
| DownloadLink.QuerySuffix | fluentu-leadbox.php:76-77 | the suffix is `&output=pdf` exactly when the permalink has a `?` after its first character, since `strpos` returning 0 is false, and `?output=pdf` otherwise |
| DownloadLink.TrailingSlashIt | fluentu-leadbox.php:78 | WordPress `trailingslashit`: the text without its trailing `/` and `\` characters, followed by a single `/` |
| DownloadLink.PdfLocation | fluentu-leadbox.php:78-79 | the PDF path and URL are a prefix of the uploads directory that ends in no slash and is followed in the directory only by slashes, then `/`, the permalink's basename and `.pdf` |
| DownloadLink.GenerateDownloadLink | fluentu-leadbox.php:74-101 | the permalink with its suffix is sent for conversion; the download into the uploads path is asked for exactly when the status is `success`; the result is false exactly when the status is `success` and the metadata write succeeds, and then the post's metadata holds the PDF URL; otherwise the metadata is unchanged and the result is `Could not save PDF` after a download, or `Could not generate download link for ` plus the permalink |
| DownloadLink.FailedDownloadGoesUnnoticed | fluentu-leadbox.php:92-97 | `wp_safe_remote_get` answers with the response parts or a `WP_Error`, both true values, so with a `success` status a failed download still stores the PDF URL and reports no error |
| Submission.AddSubscriber | fluentu-leadbox.php:187 | false exactly when the decoded `result_code` is a true PHP value; otherwise `Contact could not be added` |
| Submission.SubscriberErrorStops | fluentu-leadbox.php:199-201 | a subscription error is returned unchanged, with no generation and no mail |
| Submission.GenerationErrorStops | fluentu-leadbox.php:203-209 | without a stored link, a generation error is returned unchanged, no mail is sent and the metadata is unchanged |
| Submission.SendDownloadEmailOutcome | fluentu-leadbox.php:197-218 | false exactly when subscription and link succeed and `wp_mail` does; when subscription and link succeed but `wp_mail` fails, the result is `Email could not be sent`; every error returned is a true value; a mail is handed to `wp_mail` exactly when subscription and link succeed, addressed to the visitor, with subject `Download ` plus the title and the formatted message for the stored or freshly generated link; generation runs exactly when the subscription worked and no link was stored, and it is the `generateDownloadLink` run for the post; when the mail is reached, the metadata is unchanged if a link was stored and otherwise holds the new PDF URL for the post |
| Submission.BadNonceRejected | fluentu-leadbox.php:150-153 | a nonce failure answers `No permission.` and nothing else happens |
| Submission.SubmitReportsOutcome | fluentu-leadbox.php:155-159 | with a valid nonce, the response is success with the thanks exactly when the chain returns false, and otherwise failure with the chain's error message |
| Submission.StoredLinkIsMailed | fluentu-leadbox.php:148-160 | for a post with a stored link, a working subscription and mail, any template holding a `{{ pdf }}` placeholder and any site URL and title: the answer is the thanks, nothing is generated, and the visitor gets a mail holding the stored link |

## Left out

- HTTP calls to PrintFriendly and ActiveCampaign, JSON decoding and file streaming are not modelled. They are I/O. Their outcomes are inputs: the decoded `status`, `file_url` and `result_code`, and the download's answer (response parts or an error object).
- `get_permalink`, `basename`, `wp_get_upload_dir`, `get_site_url`, `get_the_title`, `is_single` and the template and snippet files are inputs. They are WordPress or file-system calls.
- The post metadata is a map from post id to `pdf_download_url`, with "" for a missing entry. `update_post_meta` success is an input, so its false answer for an unchanged value is part of that input.
- `wp_mail` is an input boolean. The mail headers are not modelled.
- Hook registration, script enqueueing and `modalMarkup` are not modelled. They are host-framework plumbing.
- js/scripts.js is not part of this model. It is browser UI.
- `check_ajax_referer` is an input boolean. It is nonce cryptography.
- `wp_send_json_*` is modelled as the final response. Each call ending the request becomes an early return.
- `__()` translation is the identity. No translation files are modelled.
- The coercion of `$_POST['post']` to the `int $post_id` parameter of `sendDownloadEmail` is not modelled, nor the type error PHP 8 raises for a non-numeric value. The email address and post id are parameters.
- `$_GET['output']` is modelled as absent or a string. An array value, true when non-empty, is not among its values.
- The configuration constants are not modelled. The config files define an array `INSERT_POINTS`, but the code reads a single `INSERT_POINT`. The model follows the code: the insert point is one string parameter, and no scan over several markers is modelled.
- LinkSnippet.InsertAtMarker treats the insert point as literal text. The plugin uses it as a regular expression, which is the same only for insert points without metacharacters.
- Case-insensitive matching folds ASCII letters only, as PCRE does without the `u` flag.
- The snippet is a literal replacement. PHP `preg_replace` would expand `$1`, `\1` and `${1}` in it.
- PCRE's backtracking limit and `preg_replace` returning null are not modelled.
- JSON floats, arrays and objects are not modelled among the decoded values.
- LinkSnippet.SingleViewReplacesShortcodes requires a snippet without `[`. With such a snippet, replacing a shortcode always changes the content. A snippet that reproduces the shortcode it replaces would leave the content unchanged, and the plugin would then also insert at the insert point.
- Message.FormatMessageFillsPlaceholders is stated only for templates made of text without `{` and placeholders, with values without `{`. For other inputs a placeholder can form or remain across a replacement boundary.
- LinkSnippet.StripIsSinglePass: the plugin's `&nbsp;` cleanup is not idempotent. That is shown here by the single-pass example, not claimed as an error.
