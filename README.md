# Gmail integration of the CRM back end, modelled in Dafny

This project models the part of the CRM back end that talks to Gmail.

- **Reading mail.** An inbound message payload is a tree of MIME parts. Its
  HTML body, plain body, first body and attachment list are found in it. Its
  header list is folded into a map keyed by lower-cased name. Base64url data is
  decoded the way PHP's lenient `base64_decode` does it.
- **Writing mail.** `EmailController::sendEmail` builds a raw Internet message
  (RFC 5322) from header lines, with a multipart/mixed body (RFC 2046) when
  there are attachments. The message is base64-encoded and handed to the API.
  `GoogleMailController::sendEmail` builds a three-field message and encodes
  it as unpadded base64url (section 5 of RFC 4648).
- **Bulk sending.** Leads are processed in batches. Each lead gets a
  personalised subject and body (`{{placeholder}}` replacement via
  `str_replace`). The delay grows by one for every send that returned. The
  success and failure lists are reported.
- **Tokens.** `GoogleService` refreshes a stored credential that has no expiry
  or expires within 300 seconds. On `invalid_grant` it marks the credential
  disconnected. It hands out a client only after a successful refresh, and
  its connection check reports on both. `GoogleMailController` stores the
  OAuth callback's tokens and refreshes the access token when the client
  reports the token expired.
- **Campaigns.** `EmailCampaign` decides which statuses allow cancelling or
  editing and which count as active. `updateStats` recomputes the counters and
  closes a finished campaign. The progress percentage is defined as 0 when
  there are no recipients.

Modelling choices:

- **Strings.** PHP strings are byte sequences (`PhpString.bytes`). PHP
  truthiness (`""` and `"0"` are false) is modelled exactly, by
  `PhpString.Truthy`.
- **State.** The credential table is a class (`GoogleService.ProviderTable`)
  whose `rows` map, keyed by (user id, provider), the methods update in place.
  A campaign is a class whose counters `UpdateStats` rewrites.
- **Inputs.** Whatever Google, the clock, `uniqid`, the file system,
  `getSenderEmail` and the database return is given as a parameter.
- **Proof style.** Each loop of the source is a method, proved against a
  specification function. The properties are lemmas about those functions:
  - read-back round trips for the messages written: the header fields and
    the body parse back; a multipart body splits back at its boundary into
    the body part and one part per attachment (when the boundary occurs in
    none of the texts carried), and each part parses back; every base64
    payload decodes back (decode(encode));
  - first-match and exact-membership characterisations for the payload walks;
  - which credential fields each token operation changes;
  - counting facts for the bulk and campaign accounting.

## Model

| member | source | states |
|---|---|---|
| InboundMessage.GetBodyByMimeType | app/Http/Controllers/EmailController.php:134-160 | The nested loops return the decoded data of the root when it has the type and data, else of the first child or grandchild in visiting order that has them; '' when none does |
| InboundMessage.FindByMimeTypeIsFirst | app/Http/Controllers/EmailController.php:134-160 | The part decoded is the first part of the requested type with truthy data in the order root, child 1, its children, child 2, ...; nothing is found exactly when no part in that order matches |
| InboundMessage.FindInChildren | app/Http/Controllers/EmailController.php:150-154 | The inner loop over a child's sub-parts finds the first sub-part that matches, or none |
| InboundMessage.BodyAtChild | app/Http/Controllers/EmailController.php:143-145 | When no earlier part matched and child i matches, the body is child i's decoded data |
| InboundMessage.BodyAtGrandchild | app/Http/Controllers/EmailController.php:148-154 | When no earlier part matched, child i does not, and sub-part j is the first match among its children, the body is that sub-part's decoded data |
| InboundMessage.BodyFoundAt | app/Http/Controllers/EmailController.php:134-160 | A leaf with the type and non-empty content that comes first among matching parts gives back exactly that content |
| InboundMessage.PlainAndHtmlBodies | app/Http/Controllers/EmailController.php:118-129 | In a mixed message holding a plain leaf and a related container holding an HTML leaf, getPlainBody and getHtmlBody give back the two texts |
| InboundMessage.DeeperPartsIgnored | app/Http/Controllers/EmailController.php:134-200 | Parts below the grandchildren change neither the body found, nor the attachment list, nor hasAttachments |
| InboundMessage.VisitMembers | app/Http/Controllers/EmailController.php:142-156 | The visiting order holds exactly the children and grandchildren |
| InboundMessage.GetMessageBody | app/Http/Controllers/EmailController.php:97-113 | The result is the root's decoded data when truthy, else the decoded data of the first child with truthy data, else '' |
| InboundMessage.MessageBodyReadsOnlyData | app/Http/Controllers/EmailController.php:97-113 | getMessageBody depends only on the data of the root and of its children; types, file names and grandchildren play no part |
| InboundMessage.GetAttachments | app/Http/Controllers/EmailController.php:165-200 | The list built is the metadata of every child and grandchild with a truthy file name and attachment id, in visiting order |
| InboundMessage.AppendChildAttachments | app/Http/Controllers/EmailController.php:184-196 | The inner loop appends the entries of a child's attachment sub-parts, in order, to what was collected before |
| InboundMessage.AttachmentsExactly | app/Http/Controllers/EmailController.php:165-200 | An entry is in the list exactly when some child or grandchild is an attachment with that metadata; a payload without parts has none |
| InboundMessage.AttachmentsOfMembers | app/Http/Controllers/EmailController.php:174-197 | An entry is in the list of a part sequence exactly when some attachment part in it has that metadata |
| InboundMessage.CheckHasAttachments | app/Http/Controllers/EmailController.php:828-852 | The loops return true exactly when some child or grandchild has a truthy file name |
| InboundMessage.AttachmentsImplyHasAttachments | app/Http/Controllers/EmailController.php:828-852 | A non-empty attachment list implies hasAttachments |
| InboundMessage.HasAttachmentsWithoutAttachments | app/Http/Controllers/EmailController.php:837 | The converse fails: a named child without an attachment id makes hasAttachments true while getAttachments lists nothing |
| InboundMessage.EncodedDataTruthy | app/Http/Controllers/EmailController.php:99 | The base64url form of non-empty content is truthy, so a part carrying content is never skipped as empty |
| InboundMessage.FirstHitAt | app/Http/Controllers/EmailController.php:142-156 | Index k is the first hit exactly when it hits and no earlier index does |
| InboundHeaders.FoldHeaders | app/Http/Controllers/EmailController.php:55-58 | The foreach loop builds the map that folds the headers in order under their lower-cased names |
| InboundHeaders.HeaderMapLastWins | app/Http/Controllers/EmailController.php:55-58 | A key is in the map exactly when some header's lower-cased name is the key, and its value is that of the last such header |
| InboundHeaders.HeaderKeysLowerCase | app/Http/Controllers/EmailController.php:57 | Every key of the map is already lower case |
| InboundHeaders.GetEmailDetails | app/Http/Controllers/EmailController.php:51-92 | The details carry id, thread id, the subject, from, to, cc, bcc and date looked up with default '', the message body, the HTML and plain bodies, the attachments, the labels and the snippet |
| InboundHeaders.FormatMessage | app/Http/Controllers/EmailController.php:782-813 | The summary reads the same headers with '(No Subject)' as the subject default, and hasAttachments of the payload |
| InboundHeaders.LookupLastHeader | app/Http/Controllers/EmailController.php:800-806 | Looking a key up in the header map gives the value of the last header whose lower-cased name is that key, and the default when no header has that name in any case |
| InboundHeaders.LaterHeaderWins | app/Http/Controllers/EmailController.php:787-789 | Of "SUBJECT" and a later "Subject", the later value is the one reported |
| Base64.UrlSafeDecode | app/Http/Controllers/EmailController.php:606-609 | Data without '-' and '_' is decoded exactly as base64_decode decodes it |
| Base64.DecodeEncode | app/Http/Controllers/EmailController.php:606-609 | base64_decode inverts base64_encode on every byte string |
| Base64.UrlSafeRoundTrip | app/Http/Controllers/EmailController.php:606-609 | The url-safe form, padded or with its '=' trimmed as the Gmail API sends it, decodes back to the raw bytes |
| Base64.StandardFormUrlSafeDecodes | app/Http/Controllers/EmailController.php:606-609 | Data in the standard alphabet also decodes back, the same as its url-safe unpadded form |
| Base64.ChunkedRoundTrip | app/Http/Controllers/EmailController.php:1252 | base64_decode ignores the line breaks chunk_split inserts, so a chunked attachment decodes back to its bytes |
| Base64.DecodeSkipsTrailingLineBreak | app/Http/Controllers/EmailController.php:1252 | A trailing CRLF does not change what base64_decode returns |
| Base64.Encode | app/Http/Controllers/EmailController.php:1260 | base64_encode output is four symbols for every started group of three bytes |
| Base64.EncodeIsEncoded | app/Http/Controllers/EmailController.php:1260 | base64_encode output consists of alphabet symbols followed by at most two '=' |
| Base64.EncodedPaddingAtEnd | app/Http/Controllers/GoogleMailController.php:114 | '=' occurs only in the last two positions, and a '=' second to last is followed by another |
| Base64.EncodeUnpaddedUrlSafe | app/Http/Controllers/GoogleMailController.php:114 | rtrim(strtr(base64_encode(raw), '+/', '-_'), '=') is the url-safe encoding with at most two trailing symbols dropped, and holds no '+', '/' or '=' |
| Base64.UnpaddedBack | app/Http/Controllers/GoogleMailController.php:114 | Mapping the unpadded url-safe form back to the standard alphabet gives the standard encoding with its padding trimmed |
| Base64.ValueOfSymbol | app/Http/Controllers/EmailController.php:608 | Every alphabet symbol decodes to its own sextet |
| Base64.FromUrlSafeOfToUrlSafe | app/Http/Controllers/EmailController.php:608 | The '-'/'_' to '+'/'/' replacement inverts strtr on any text without '-' and '_' |
| PhpString.ReplaceAllAbsent | app/Http/Controllers/EmailController.php:1324-1328 | str_replace leaves a text without an occurrence of the search string unchanged |
| PhpString.ReplaceAllAtStart | app/Http/Controllers/EmailController.php:1324-1328 | An occurrence at the start is replaced and the scan resumes after it |
| PhpString.ReplaceAllPrefix | app/Http/Controllers/EmailController.php:1324-1328 | A prefix free of the search's first element passes through str_replace unchanged |
| PhpString.ReplacePairsAppend | app/Http/Controllers/EmailController.php:1324-1328 | str_replace with arrays applies the pairs one after another, each over the whole result |
| PhpString.FirstWord | app/Http/Controllers/EmailController.php:1318 | explode(' ', name)[0] is the longest space-free prefix, ending at the first space or at the end |
| PhpString.LowerIdempotent | app/Http/Controllers/EmailController.php:57 | strtolower applied twice is strtolower once |
| PhpString.TrimRight | app/Http/Controllers/GoogleMailController.php:114 | rtrim(s, c) is the prefix of s after which only c follows, and which does not itself end in c |
| PhpString.ChunkSplitLines | app/Http/Controllers/EmailController.php:1252 | chunk_split(s) is s cut into 76-byte lines (the last possibly shorter), each followed by CRLF |
| PhpString.Chunks | app/Http/Controllers/EmailController.php:1252 | The chunks concatenate back to s, and all but the last are exactly 76 bytes long |
| PhpString.JoinThenTerminate | app/Http/Controllers/EmailController.php:1240 | implode("\r\n", lines) followed by "\r\n" is every line terminated by CRLF |
| MimeText.ParseCompose | app/Http/Controllers/EmailController.php:1240 | A message composed of well-formed header fields and any body reads back as exactly those fields, in order, and that body |
| MimeText.JoinedHeaders | app/Http/Controllers/EmailController.php:1240 | implode of the header lines plus "\r\n\r\n" places the body after an empty line |
| OutgoingMessage.BuildHeaders | app/Http/Controllers/EmailController.php:1216-1238 | The header list is From, To, Subject, Content-Type, then Cc and Bcc when non-empty, then MIME-Version and the multipart Content-Type when there are attachments; a boundary exists exactly when there are attachments |
| OutgoingMessage.BuildRawMessage | app/Http/Controllers/EmailController.php:1240-1258 | The raw message is the joined headers, an empty line and the body, or the multipart body when there are attachments |
| OutgoingMessage.AppendMultipart | app/Http/Controllers/EmailController.php:1242-1255 | The appends produce the delimiter, the body part, one section per attachment and the close delimiter "--boundary--" |
| OutgoingMessage.AppendBodyPart | app/Http/Controllers/EmailController.php:1243-1245 | The first part is the delimiter, a Content-Type line, an empty line, the body and two CRLFs |
| OutgoingMessage.AppendSections | app/Http/Controllers/EmailController.php:1247-1253 | The attachment loop appends one delimited section per attachment, in order |
| OutgoingMessage.AppendAttachment | app/Http/Controllers/EmailController.php:1248-1252 | One iteration appends the delimiter and the attachment's part |
| OutgoingMessage.SendEmail | app/Http/Controllers/EmailController.php:1201-1305 | Without a client the authentication error is returned and nothing is sent; otherwise the base64 of the raw message is sent after a pause of the delay when positive, giving the message id, or "Google API error: " or "Failed to send email: " with the message |
| OutgoingMessage.RawMessageReadsBack | app/Http/Controllers/EmailController.php:1216-1258 | With no CR in the caller's values the raw message reads back as exactly its header fields and then the body, the body verbatim when there are no attachments |
| OutgoingMessage.HeaderFieldsGood | app/Http/Controllers/EmailController.php:1218-1238 | When the caller's values hold no CR every header line is a well-formed field |
| OutgoingMessage.HeaderLayout | app/Http/Controllers/EmailController.php:1218-1238 | The first four fields are From, To (list joined with ", "), Subject and Content-Type; there is one Cc and one Bcc field exactly when those lists are non-empty, one MIME-Version and a second Content-Type exactly with attachments, and those two come last |
| OutgoingMessage.LayoutCount | app/Http/Controllers/EmailController.php:1218-1238 | How often a name occurs among the header fields, block by block |
| OutgoingMessage.NamesDistinct | app/Http/Controllers/EmailController.php:1218-1237 | The header names written differ from one another |
| OutgoingMessage.BodyPartReadsBack | app/Http/Controllers/EmailController.php:1244-1245 | The body part reads back as one Content-Type field followed by the body text and two CRLFs |
| OutgoingMessage.AttachmentPartReadsBack | app/Http/Controllers/EmailController.php:1249-1252 | An attachment part reads back as its three fields and a payload of 76-column base64 lines that decodes to the attachment's bytes |
| MultipartSplit.SplitDelimited | app/Http/Controllers/EmailController.php:1242-1255 | Parts that hold no delimiter and do not end in a byte of it, joined by "--boundary" CRLF lines and closed by "--boundary--", split back into exactly those parts, in order |
| MultipartSplit.MultipartSplits | app/Http/Controllers/EmailController.php:1242-1255 | With a boundary of letters, digits and '_' that occurs in neither the body nor any attachment's MIME type or client name, the multipart body splits back into the body part and one part per attachment, in order |
| MultipartSplit.AttachmentMessageReadsBack | app/Http/Controllers/EmailController.php:1216-1258 | A message with attachments reads back as its header fields and multipart body; the body splits into one part more than there are attachments; the first parses as one Content-Type field over the body text, part i + 1 as attachment i's three fields over a payload that decodes to its content |
| MultipartSplit.BodyPartAvoids | app/Http/Controllers/EmailController.php:1243-1245 | The body part holds no delimiter when the body holds none, and it ends in a byte no delimiter contains |
| MultipartSplit.AttachmentPartAvoids | app/Http/Controllers/EmailController.php:1248-1252 | An attachment part holds no delimiter when its MIME type and client name hold none, and it ends in a byte no delimiter contains |
| MultipartSplit.PayloadAvoids | app/Http/Controllers/EmailController.php:1252 | chunk_split(base64_encode(content)) holds no '-', so no delimiter |
| MultipartSplit.BoundaryWordBytes | app/Http/Controllers/EmailController.php:1235 | uniqid('boundary_') is made of letters, digits and '_' when its unique part is |
| GoogleService.ProviderTable.RefreshTokenIfNeeded | app/Services/GoogleService.php:16-87 | The call's result and the new table are those of Refresh on the old table |
| GoogleService.Refresh | app/Services/GoogleService.php:16-87 | Only the user's row may change; success needs a stored refresh token; a credential valid for more than five minutes is left as is; a failure leaves the table unchanged except for marking the row disconnected on invalid_grant; an answer without access_token or without expires_in fails |
| GoogleService.NoCredential | app/Services/GoogleService.php:23-26 | Without a stored credential the refresh fails and nothing changes |
| GoogleService.NoRefreshTokenFails | app/Services/GoogleService.php:28-31 | Without a truthy refresh token the refresh fails and nothing changes |
| GoogleService.ValidTokenIdempotent | app/Services/GoogleService.php:34-41 | A token valid for more than five minutes is reported valid without a change, so a second call gives the same result |
| GoogleService.MissingExpiryExchanges | app/Services/GoogleService.php:34 | A credential with no expiry is always exchanged |
| GoogleService.ExchangeUpdatesRow | app/Services/GoogleService.php:48-70 | A granted exchange stores the new access token and now + expires_in, keeps the old refresh token when no new one comes, and leaves the other fields alone |
| GoogleService.MissingLifetimeFails | app/Services/GoogleService.php:59-86 | An answer with access_token but no expires_in fails with the table unchanged, the same outcome as an exception without invalid_grant, since the unchecked index throws and is caught |
| GoogleService.UndefinedKeyIsNoInvalidGrant | app/Services/GoogleService.php:80 | The missing-key exception's message does not mention invalid_grant, so it does not disconnect the row |
| GoogleService.MissingAccessTokenFails | app/Services/GoogleService.php:53-56 | An answer without access_token fails and changes nothing |
| GoogleService.ExceptionKeepsTokens | app/Services/GoogleService.php:72-86 | An exception fails and keeps the tokens and expiry; the row becomes disconnected exactly when the message contains invalid_grant or it already was |
| GoogleService.RenewedTokenIsValid | app/Services/GoogleService.php:34-63 | After a successful exchange, a refresh at any time more than five minutes before the new expiry succeeds without a change |
| GoogleService.ProviderTable.GetAuthenticatedClient | app/Services/GoogleService.php:92-110 | The table after the refresh, and a client token only when the refresh succeeded and the re-read row has a truthy access token |
| GoogleService.ClientToken | app/Services/GoogleService.php:98-109 | A token is handed out exactly when the refresh succeeded and the row has a truthy access token, and it is that token |
| GoogleService.ClientNeedsRefreshAndToken | app/Services/GoogleService.php:94-104 | A client comes only after a successful refresh and with a truthy token; a failed refresh gives none |
| GoogleService.ProviderTable.CheckConnection | app/Services/GoogleService.php:218-290 | The status and the new table are those of Check: no credential, a failed refresh, or a failed user-info call each report disconnected with their message; otherwise connected with the stored email and expiry |
| GoogleService.CheckNeedsRefresh | app/Services/GoogleService.php:245-270 | A failed first refresh always reports disconnected; connected needs a successful refresh, a client from the second and the user info |
| GoogleMail.Callback | app/Http/Controllers/GoogleMailController.php:34-63 | Nothing is stored unless the row is upserted and the user redirected, which happens exactly when the code is non-empty, the answer is no error, holds id_token, access_token and expires_in, and verifying the id token does not throw; no code answers "Authorization failed", an error answer "Token exchange failed", every other failure is an uncaught exception |
| GoogleMail.Upsert | app/Http/Controllers/GoogleMailController.php:50-60 | updateOrCreate keyed by user and provider: the user's row gets the access token, the refresh token or null, and now + expires_in; other rows and an existing row's other fields are kept |
| GoogleMail.CallbackWithoutRefreshToken | app/Http/Controllers/GoogleMailController.php:57 | A callback without a refresh token stores null over any earlier refresh token, after which getAuthorizedClient can never refresh |
| GoogleMail.CallbackReplacesRefreshToken | app/Http/Controllers/GoogleMailController.php:50-60 | A second callback overwrites the refresh token and adds no row |
| GoogleMail.GetAuthorizedClient | app/Http/Controllers/GoogleMailController.php:65-89 | The user's row is replaced by Authorized of it; nothing else changes |
| GoogleMail.AbsoluteExpiryPassed | app/Http/Controllers/GoogleMailController.php:70-78 | Given the stored expiry's Unix time as `expires_in`, the client reports the token expired exactly when no expiry is stored (or one before 30 seconds past the epoch); a row with a stored expiry is then never refreshed, one without is refreshed whenever it has a refresh token |
| GoogleMail.Authorized | app/Http/Controllers/GoogleMailController.php:77-83 | Exactly when the client reports expiry and a truthy refresh token is stored, the access token and expiry are replaced; the refresh token, connection flag and email never change |
| GoogleMail.RefreshTokenNeverRotates | app/Http/Controllers/GoogleMailController.php:80-83 | Any number of refreshes keeps the stored refresh token |
| GoogleMail.SendEmail | app/Http/Controllers/GoogleMailController.php:91-122 | Without a stored credential the not-connected response is given and nothing is sent; otherwise the row is refreshed as getAuthorizedClient does and the unpadded base64url of the three-field message is sent |
| GoogleMail.BuildSimpleRaw | app/Http/Controllers/GoogleMailController.php:109-112 | The raw message is the To, Subject and Content-Type lines, an empty line and the body |
| GoogleMail.SimpleMessageReadsBack | app/Http/Controllers/GoogleMailController.php:109-112 | With no CR in to and subject the message reads back as those three fields and the body; it has no From field |
| GoogleMail.SimpleWireReadsBack | app/Http/Controllers/GoogleMailController.php:114 | The encoded message decodes back to the raw message |
| BulkSend.SendBulkEmails | app/Http/Controllers/EmailController.php:971-1038 | No leads gives the error response and no sends; otherwise every lead is sent in order and the report holds the total, the counts and the success and failure lists |
| BulkSend.ProcessBatch | app/Http/Controllers/EmailController.php:987-1026 | One batch extends the lists, the delay and the calls by exactly the batch's leads |
| BulkSend.RequestsInLeadOrder | app/Http/Controllers/EmailController.php:990-998 | Lead k is sent to its own email with its personalised subject and body and a delay equal to the number of earlier sends that returned |
| BulkSend.CountsAddUp | app/Http/Controllers/EmailController.php:1033-1035 | success_count + failed_count = total_processed |
| BulkSend.SuccessesAreSentLeads | app/Http/Controllers/EmailController.php:1000-1005 | An entry is a success exactly when its lead's send returned success with that message id |
| BulkSend.FailuresAreFailedLeads | app/Http/Controllers/EmailController.php:1009-1025 | An entry is a failure exactly when its lead's send returned failure or threw, with that message |
| BulkSend.DelayCountsReturnedSends | app/Http/Controllers/EmailController.php:1017-1025 | The delay never exceeds the number of earlier leads, equals it when nothing threw, and is smaller once something did |
| Personalize.PersonalizeEmail | app/Http/Controllers/EmailController.php:1310-1314 | With personalisation off the body is returned unchanged |
| Personalize.PersonalizeSubject | app/Http/Controllers/EmailController.php:1334-1338 | With personalisation off the subject is returned unchanged |
| Personalize.EmailExtendsSubject | app/Http/Controllers/EmailController.php:1316-1350 | The body replacements are the subject's three followed by position and location |
| Personalize.PersonalizeTemplate | app/Http/Controllers/EmailController.php:1310-1329 | A template of text and placeholders, rendered and personalised, equals the template filled with the lead's name, first word, company, position and location (absent ones empty), provided the lead's values hold no '{' |
| Personalize.PersonalizeSubjectTemplate | app/Http/Controllers/EmailController.php:1334-1351 | The subject is filled with lead_name, first_name and company only; position and location placeholders stay |
| Personalize.PersonalizeWithoutPlaceholders | app/Http/Controllers/EmailController.php:1310-1351 | A text without '{' comes back unchanged |
| Personalize.EarlierValueReplacedLater | app/Http/Controllers/EmailController.php:1316-1328 | A company name that is itself "{{position}}" is replaced again by the position, as sequential replacement does |
| Personalize.GreetingExample | app/Http/Controllers/EmailController.php:1316-1328 | "Hi {{first_name}} from {{company}}" for "Ana Lee" without a company becomes "Hi Ana from " |
| Personalize.ReplaceSlot | app/Http/Controllers/EmailController.php:1324-1328 | Replacing one placeholder in a rendered template fills exactly that slot |
| Personalize.ReplacePairsRender | app/Http/Controllers/EmailController.php:1324-1328 | The array replacement fills every slot with its value |
| Personalize.BodyNamesDistinct | app/Http/Controllers/EmailController.php:1316-1322 | The five placeholder names are valid and distinct |
| Campaign.EmailCampaign.UpdateStats | app/Models/EmailCampaign.php:84-112 | The counters become the aggregate over the scheduled emails and last_processed_at becomes now; a sending or processing campaign with nothing pending becomes completed at now, any other keeps its status and completed_at; the progress then lies between 0 and 100 |
| Campaign.Aggregate | app/Models/EmailCampaign.php:86-92 | total is the number of scheduled emails, sent and failed the numbers with those statuses |
| Campaign.AggregateCounts | app/Models/EmailCampaign.php:86-92 | The aggregate over all emails counts the whole multiset |
| Campaign.AllSettled | app/Models/EmailCampaign.php:86-97 | sent + failed = total exactly when every email is sent or failed |
| Campaign.Waiting | app/Models/EmailCampaign.php:102-104 | The pending count is 0 exactly when no email is pending, scheduled or processing |
| Campaign.FinishedMeansNothingWaits | app/Models/EmailCampaign.php:106 | A campaign is closed exactly when it is sending or processing and no email waits |
| Campaign.EmailCampaign.ProgressPercentage | app/Models/EmailCampaign.php:117-125 | 0 with no recipients; with consistent counters between 0 and 100; 100 when every recipient is processed |
| Campaign.EmailCampaign.CanBeCancelled | app/Models/EmailCampaign.php:68-71 | A campaign can be cancelled exactly when it is still editable (draft, scheduled) or active |
| Campaign.EmailCampaign.CanBeUpdated | app/Models/EmailCampaign.php:76-79 | A campaign can be edited exactly when it can be cancelled and is not yet sending or processing |
| Campaign.EmailCampaign.IsActive | app/Models/EmailCampaign.php:60-63 | A campaign is active exactly when it can be cancelled and is not a draft |
| Campaign.StatusRules | app/Models/EmailCampaign.php:60-79 | The updatable statuses can be cancelled, and so can the active ones; only scheduled is both active and updatable, only draft cancellable but not active; completed, cancelled and failed allow nothing |
| Campaign.ActiveScope | app/Models/EmailCampaign.php:60-63 | The scope keeps exactly the campaigns whose status is scheduled, sending or processing |

## Left out

- Logging, HTTP responses and status codes, request validation, authorisation
  of the caller, and reading the lead and campaign rows from the database.
  The model starts from the data those yield.
- Google SDK calls are inputs, not modelled code:
  - the token endpoint's answers;
  - `isAccessTokenExpired`;
  - whether `verifyIdToken` throws (its result is not used);
  - the send call's result or exception;
  - the userinfo call.
- `uniqid`, `file_get_contents`, `getSenderEmail` and the clock are
  parameters. `sleep` is the `pause` the sending method reports.
- getSentEmails, getEmailsByUser, the statistics endpoints, sendToLead,
  sendCustomEmail and checkEmailCapability are outside the mail core and not
  modelled. So are extractEmails (a regular expression, reported only as
  `to_emails`) and logEmailSent.
- BulkSend.SendBulkEmails: assumes logEmailSent does not throw. In the source
  an exception there, after the success entry is added, would also add a
  failure entry for the same lead and skip the delay increment.
- GoogleMail.SendEmail: an exception from the send call is left out. It
  escapes the controller uncaught, with no response the model could state.
  The model always reports success once the credential exists.
- GoogleMail.Callback: the source indexes `id_token`, `access_token` and
  `expires_in` without a check. The client asks only for the gmail.send
  scope, with which Google does not normally return an id token. The model
  lets a missing key end the callback uncaught with nothing stored, as the
  source does; the exception itself is not modelled beyond that outcome.
- GoogleMail.GetAuthorizedClient: assumes the refresh answer holds
  access_token and expires_in. The source indexes them without a check.
- GoogleMail.GetAuthorizedClient: whether the client reports the token
  expired is a parameter. The source passes `expires_at?->timestamp ?? 0`,
  an absolute Unix time, as `expires_in` together with `created => time()`,
  while the client library reads `expires_in` as a lifetime in seconds.
  With that library test (created + expires_in - 30 < time(), which is the
  library's code and not part of this model) a stored expiry is never
  reported expired and a missing one always is; GoogleMail.AbsoluteExpiryPassed
  states this. The method itself still takes the report as an input.
- The `connected` update of GoogleService.php:81 is modelled as written. The
  model does not say whether mass-assignment filtering would drop it.
- `expires_at` is modelled as an integer timestamp in seconds, and one `now`
  serves each whole call. Two refreshes inside checkConnection see the same
  clock. The model assumes `expires_at` reads back as a date, through a
  datetime cast that EmailProvider does not declare. As written, a stored
  expiry reads back as a string, and two uncaught errors follow:
  - `->subMinutes(5)` on it (GoogleService.php:34) throws an `Error`, which
    the `catch (\Exception $e)` at :72 does not catch;
  - `?->timestamp` on it (GoogleMailController.php:72) raises a warning,
    which the framework turns into an uncaught ErrorException.
- Campaign.Aggregate: the SQL aggregate is modelled over the sequence of
  statuses. The `?? 0` of the null aggregate on no rows gives the same
  zeros.
- Campaign.EmailCampaign.ProgressPercentage: PHP floating-point division is
  modelled as exact real division. The counters are assumed to be integers.
  The model does not cover a null or string "0" total_recipients (no integer
  cast is declared). Such a value fails the strict `=== 0` test at
  EmailCampaign.php:119, and the division at :124 then throws
  DivisionByZeroError where the model returns 0.
- Header injection is not modelled: values with CR would add header lines.
  The read-back lemmas require values free of CR.
- MultipartSplit.MultipartSplits: the split back requires that the boundary
  occurs in neither the body nor any attachment's MIME type or client name.
  The source does not check this, and a body holding "--" + boundary would
  split at the wrong place. The unique part of `uniqid` (hex digits) is a
  parameter required to be made of letters, digits and '_'.
- PHP's `strtolower` is modelled on ASCII letters only.
