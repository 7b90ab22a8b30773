# Streamline Audit: a verified model of the compliance pipeline

Streamline Audit is a Streamlit application. A requester (the auditor) asks a submitter (the
auditee) for documents. The submitter uploads a file. Amazon Textract extracts its text
lines, and a keyword rule decides whether each requested document is present. When a document
is missing, a Titan model on Bedrock is asked to write a corrective message. This project
models that pipeline and its helpers in Dafny and proves properties about them.

The model covers:

- **Bedrock decoding** (`bedrock.dfy`). The decode block shared by every model call takes
  `outputText`, else the first truthy text field of `results[0]`, else the raw body. It
  also models the exceptions the block raises on bodies of other shapes.
- **Textract** (`textract.dfy`).
  - The extension rule that picks the asynchronous path for `pdf` and one synchronous call
    otherwise. app.py uses `split` and auditee_page.py uses `rsplit`; the two are proved equal.
  - The poll loop, which stops at the first `SUCCEEDED` or `FAILED`.
  - The LINE filter, and `extractText`'s newline join.
- **Keyword compliance** (`compliance.dfy`).
  - The keyword is the lower-cased first whitespace token of the requested document name; a
    blank name raises `IndexError`.
  - The insertion-ordered `compliance` dict is filled by a loop.
  - The `missing` list, the corrective prompt with its first-five-lines preview, and the
    summary prompts.
- **The two pages** (`pipeline.dfy`).
  - The requester page overwrites the stored request list with the one new request and its
    summary.
  - The submitter page loads the list, summarises it, stores the upload and runs the check.
  - The S3 bucket is a class over a map from object name to stored object.
- **The upload service** (`file_handler.dfy`).
  - Size, MIME type and file-name validation, in the source's order.
  - The stored name: a fresh identifier plus the lower-cased pathlib suffix.
  - The `temp` and `processed` directories as a class over two maps.
  - The magic-number checks.
- **The auditor dashboard's audit filter** (`audit_filter.dfy`).
- **Users** (`users.dfy`): the guards of `authenticate_user`, `create_user`,
  `change_password`, `deactivate_user` and `_ensure_default_users`. Both copies of
  `authentication.py` share one users-table class. bcrypt is passed in as a pair of functions.
- **Sessions** (`sessions.dfy`): `SessionValidator.is_session_valid` and `has_permission` in
  both copies.

Clocks, generated identifiers and the answers of Textract and Bedrock are parameters. A
Textract job is a script of poll responses. A Bedrock answer is its raw text plus its parsed
JSON.

Points where the code's behaviour is easy to misread:

- The response decode has no `completion` branch.
- There is no semantic (model-judged) compliance strategy. Only the keyword rule exists.
- The poll loop has no timeout and no retries. It polls until a terminal status; `sleep(1)`
  is the only pause. `PARTIAL_SUCCESS` is not terminal.
- A missing request list stops the submitter page. Only the requester page treats it as an
  empty list, and that list is then overwritten anyway.
- The pipeline pages do not run the upload validators. Their uploader accepts only names
  ending in `pdf`, `png` or `jpg`, and that filter is a precondition of the submitter page.
- An error in the middle of the check does not roll back what was already written: the
  upload is stored before the OCR runs.

## Model

| member | source | states |
|---|---|---|
| Text.FirstToken | app.py:158 | `split()[0]`: None exactly when the name is all whitespace; otherwise a non-empty token without whitespace |
| Text.FirstTokenOfWords | app.py:158 | leading whitespace is skipped, and the token is the first word, up to the next whitespace |
| Text.Lower | app.py:158-159 | `str.lower` on ASCII letters, character by character; it keeps length and dots (FileHandler.LowerKeepsDots) and commutes with taking a suffix (FileHandler.LowerOfSuffix) |
| Text.Split | app.py:128 | `split(c)` on one character: never empty, one piece exactly when `c` is absent (SplitSingleIff), last piece the text after the last `c` (SplitLastIsAfterLast), joining the pieces gives the input back (SplitJoin) |
| Text.Join | extractText.py:18 | `sep.join(parts)`: empty for no parts, the part itself for one; undone by Split when no part holds the separator (SplitJoin) |
| Text.AfterLast | auditee_page.py:82 | `rsplit(c, 1)[-1]`: the `c`-free suffix that is the whole string or follows its last `c` (AfterLastShape), and the only such suffix |
| Text.ContainsIff | app.py:159 | the substring test `keyword in line` holds exactly when the keyword occurs at some index |
| Text.AfterLastShape | auditee_page.py:82 | `rsplit(".", 1)[-1]` is a dot-free suffix that is the whole name or follows the last dot |
| Text.SplitSingleIff | app.py:128 | `split('.')` gives one piece exactly when the name has no dot |
| Text.SplitLastIsAfterLast | app.py:128 | `split('.')[-1]` equals `rsplit('.', 1)[-1]` for every name |
| Text.SplitJoin | extractText.py:18 | splitting the newline join of newline-free lines gives the lines back |
| Text.RFind | ui-stuff/audit-dashboard-ui-main/services/file_handler.py:161 | the index pathlib's suffix starts from is the last dot, or -1 when there is none |
| Bedrock.Decode | app.py:177-190 | a top-level `outputText` wins; with no `outputText` and no truthy `results`, the raw body text is the answer |
| Bedrock.Truthy | app.py:183-188 | Python truthiness of a JSON value: null, false, 0, "", [] and {} are false; a decoded value taken from `results[0]` is truthy (DecodeOrigin) |
| Bedrock.FirstTruthy | app.py:183-188 | the `a or b or c or d` chain: the first truthy operand, else the last; its use in the decode is characterised by DecodeFromResults |
| Bedrock.DecodeFromResults | app.py:181-188 | with a `results` list whose first item is an object, the answer is its first truthy `outputText`/`output`/`generatedText`, else the raw text |
| Bedrock.DecodeConsultsOnlyTwoFields | app.py:178-190 | bodies that agree on `outputText` and `results` decode identically |
| Bedrock.DecodeOrigin | app.py:178-190 | every successful decode is the top-level `outputText`, a truthy field of `results[0]`, or the raw body |
| Textract.ExtractLines | app.py:153 | every LINE block's text is kept, only LINE texts are kept, and there are no more lines than blocks |
| Textract.ExtractLinesAppend | app.py:153 | the filter keeps block order: it distributes over concatenation |
| Textract.ExtractTextWithoutLines | extractText.py:15-18 | with no LINE block the extracted text is empty |
| Textract.ExtractTextSplits | extractText.py:15-18 | the joined text splits back on newlines into exactly the LINE texts |
| Textract.ExtractText | extractText.py:15-18 | the LINE texts joined by newlines: empty without LINE blocks (ExtractTextWithoutLines), split back into the lines otherwise (ExtractTextSplits) |
| Textract.Extension | app.py:128 | `filename.split('.')[-1].lower()`, equal to the auditee page's rule on every name (ExtensionsAgree) |
| Textract.RsplitExtension | auditee_page.py:82 | `filename.rsplit('.', 1)[-1].lower()`, the lower-cased text after the last dot (ExtensionsAgree) |
| Textract.ModeOf | app.py:128-129 | the `pdf` extension selects the start-and-poll path, any other the synchronous call; RunOcr's call counts follow it |
| Textract.PollOutcome | app.py:136-144 | the first terminal response's blocks when it is SUCCEEDED, the job-failed message when it is FAILED; PollUntilTerminal's loop returns exactly this |
| Textract.ExtensionsAgree | auditee_page.py:82 | the auditee page's `rsplit` rule and app.py's `split` rule give the same extension; a dot-free name is its own extension |
| Textract.FirstTerminal | app.py:136-144 | the first poll response whose status is SUCCEEDED or FAILED, with every earlier one non-terminal |
| Textract.PollUntilTerminal | app.py:136-144 | the loop polls exactly up to the first terminal status; it returns that response's blocks when it is SUCCEEDED, and the job-failed error otherwise |
| Textract.RunOcr | app.py:128-150 | `pdf` issues one start call and then one poll per response up to the first terminal one; any other extension issues one synchronous detection call |
| Textract.FourthPollSucceeds | app.py:136-144 | SUBMITTED, IN_PROGRESS, IN_PROGRESS, SUCCEEDED is polled four times and yields the last response's blocks |
| Compliance.Keyword | app.py:158 | no keyword (the IndexError) exactly for a blank name; otherwise a non-empty whitespace-free token |
| Compliance.AnyLineContains | app.py:159 | true exactly when some lower-cased line contains the keyword |
| Compliance.Compliant | app.py:158-159 | the value the loop stores for a name: False for a blank name, else whether some lower-cased line contains its keyword; VerdictsContents proves every stored value is this |
| Compliance.Assign | app.py:159 | assigning into the dict keeps every key once and the key list equal to the map's domain |
| Compliance.VerdictsOf | app.py:156-159 | a completed loop leaves a well-formed dict |
| Compliance.FailureIsFinal | app.py:157-159 | once an iteration raises, later requests do not change the outcome |
| Compliance.BuildCompliance | app.py:156-159 | the loop computes the dict, or the error of the first blank name |
| Compliance.MissingAmong | app.py:164 | the comprehension keeps exactly the keys whose verdict is false (their order: MissingAmongAppend) |
| Compliance.MissingAmongAppend | app.py:164 | the comprehension keeps key order: on a concatenation of key lists it gives the missing keys of the first part followed by those of the second |
| Compliance.MissingInKeyOrder | app.py:164 | of two non-compliant keys, the one earlier in the dict's insertion order comes earlier in `missing` |
| Compliance.Missing | app.py:163-164 | `missing` is empty exactly when `all(compliance.values())`, and holds exactly the non-compliant keys (in key order: MissingInKeyOrder) |
| Compliance.VerdictsFailIffBlank | app.py:157-158 | the loop raises exactly when some requested name is blank |
| Compliance.VerdictsNameFirstBlank | app.py:157-158 | the error carries the first blank name in list order |
| Compliance.VerdictsContents | app.py:156-159 | the keys are the distinct document names in first-seen order, and each holds its keyword verdict |
| Compliance.CorrectiveIffSomeNonCompliant | app.py:163 | the corrective branch runs exactly when some request's keyword is found in no line |
| Compliance.EdgeCases | app.py:156-164 | no requests gives an empty, passing dict; with no lines every verdict is false |
| Compliance.CorrectivePromptSeesFiveLines | app.py:167 | only `lines[:5]` reaches the prompt; lines after the fifth change nothing |
| Compliance.DisclaimerOnlyInApp | app.py:167 | the app.py prompt is the auditee_page.py prompt with the no-disclaimer sentence inserted after the first sentence |
| Compliance.CorrectivePromptNamesMissing | app.py:168 | every missing document name occurs in the corrective prompt |
| Compliance.SummaryPromptGrows | auditee_page.py:42-46 | the summary prompt is the header, a blank line and one `- doc: desc` bullet per request, in order |
| Compliance.CorrectivePrompt | app.py:166-170 | the corrective prompt: the fixed instructions, the first five lines (CorrectivePromptSeesFiveLines) and every missing name (CorrectivePromptNamesMissing); app.py adds the no-disclaimer sentence (DisclaimerOnlyInApp) |
| Compliance.SummaryPrompt | auditee_page.py:42-46 | the header, a blank line and one bullet per request, in list order (SummaryPromptGrows) |
| Compliance.RequesterPrompt | app.py:35-38 | the requester page's prompt naming the document and its description; SubmitRequest sends it exactly when the stored list is readable |
| Pipeline.CheckLines | app.py:152-191 | the check's outcome matches the evaluation; a corrective prompt is built exactly when the dict holds a false verdict |
| Pipeline.Evaluate | app.py:156-191 | the check on extracted lines: the blank-name error, the compliant result, or the missing names with the decoded corrective answer; EvaluateVerdict and PagesAgree state its meaning |
| Pipeline.UploadOutcome | app.py:127-191 | OCR by the extension's mode followed by the check, failing with the job's message; CheckUpload's method is proved to compute it |
| Pipeline.CheckUpload | app.py:120-191 | the outcome of the whole upload check, the exact Textract calls made, and at most one corrective prompt, issued exactly when correction is needed |
| Pipeline.NoRequestsAllCompliant | app.py:156-163 | with no stored requests every upload passes |
| Pipeline.EvaluateVerdict | app.py:156-191 | with no blank names: the check passes exactly when every keyword is found; otherwise the result carries the decoded message, the page's prompt, and exactly the distinct non-compliant names |
| Pipeline.MissingRepeatsNothing | app.py:164 | the missing list repeats no name, because the dict holds each key once |
| Pipeline.MissingAmongDistinct | app.py:164 | filtering keys that repeat nothing gives a list that repeats nothing |
| Pipeline.EvaluateBlank | app.py:157-158 | the first blank name ends the check, whatever the lines and the model's answer |
| Pipeline.PagesAgree | auditee_page.py:104-139 | app.py and auditee_page.py reach the same verdict, missing list and message; only the prompt wording differs |
| Pipeline.SubmitOverwrites | app.py:62-71 | a successful submission leaves exactly the new request, with its summary, and touches no other object |
| Pipeline.LastSubmissionWins | app.py:63 | after two submissions only the second request is stored |
| Pipeline.StoredRequests | app.py:77-82 | the stored list, NoRequests when the key is absent (the page stops) and UnreadableRequests for bytes that are not a list; LoadRequests is proved to compute it |
| Pipeline.AfterSubmit | app.py:26-71 | the bucket after a submission: only the request key changes, to the single new request (SubmitOverwrites, LastSubmissionWins) |
| Pipeline.ViewOutcome | app.py:74-193 | the submitter page's result: the list error, the summary decode error, or the summary with the upload's check outcome; SubmitterView is proved to compute it |
| Pipeline.ViewObjects | app.py:125 | the bucket after the submitter page: the upload stored under its name once the summary decodes; it never touches the request list (UploadKeepsRequests) |
| Pipeline.UploadKeepsRequests | app.py:119-125 | a name the uploader accepts is never the request list's key, so storing the upload leaves the stored requests as they were |
| Pipeline.Bucket.LoadRequests | app.py:77-82 | loads the stored list; the NoSuchKey stop happens exactly when the key is absent |
| Pipeline.Bucket.SubmitRequest | app.py:26-71 | the requester prompt exactly when the stored list is readable (an unreadable one raises before the model call), the bucket after the overwrite, and a summary exactly when the list was readable and the answer decodes |
| Pipeline.Bucket.SubmitterView | app.py:74-193 | the page's result and bucket; the stored request list is unchanged; with a readable list the first prompt is the summary prompt over that list, and with none no prompt is sent |
| FileHandler.AllowedExamples | ui-stuff/audit-dashboard-ui-main/config/settings.py:31-43 | `application/msword` and `image/jpg` are allowed and `text/plain` is not |
| FileHandler.IsAllowedFileType | ui-stuff/audit-dashboard-ui-main/services/file_handler.py:121-125 | the flattened list contains the type exactly when one of the groups does |
| FileHandler.SafeNameStaysInDirectory | ui-stuff/audit-dashboard-ui-main/services/file_handler.py:138-149 | a safe name is a single path component with no `..` in it |
| FileHandler.IsSafeFilename | ui-stuff/audit-dashboard-ui-main/services/file_handler.py:127-149 | no `..`, no separator, no NUL and at most 255 characters; a safe name stays in its directory (SafeNameStaysInDirectory) |
| FileHandler.SuffixShape | ui-stuff/audit-dashboard-ui-main/services/file_handler.py:161 | the suffix is empty, or runs from a last dot that is neither the first nor the last character to the end of the name |
| FileHandler.Suffix | ui-stuff/audit-dashboard-ui-main/services/file_handler.py:161 | pathlib's `suffix` of one component: from the last dot when that dot is neither first nor last, else empty (SuffixShape) |
| FileHandler.GetFileExtension | ui-stuff/audit-dashboard-ui-main/services/file_handler.py:151-161 | the lower-cased suffix of the final path component; its shape and presence are given by ExtensionShape and ExtensionPresentIff |
| FileHandler.ExtensionShape | ui-stuff/audit-dashboard-ui-main/services/file_handler.py:161 | the extension is empty or a dot plus dot-free text, and it is the lower-cased end of the name |
| FileHandler.ExtensionPresentIff | ui-stuff/audit-dashboard-ui-main/services/file_handler.py:161 | the extension is non-empty exactly when the final component has a dot that is neither its first nor its last character |
| FileHandler.ValidateFile | ui-stuff/audit-dashboard-ui-main/services/file_handler.py:94-109 | valid exactly when all three checks pass; each refusal names the first failing check, in the order size, type, name |
| FileHandler.FileStore.ContentOf | ui-stuff/audit-dashboard-ui-main/services/file_handler.py:267-275 | None exactly when the name is in neither directory |
| FileHandler.FileStore.FileInfo | ui-stuff/audit-dashboard-ui-main/services/file_handler.py:191-207 | found exactly when the content is; reports the content's size, and temp when the file is there |
| FileHandler.FileStore.GetFileContent | ui-stuff/audit-dashboard-ui-main/services/file_handler.py:267-275 | the temp copy if any, else the processed one; found exactly when `get_file_info` finds it |
| FileHandler.FileStore.SaveUploadedFile | ui-stuff/audit-dashboard-ui-main/services/file_handler.py:46-78 | nothing is written for an invalid file; a valid one goes to temp under the identifier plus its extension, and the returned record describes it |
| FileHandler.FileStore.MoveToProcessed | ui-stuff/audit-dashboard-ui-main/services/file_handler.py:219-227 | moves exactly when the file is in temp, replacing any processed copy; what a read returns is unchanged |
| FileHandler.FileStore.DeleteFile | ui-stuff/audit-dashboard-ui-main/services/file_handler.py:243-251 | deletes exactly when some copy exists, the temp copy first, which exposes a processed copy |
| FileHandler.IsImage | ui-stuff/audit-dashboard-ui-main/services/file_handler.py:361-374 | true exactly when the content starts with the JPEG, PNG, GIF87a or GIF89a signature |
| FileHandler.AtMostOneKind | ui-stuff/audit-dashboard-ui-main/services/file_handler.py:356-380 | no content is of two kinds: PDF, image and Office document exclude one another pairwise |
| AuditFilter.Where | ui-stuff/audit-dashboard-ui-main/dashboards/auditor_dashboard.py:281 | a comprehension keeps exactly the records satisfying its condition, never more than it was given |
| AuditFilter.WhereIsSubsequence | ui-stuff/audit-dashboard-ui-main/dashboards/auditor_dashboard.py:281 | a comprehension keeps the records in their original order |
| AuditFilter.RestrictIsWhere | ui-stuff/audit-dashboard-ui-main/dashboards/auditor_dashboard.py:280-281 | a filter step keeps exactly the records that match the value, and every record when the value is "All" |
| AuditFilter.Passes | ui-stuff/audit-dashboard-ui-main/dashboards/auditor_dashboard.py:280-287 | a record passes a filter that is "All" or equal to its field; RestrictIsWhere ties each step to it |
| AuditFilter.FilterAudits | ui-stuff/audit-dashboard-ui-main/dashboards/auditor_dashboard.py:275-289 | the status, department and category steps in that order; FilterSoundAndComplete and FilterIsSinglePass state what it keeps |
| AuditFilter.FilterIsSinglePass | ui-stuff/audit-dashboard-ui-main/dashboards/auditor_dashboard.py:275-289 | the three successive comprehensions equal one pass with the conjunction of the filters |
| AuditFilter.FilterSoundAndComplete | ui-stuff/audit-dashboard-ui-main/dashboards/auditor_dashboard.py:275-289 | the result is an ordered subsequence holding exactly the records that pass every filter |
| AuditFilter.AllFiltersOff | ui-stuff/audit-dashboard-ui-main/dashboards/auditor_dashboard.py:278-289 | with all three filters at "All" the list is returned unchanged |
| AuditFilter.FilterOrderIrrelevant | ui-stuff/audit-dashboard-ui-main/dashboards/auditor_dashboard.py:280-287 | the order of any two filter steps does not matter |
| Users.FirstActive | ui-stuff/audit-dashboard-ui-main/auth/authentication.py:235-236 | the lookup finds only an active matching row, and finds none only when no active row matches |
| Users.ByUsernameFinds | ui-stuff/audit-dashboard-ui-main/auth/authentication.py:235-236 | with unique usernames the lookup returns the one active row holding the name |
| Users.ByIdFinds | ui-stuff/audit-dashboard-ui-main/auth/authentication.py:248-249 | with unique ids the lookup returns the one active row holding the id |
| Users.ByUsername | ui-stuff/audit-dashboard-ui-main/auth/authentication.py:225-236 | the first active row with the name; with unique names exactly the active row holding it (ByUsernameFinds) |
| Users.ById | ui-stuff/audit-dashboard-ui-main/auth/authentication.py:238-249 | the first active row with the id; with unique ids exactly the active row holding it (ByIdFinds) |
| Users.AuthenticateDecision | ui-stuff/audit-dashboard-ui-main/auth/authentication.py:41-58 | unknown user exactly when no active row has the name; a success is an active row with that name, password and type; the `is_active` refusal never happens (the prototype's auth/authentication.py:41-54 has the same guards in the same order) |
| Users.AuthenticateSucceedsIff | ui-stuff/audit-dashboard-ui-main/auth/authentication.py:43-58 | login succeeds exactly when an active row holds the name, a matching password and the type |
| Users.ViewOf | ui-stuff/audit-dashboard-ui-main/auth/authentication.py:64-72 | the result carries the row's id, username and type, and the login time as its last_login |
| Users.AsWrittenMisreportsIff | ui-stuff/audit-dashboard-ui-main/auth/authentication.py:96-113 | as written, create_user reports success without inserting exactly when the name belongs to an inactive row |
| Users.CreateReportAsWritten | ui-stuff/audit-dashboard-ui-main/auth/authentication.py:96-113 | create_user's result as written: True unless an active row holds the name; it is wrong exactly for an inactive holder (AsWrittenMisreportsIff) |
| Users.CreateReport | ui-stuff/audit-dashboard-ui-main/auth/authentication.py:103-113 | the intended result: True exactly when no row holds the name, which is exactly when the INSERT appends (CreateReportIsInsertion) |
| Users.InactiveUsernameMisreported | ui-stuff/audit-dashboard-ui-main/auth/authentication.py:96-113 | an inactive `auditee1` makes create_user("auditee1") report True while the table is unchanged |
| Users.CreateReportIsInsertion | ui-stuff/audit-dashboard-ui-main/auth/authentication.py:96-113 | the corrected report is True exactly when the new row is appended |
| Users.ChangePasswordDecision | ui-stuff/audit-dashboard-ui-main/auth/authentication.py:131-143 | unknown id exactly when no active row has it; a success has a matching old password and a new one of at least 8 characters; TooShort only below 8 |
| Users.ChangePasswordSucceedsIff | ui-stuff/audit-dashboard-ui-main/auth/authentication.py:133-143 | the change goes through exactly when the id is active, the old password matches and the new one has 8 or more characters |
| Users.NewPasswordLogsIn | ui-stuff/audit-dashboard-ui-main/auth/authentication.py:146-150 | after a change the user logs in with the new password |
| Users.DeactivatedUserIsUnknown | ui-stuff/audit-dashboard-ui-main/auth/authentication.py:216-219 | a deactivated user's login fails as an unknown user |
| Users.DefaultUsersLogIn | ui-stuff/audit-dashboard-ui-main/auth/authentication.py:296-315 | each default user logs in with its password and type: auditor1 and auditee1 with `password123` here, admin and demo_auditee in the prototype's auth/authentication.py:138-140 |
| Users.UserTable.Authenticate | ui-stuff/audit-dashboard-ui-main/auth/authentication.py:41-72 | only a successful login stamps `last_login`; it returns the row's fields without the hash |
| Users.UserTable.Insert | ui-stuff/audit-dashboard-ui-main/auth/authentication.py:103-111 | the INSERT appends the row unless the name is taken, and only then uses an id |
| Users.UserTable.CreateUserAsWritten | ui-stuff/audit-dashboard-ui-main/auth/authentication.py:94-113 | reports True whenever no active row has the name, whatever the INSERT did |
| Users.UserTable.CreateUser | ui-stuff/audit-dashboard-ui-main/auth/authentication.py:94-113 | reports True exactly when the new row was appended |
| Users.UserTable.ChangePassword | ui-stuff/audit-dashboard-ui-main/auth/authentication.py:131-152 | on success only the user's hash changes; otherwise nothing changes |
| Users.UserTable.Deactivate | ui-stuff/audit-dashboard-ui-main/auth/authentication.py:216-219 | clears `is_active` on the row with the id and reports True |
| Users.UserTable.EnsureDefaultUsers | ui-stuff/audit-dashboard-ui-main/auth/authentication.py:292-315 | the default users of either copy are inserted only into an empty table (the prototype's test at auth/authentication.py:137-140 is the same row count of 0); otherwise nothing changes |
| Sessions.IsSessionValid | ui-stuff/audit-dashboard-ui-main/auth/authentication.py:338-354 | an exception only with all four fields present; valid only with a readable login time at most 60 minutes old |
| Sessions.MissingFieldInvalid | ui-stuff/audit-dashboard-ui-main/auth/authentication.py:338-344 | empty data or a missing id, username, user_type or last_login gives False |
| Sessions.TimeoutBoundary | ui-stuff/audit-dashboard-ui-main/auth/authentication.py:347-354 | a login at minute t is valid up to and including t + 60, and invalid after |
| Sessions.ExpiryIsFinal | ui-stuff/audit-dashboard-ui-main/auth/authentication.py:351-352 | once expired, a session stays expired |
| Sessions.PrototypeIsSessionValid | auth/authentication.py:151-154 | a valid prototype session has a user_type |
| Sessions.DashboardIsStricter | auth/authentication.py:151-154 | every session the dashboard accepts, the prototype accepts |
| Sessions.PrototypeNeverExpires | auth/authentication.py:151-154 | a 61-minute-old session is expired for the dashboard but still valid for the prototype |
| Sessions.LoweredUserType | ui-stuff/audit-dashboard-ui-main/auth/authentication.py:368 | raises exactly when user_type is present and not a string; a missing type reads as "" |
| Sessions.HasPermission | ui-stuff/audit-dashboard-ui-main/auth/authentication.py:368-376 | a granted permission implies the lower-cased type is auditor or auditee |
| Sessions.PrototypeHasPermission | auth/authentication.py:157-166 | a granted permission implies a non-empty dict whose user_type is exactly "auditor" or "auditee" |
| Sessions.DashboardPermissions | ui-stuff/audit-dashboard-ui-main/auth/authentication.py:371-376 | the dashboard's table with `.get(type, [])`; its two lists share no permission (PermissionTablesDisjoint) |
| Sessions.PrototypePermissions | auth/authentication.py:161-166 | the prototype's table with `.get(type, [])`; its two lists share no permission (PermissionTablesDisjoint) |
| Sessions.PermissionTablesDisjoint | ui-stuff/audit-dashboard-ui-main/auth/authentication.py:371-374 | no permission belongs to both roles, in either table |
| Sessions.PermissionDeterminesRole | ui-stuff/audit-dashboard-ui-main/auth/authentication.py:368-376 | two users granted the same permission have the same lower-cased type |
| Sessions.PrototypePermissionDeterminesRole | auth/authentication.py:161-166 | two users granted the same permission have the same type |
| Sessions.CaseOfUserType | ui-stuff/audit-dashboard-ui-main/auth/authentication.py:368 | "Auditor" may create audits in the dashboard but not in the prototype |
| Sessions.NoUserTypeNoPermission | ui-stuff/audit-dashboard-ui-main/auth/authentication.py:368 | without a user_type nothing is granted and nothing is raised |

## Left out

- Text.Lower: lower-cases the ASCII letters only. Python's `str.lower` is full Unicode, so
  keyword matching on non-ASCII names is not modelled exactly.
- Textract.PollUntilTerminal: requires the scripted responses to reach SUCCEEDED or FAILED.
  The source loop never ends otherwise; it has no timeout.
- The one-second `sleep` between polls, and everything about time on the OCR path.
- The AWS calls themselves: S3 `get_object`/`put_object`, Textract, Bedrock.
  - Their answers are parameters.
  - Transport errors and other exceptions outside the decode block are not modelled.
  - A UTF-8 decode failure of a response body is not modelled.
- Bedrock.Decode: the body is given already parsed. A `json.loads` failure on a non-JSON body
  is not modelled, and JSON numbers are integers.
- The stored request list is a structured value. Raw bytes stored under its key read as
  unreadable (the `json.loads` failure). Bytes that happen to hold a valid request list are
  not modelled.
- Pipeline.Bucket.SubmitterView: the uploader's type list is a precondition, read as "the name
  has a dot and the lower-cased text after the last one is `pdf`, `png` or `jpg`". How Streamlit
  enforces that list is not modelled.
- Streamlit rendering (`st.*`), `st.stop` beyond ending the page run, and `print`.
- bcrypt is a pair of function parameters.
  - Hashing is deterministic here; bcrypt's random salt is not modelled.
  - An exception from `checkpw` on a malformed hash is not modelled.
- SQLite's `CURRENT_TIMESTAMP` and Python's `datetime.now()` are the same `now` parameter.
  The `created_at` column is not modelled.
- `get_users_by_type` and `get_users_by_department`: plain SELECT queries with no guard, not
  modelled.
- Sessions.IsSessionValid: times are whole minutes, so a session 60 minutes and 30 seconds old
  (rejected by the source) cannot be expressed. The TypeError from subtracting a
  timezone-aware time from a naive one is not modelled.
- FileHandler.FileStore.SaveUploadedFile: the SHA-256 hash, the file path and the upload
  timestamp in the returned record are not modelled. The uploaded size is the content's length.
- FileHandler.FileStore.FileInfo: the path and the creation and modification times are not
  modelled.
- `cleanup_old_files` and `get_storage_stats`: they depend on the clock and on directory
  scans. Not modelled.
- `scan_for_malware` is a placeholder that always returns True. Not modelled.
- FileHandler.GetFileExtension: pathlib's normalisation of trailing and repeated slashes is
  not modelled. A name is split at its last `/` only.
- Filesystem exceptions in the upload service (each returns False or None after `st.error`) are
  not modelled.
- The users table, the bucket and the directories have no concurrent access in the model.

## Findings

| source | as written | input that shows it | evidently intended | confidence | as-written member | corrected member |
|---|---|---|---|---|---|---|
| ui-stuff/audit-dashboard-ui-main/auth/authentication.py:96-113 | `create_user` refuses only a name held by an ACTIVE user. For an inactive user's name, the INSERT breaks the UNIQUE constraint on `username`; `execute_query` swallows the error, and `create_user` still returns True with nothing inserted. The UNIQUE constraint is declared at ui-stuff/audit-dashboard-ui-main/config/settings.py:139; the prototype's schema is not part of this model, so the claim is made for the dashboard's copy only. | a table holding an inactive `auditee1`, then `create_user("auditee1", ...)` | return False whenever no row was inserted | not executed | Users.InactiveUsernameMisreported | Users.UserTable.CreateUser |
