# formB in Dafny

A model of the form-processing backend `FormB` (FormBackend.php) and its small `Line`
value object, with proofs about the model.

`FormB` collects diagnostics for a submitted web form in an error list. It does the
following:

- **Required fields.** It reports every required field that is unset or empty in the
  request. The message labels the field with its name, with underscores turned into
  spaces and every word capitalised.
- **Email addresses.** It checks an address against a chain of syntax rules. The address
  is split at its last `@`. The rules cover length bounds, dot placement, the character
  set of the domain, and an unquoted or quoted local part. When asked, it also looks up
  MX or A records for the domain.
- **Escaping.** It escapes request strings and nested arrays of them for HTML.
- **Rate limiting.** It limits how often one address may submit one page. A MySQL table
  counts attempts in a 30-minute window.

The model is split into modules:

- `Php`: the PHP library behaviour the code relies on: `empty()` on strings, `strrpos`,
  `substr`, `str_replace`, `ucwords`, `stripslashes`.
- `Payload`: request values, meaning strings and ordered arrays nested to any depth, and
  `isSetNotEmpty`.
- `Sanitizer`: the HTML escape and its inverse, lifted to nested values.
- `EmailRules`: validEmail's rule chain as predicates. The regular expressions become
  recursive predicates.
- `RequiredFields`: the messages processReq produces.
- `RateLimit`: the attempt table as a map from (page, address) to (attempts, date), and
  the check-then-log step.
- `Form`: the classes.
  - `FormB` holds the error list as a `seq<string>` field that its methods extend in
    place.
  - `AttemptTable` is the database table reached through FormB's handle.
  - `Line` is the line object.

The outside world is passed in as parameters:

- the request map (`$_REQUEST`);
- `PHP_SELF` and the remote address, already converted to an integer as `ip2long` gives it;
- the clock `now`, in seconds;
- whether each SQL query succeeds;
- a DNS oracle `dns(domain, MX | A)`.

Points where the model follows the code as written, though it may not be what a
reader of the method descriptions expects:

- validEmail returns nothing. Its verdict is the diagnostic it may append, which
  checkErrors then sees.
- The quoted local-part form needs at least one character between the quotes, since
  the pattern uses `+`.
- `$` belongs to the unquoted local-part character class, alongside
  ``!#%&`_=/'*+?^{}|~.-``.
- A missing database handle is reported when checkIP runs, not when FormB is constructed.
- PHP's `empty()` treats "0" as empty. So addError("0") is ignored and a required field
  holding "0" counts as blank.

## Model

| member | source | states |
|---|---|---|
| Php.LastIndexOf | FormBackend.php:273-275 | strrpos: None exactly when the character is absent; otherwise an index holding it with no later occurrence |
| Php.EmptyString | FormBackend.php:48 | defines PHP's empty() on a string: "" and "0" |
| Php.SubstrFrom | FormBackend.php:455 | substr from a start: the suffix of length \|s\|-start, or "" past the end |
| Php.ReplaceChar | FormBackend.php:80 | defines str_replace of one character; its meaning is stated by Php.ReplaceCharRemoves and Php.ReplaceCharInverse |
| Php.ReplaceCharRemoves | FormBackend.php:80 | with two distinct characters, the result has the input's length, holds no `from`, and holds nothing but `to` and characters of the input |
| Php.ReplaceCharInverse | FormBackend.php:80 | replacing by a character absent from the string is undone by replacing back |
| Php.RemoveBackslashPairs | FormBackend.php:293 | str_replace("\\\\","") removes an even number of characters, keeps every non-backslash character in order, keeps a leading non-backslash, and leaves no two adjacent backslashes; Php.RemoveBackslashPairsRun and Php.RemoveBackslashPairsSplit fix the result exactly |
| Php.Backslashes | FormBackend.php:293 | defines a run of k backslashes |
| Php.RemoveBackslashPairsRun | FormBackend.php:293 | a run of k backslashes becomes a run of k % 2 |
| Php.RemoveBackslashPairsSplit | FormBackend.php:293 | at any non-backslash character the string splits: both sides are processed independently and the character stays in place between them |
| Php.NonBackslashes | FormBackend.php:293 | defines the characters of a string other than backslashes, in order |
| Php.ToUpper | FormBackend.php:80 | defines ASCII toupper; what ucwords does with it is stated by Php.Ucwords, and Php.ToUpperCapitalises states its properties |
| Php.ToUpperCapitalises | FormBackend.php:80 | toupper leaves no lower-case letter, is idempotent, and sends distinct lower-case letters to distinct capitals |
| Php.Ucwords | FormBackend.php:80 | ucwords: same length; the first character and every character after a whitespace delimiter are upper-cased, the rest kept |
| Php.StripSlashesAddSlashes | FormBackend.php:504 | stripslashes undoes addslashes on every string |
| Php.StripSlashes | FormBackend.php:504 | defines stripslashes: a backslash escapes the next character, "\\0" is NUL, a lone trailing backslash is dropped |
| Payload.IsSetNotEmpty | FormBackend.php:37-39 | defines "set and not empty"; what setErr reports with it is stated by RequiredFields.BlankMessagesMembers and RequiredFields.BlankMessagesNone |
| Payload.EmptyValue | FormBackend.php:38 | defines empty() on a request value: "" and "0", or an array with no entries |
| Payload.Lookup | FormBackend.php:79 | defines $_REQUEST[$e]: the value of a set field, None for an unset one |
| Sanitizer.Entity | FormBackend.php:314-316 | the escape of one character is non-empty and free of < > "; it differs from the character exactly for & < > ", and then is an entity starting with & |
| Sanitizer.SanitizeInput | FormBackend.php:314-316 | the escaped string is no shorter than its input and holds no raw <, > or " |
| Sanitizer.IsHtmlSpecial | FormBackend.php:315 | defines the characters htmlentities rewrites here: & < > " |
| Sanitizer.DecodeEntityPrefix | FormBackend.php:314-316 | decoding an escaped character followed by anything gives the character back first |
| Sanitizer.DecodeSanitizeInput | FormBackend.php:314-316 | decoding the escaped string gives back the input (the escape loses nothing) |
| Sanitizer.SanitizeInputFixedPoint | FormBackend.php:314-316 | escaping leaves a string unchanged exactly when it has none of & < > " |
| Sanitizer.SanitizeInputKeepsAmpersand | FormBackend.php:314-316 | a string with a special character escapes to one containing & |
| Sanitizer.SanitizeInputNotIdempotent | FormBackend.php:314-316 | escaping twice differs from escaping once whenever the input has a special character |
| Sanitizer.SanitizeInputAppend | FormBackend.php:314-316 | the escape works character by character: escaping a concatenation concatenates the escapes |
| Sanitizer.SanitizeElement | FormBackend.php:314-316 | a tag around plain text comes out as &lt;tag&gt;text&lt;/tag&gt; |
| Sanitizer.Sanitized | FormBackend.php:324-346 | defines what sanitizeObject returns: every string leaf escaped, every key and level of nesting kept |
| Sanitizer.Desanitized | FormBackend.php:324-346 | defines the inverse of Sanitized: every string leaf decoded |
| Sanitizer.AngleBrackets | FormBackend.php:314-316 | "<", ">" and "</" escape to "&lt;", "&gt;" and "&lt;/" |
| Sanitizer.SanitizeBracketed | FormBackend.php:314-316 | a tag <t> around plain text t comes out as &lt;t&gt; |
| Sanitizer.SanitizedSameShape | FormBackend.php:324-346 | sanitizing a value keeps every key and every level of nesting |
| Sanitizer.SanitizedNoMarkup | FormBackend.php:324-346 | no leaf of a sanitized value holds a raw <, > or " |
| Sanitizer.DesanitizeSanitized | FormBackend.php:324-346 | decoding every leaf of a sanitized value gives back the original value |
| Sanitizer.SanitizeTwice | FormBackend.php:324-346 | "&" becomes "&amp;", and sanitizing again gives "&amp;amp;" |
| Sanitizer.SanitizeNested | FormBackend.php:324-332 | a nested array has only its string leaves escaped, with keys kept |
| EmailRules.SplitAtLastAt | FormBackend.php:273-278 | None exactly when there is no @; otherwise local + "@" + domain is the address and the domain holds no @ |
| EmailRules.SplitAtLastAtBuilt | FormBackend.php:273-278 | an address built from a local part and an @-free domain splits back into exactly those parts |
| EmailRules.HasDotRun | FormBackend.php:287-291 | /[.]{2,}/ matches exactly when two adjacent characters are both dots |
| EmailRules.IsDomainChar | FormBackend.php:289 | defines the class [A-Za-z0-9\-\.] of the domain pattern |
| EmailRules.DomainForm | FormBackend.php:289 | defines the body of the domain pattern: one or more domain characters |
| EmailRules.IsLocalChar | FormBackend.php:293 | defines the character class of the unquoted local-part pattern |
| EmailRules.UnquotedTokens | FormBackend.php:293 | defines (\\.\|[class])*: a backslash with any character but a newline after it, or one class character, repeated |
| EmailRules.UnquotedForm | FormBackend.php:293 | defines the body of the unquoted pattern: at least one token |
| EmailRules.QuotedTokens | FormBackend.php:295 | defines the strings matched by (\\"\|[^"])* |
| EmailRules.QuotedForm | FormBackend.php:295 | defines the body of the quoted pattern: a quote, at least one token, a quote |
| EmailRules.EndAnchored | FormBackend.php:289-295 | defines /^P$/: P matches the whole subject or, with PCRE's reading, the subject less a final newline |
| EmailRules.LocalFormOk | FormBackend.php:293-297 | defines the last rule: after backslash pairs are deleted, the unquoted or the quoted pattern matches |
| EmailRules.PartsValid | FormBackend.php:281-297 | defines the whole rule chain on the two parts, under either reading of `$` |
| EmailRules.ValidSyntaxWith | FormBackend.php:273-297 | defines the syntax check: an @ to split at, and the chain on the parts |
| EmailRules.ValidSyntax | FormBackend.php:273-297 | defines the syntax check with `$` read as the end of the subject |
| EmailRules.ValidSyntaxAsWritten | FormBackend.php:273-297 | defines the syntax check with PCRE's reading of `$`, which is what the code runs |
| EmailRules.EmailAccepted | FormBackend.php:273-302 | defines when validEmail accepts, with `$` read strictly: the strict syntax check and, when chkDNS is set, an MX or A record for the domain |
| EmailRules.NoAtInvalid | FormBackend.php:273-275 | an address without @ is refused by both readings of the rules |
| EmailRules.ValidSyntaxRules | FormBackend.php:281-297 | with `$` read strictly, an address is valid exactly when the local part has length 1..64, the domain 1..255, the local part does not start or end with a dot, neither part has a dot run, the domain is made of letters, digits, '-' and '.', and the local part (after deleting backslash pairs) is an unquoted token string or a quoted string |
| EmailRules.QuotedTokensIff | FormBackend.php:295 | the inside of a quoted local part matches (\\"\|[^"])+ exactly when every quote in it follows a backslash |
| EmailRules.UnquotedFromClassChars | FormBackend.php:293 | a string of allowed local characters is an unquoted token string |
| EmailRules.UnquotedNoNewline | FormBackend.php:293 | an unquoted token string holds no newline |
| EmailRules.ValidSyntaxNoTrailingNewline | FormBackend.php:289-297 | under the strict reading a valid address has no newline in its domain and a local part not ending in a newline |
| EmailRules.PartsNoTrailingNewline | FormBackend.php:289-297 | the same for two parts that pass every rule |
| EmailRules.RemoveBackslashPairsSnoc | FormBackend.php:293 | appending a non-backslash commutes with deleting backslash pairs |
| EmailRules.NoDotRunSnoc | FormBackend.php:287-291 | appending a non-dot creates no dot run |
| EmailRules.PartsValidAsWritten | FormBackend.php:281-297 | every address the strict reading accepts is accepted as written |
| EmailRules.AcceptedWithoutDns | FormBackend.php:298-302 | with the DNS check off, acceptance is the syntax check alone |
| EmailRules.ExamplePlain | FormBackend.php:271-306 | "a@b.com" is valid |
| EmailRules.PlainParts | FormBackend.php:281-297 | the parts "a" and "b.com" pass every rule |
| EmailRules.ExampleDoubleDot | FormBackend.php:287 | "a..b@b.com" is refused |
| EmailRules.ExampleNoAt | FormBackend.php:273-275 | "noatsign" and "" are refused |
| EmailRules.DomainNewlineAsWritten | FormBackend.php:289 | a valid address with "\n" after the domain is accepted as written and refused strictly |
| EmailRules.PartsDomainNewline | FormBackend.php:289 | parts that pass every rule still pass as written with "\n" after the domain, and fail strictly |
| EmailRules.DomainNewlineExample | FormBackend.php:289 | "a@b.com\n" is accepted as written and refused strictly |
| EmailRules.LocalFormNewline | FormBackend.php:293-297 | a local-part form followed by "\n" passes the as-written local rule and fails the strict one |
| EmailRules.LocalNewlineAsWritten | FormBackend.php:293-297 | a valid address with "\n" before the @ is accepted as written and refused strictly |
| EmailRules.PartsLocalNewline | FormBackend.php:293-297 | parts that pass every rule still pass as written with "\n" after the local part, and fail strictly |
| EmailRules.LocalNewlineExample | FormBackend.php:293-297 | "a\n@b.com" is accepted as written and refused strictly |
| RequiredFields.BlankMessagesAppend | FormBackend.php:71-73 | checking two lists in turn reports what checking their concatenation reports, in order |
| RequiredFields.NoRequirements | FormBackend.php:69-70 | defines empty($this->_required): a name that is "" or "0", or an empty list |
| RequiredFields.Names | FormBackend.php:71-75 | defines the names processReq checks: the one name, or the list in order |
| RequiredFields.Label | FormBackend.php:80 | defines the label: ucwords(str_replace("_", " ", name)) |
| RequiredFields.BlankFieldMessage | FormBackend.php:80 | defines the blank-field message around the label |
| RequiredFields.IsBlank | FormBackend.php:79 | defines setErr's test: a non-empty name whose request value is unset or empty |
| RequiredFields.SetErrMessages | FormBackend.php:79-80 | defines what setErr appends for one name |
| RequiredFields.BlankMessages | FormBackend.php:68-81 | defines what processReq appends for a list: setErr's messages, name after name |
| RequiredFields.BlankMessagesPrefix | FormBackend.php:72-73 | one more name checked adds its own messages after those of the names before it |
| RequiredFields.BlankMessagesMembers | FormBackend.php:68-81 | a message is reported exactly when it is the blank-field message of a listed, non-empty name whose request value is unset or empty |
| RequiredFields.BlankMessagesNone | FormBackend.php:68-81 | nothing is reported exactly when no listed field is blank |
| RequiredFields.BlankMessagesCount | FormBackend.php:68-81 | at most one message per name, and exactly one per name when all are blank |
| RequiredFields.LabelShape | FormBackend.php:80 | a label has the name's length, no underscore, a space exactly where the name has '_' or ' ', and no lower-case letter at a word start |
| RequiredFields.LabelTwoWords | FormBackend.php:80 | two lower-case words joined by '_' become "Word1 Word2" |
| RequiredFields.TwoBlankFields | FormBackend.php:72-80 | two blank fields give their two messages, in list order |
| RequiredFields.FilledField | FormBackend.php:79 | a field holding "Ann" gives no message |
| RequiredFields.FirstNameLabel | FormBackend.php:80 | first_name is labelled "First Name" |
| RequiredFields.LastNameLabel | FormBackend.php:80 | last_name is labelled "Last Name" |
| RequiredFields.NameMessages | FormBackend.php:80 | the blank-field messages of first_name and last_name name "First Name" and "Last Name" |
| RequiredFields.EmptyRequestNames | FormBackend.php:68-81 | with an empty request, ["first_name", "last_name"] yields the blank-field messages of first_name and then last_name |
| RateLimit.SanitizeUrlString | FormBackend.php:454-456 | the page key is the URL's suffix after as many characters as the omitted string has, or "" past the end |
| RateLimit.SanitizeUrlStringPrefix | FormBackend.php:454-456 | when the URL starts with the omitted string, exactly the rest is left |
| RateLimit.SanitizeUrlStringLengthOnly | FormBackend.php:454-456 | only the length of the omitted string matters, not its characters |
| RateLimit.InWindow | FormBackend.php:399 | defines `date` > NOW() - INTERVAL 30 MINUTE, with the clock reading now |
| RateLimit.Upserted | FormBackend.php:420-421 | defines the table after the INSERT ... ON DUPLICATE KEY UPDATE |
| RateLimit.Blocked | FormBackend.php:405 | defines checkIP's test: the SELECT found a row and its attempts have reached the threshold |
| RateLimit.LogStep | FormBackend.php:426-427 | defines logIP: the upsert, or FORM_LOGERR when the query fails |
| RateLimit.CheckStep | FormBackend.php:404-409 | defines checkIP: FORM_CHKERR on a failed SELECT, the too-many-attempts message when blocked, logIP otherwise |
| RateLimit.SelectAttempts | FormBackend.php:399-405 | defines the SELECT: the attempts of the row for (page, address) when it was written inside the 30-minute window; RateLimit.SelectAfterUpsert, RateLimit.UpsertedRow and RateLimit.CheckStepOutcome state what it means |
| RateLimit.SelectAfterUpsert | FormBackend.php:399-421 | the SELECT right after the upsert finds the row with one attempt more than before (one for a fresh row), and the SELECT on any other key is unaffected |
| RateLimit.UpsertedRow | FormBackend.php:420-421 | the upsert adds at most the one key, leaves every other row alone, stamps the row with now, and sets attempts to the in-window count + 1, or 1 |
| RateLimit.CheckStepOutcome | FormBackend.php:404-409 | at most one message is appended. None is appended exactly when both queries succeed and the row is not blocked, and then the row is upserted. Otherwise the table is unchanged. A blocked row gets the too-many-attempts message and a failed SELECT gets FORM_CHKERR |
| RateLimit.CheckStepKeepsBound | FormBackend.php:404-421 | with a threshold of at least 1, every row's attempts stay between 1 and the threshold |
| RateLimit.ThreeAttemptsScenario | FormBackend.php:396-428 | three attempts count 1, 2, 3; a fourth is refused and the count stays at 3; once 1800 s have passed since the last counted attempt, the count restarts at 1 |
| Form.AttemptTable.SelectAttempts | FormBackend.php:399-405 | the SELECT returns what RateLimit.SelectAttempts describes |
| Form.AttemptTable.Upsert | FormBackend.php:420-421 | the table becomes RateLimit.Upserted of the old table |
| Form.FormB.constructor | FormBackend.php:26-29 | the required names and handle are stored; there are no errors yet |
| Form.FormB.CheckErrors | FormBackend.php:55-57 | defines checkErrors as "some diagnostic was collected"; Form.FormB.AddError states how it changes, and the constructor that it starts false |
| Form.FormB.AddError | FormBackend.php:47-50 | "" and "0" are ignored; any other message is appended at the end, and then checkErrors is true |
| Form.FormB.SetErr | FormBackend.php:78-81 | appends the blank-field message for a non-empty name that is unset or empty in the request, and nothing otherwise |
| Form.FormB.ProcessReq | FormBackend.php:68-76 | with nothing required, it fails with the exception message and leaves the errors alone; otherwise it appends the blank-field messages of the required names in order, and nothing else |
| Form.FormB.SetErrs | FormBackend.php:72-73 | the foreach appends exactly the blank-field messages of the listed names, in order |
| Form.FormB.ValidEmail | FormBackend.php:271-306 | appends exactly the one invalid-address message when the address is refused (rule chain, then DNS when asked), and nothing when it is accepted; earlier errors are kept |
| Form.FormB.RuleChain | FormBackend.php:281-297 | the if/elseif chain leaves the address valid exactly when both parts pass every rule; with pcreDollar each `$` also matches before a final newline, as the code runs it, without it `$` is the end of the subject (the reading ValidEmail uses) |
| Form.FormB.SanitizeArray | FormBackend.php:324-332 | an array comes back with every leaf escaped, as Sanitizer.Sanitized describes; a non-array comes back unchanged |
| Form.FormB.SanitizeObject | FormBackend.php:341-346 | the result is Sanitized(ob): the same shape, no raw markup, and decoding gives back the input |
| Form.FormB.CheckItBox | FormBackend.php:370-377 | defines checkItBox; its meaning is stated by Form.FormB.CheckItBoxMembership |
| Form.FormB.CheckItBoxMembership | FormBackend.php:370-377 | the attribute is always checked="checked" or "", it is non-empty exactly when the string is one of the boxes, and two box lists that agree on the string's membership give the same attribute |
| Form.FormB.CheckIP | FormBackend.php:396-410 | without a handle it throws and nothing changes; otherwise the table and the appended messages are those of RateLimit.CheckStep for the page key of the URL |
| Form.FormB.LogIP | FormBackend.php:419-428 | the upsert when there is a handle and the query succeeds; FORM_LOGERR otherwise |
| Form.LineText | FormBackend.php:506-517 | defines the text of a line: the wrapped data when there is some, otherwise the closing tag or nothing |
| Form.LineTextShape | FormBackend.php:506-517 | a line ends with </p> exactly when state is false; with data it starts with the prefix and the data in strong tags; with no data and state set it is "" |
| Form.Line.constructor | FormBackend.php:502-508 | stores the prefix, the data with stripslashes applied, and the state, and leaves the line text LineText of them |
| Form.Line.Verify | FormBackend.php:510-513 | the line is wrapped only when the data is not empty |
| Form.Line.SWrap | FormBackend.php:515-517 | the line becomes the prefix and the data in strong tags |
| Form.Line.ToString | FormBackend.php:519-521 | the printed text is LineText of the stored fields |

## Left out

- printErrors, printTxt, printVal and printOptions only echo HTML (FormBackend.php:88-175).
- sendMail and lazyMail are mail transport with output buffering and template includes (FormBackend.php:194-261).
- handleIP, connect2DB, closeDB and verConstant are about the database connection and defined constants (FormBackend.php:435-476). Note that handleIP passes TRUE where checkIP expects the number of attempts (FormBackend.php:444). That call path is not modelled.
- getVar is reflective field access (FormBackend.php:484-486).
- sanitizePOST and sanitizeGET only assign the superglobals the result of sanitizeArray (FormBackend.php:352-362).
- checkdnsrr is network I/O. It is an oracle parameter.
- ip2long is library code. The address is an integer parameter, so its FALSE result for a malformed address is not modelled.
- The clock is the parameter `now` in seconds. MySQL's NOW() and time zones are not modelled.
- Whether each SQL query succeeds is a parameter. The SQL text, the table name $tbl and escaping are not modelled: checkIP does not escape the page key and logIP does with mysql_real_escape_string. Page keys are taken to be the same in both queries.
- The table's column defaults are not part of this model (its SQL file is not available). A new row is taken to start at one attempt dated now.
- Concurrent requests and the atomicity of the check-then-upsert are not modelled. The steps run one after another.
- Strings are sequences of single characters. htmlentities is modelled for & < > " only, without its charset tables for non-ASCII bytes, and ucwords upper-cases only ASCII letters.
- Request values are strings or arrays. Integers, booleans and objects are not modelled, and neither are non-string required names.
- Php.StripSlashes: only its round trip with addslashes is stated, not what it does to other strings.
- Form.FormB.CheckItBox: in_array's loose comparison is modelled as string equality, so numeric strings such as "1" and "01" are not treated as equal.
- Form.FormB.ValidEmail: it applies the rules with '$' read strictly (end of subject), not with PCRE's default that also matches before a final newline; see Findings. EmailRules.ValidSyntaxAsWritten is the reading the code runs.
- Exceptions are modelled as a Fail outcome holding the message, with no state changed.

## Findings

| source | as written | input that shows it | evidently intended | confidence | as-written member | corrected member |
|---|---|---|---|---|---|---|
| FormBackend.php:289 | `/^[A-Za-z0-9\\-\\.]+$/` without the D modifier: `$` also matches before a final newline, so a domain ending in "\n" passes | "a@b.com\n" | the domain holds only letters, digits, '-' and '.' | not executed | EmailRules.DomainNewlineExample | EmailRules.ValidSyntaxNoTrailingNewline |
| FormBackend.php:293-297 | both local-part patterns end in `$` without the D modifier, so a local part ending in "\n" passes | "a\n@b.com" | the local part is exactly an unquoted token string or a quoted string | not executed | EmailRules.LocalNewlineExample | EmailRules.ValidSyntaxNoTrailingNewline |
