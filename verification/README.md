# alx-backend-user-data: authentication and redaction core in Dafny

A model of the small pieces of logic in the user-data back end that decide who a
request belongs to and what a log line may show:

- **Basic authentication** (the `BasicAuth` classes of the 0x01 and 0x02 projects).
  The header `Authorization: Basic <base64>` is handled in four steps:
  - the case-sensitive `"Basic "` scheme prefix is stripped;
  - the rest is decoded as base64 (section 4 of RFC 4648) and then as UTF-8 text (RFC 3629);
  - the text is split at its first `:` into e-mail and password;
  - in 0x02 only, the user is looked up by e-mail and the password is checked.
  Every step answers None on failure, and `current_user` chains the steps.
- **Path exclusion** (`Auth.require_auth` in 0x01 and 0x02). A path is normalised to end in `/`. It is then compared with the excluded entries:
  - in 0x01, an entry ending in `/` exempts the path equal to it;
  - 0x02 adds a trailing `*` on an entry, which means a prefix match.
  `authorization_header` reads the `Authorization` header.
- **Log redaction** (`filter_datum` in 0x00). It is one `re.sub` with the pattern `(f1|f2|...)=.*?SEP`. The model is the left-to-right scan that `re.sub` performs:
  - at each position the field names are tried in list order;
  - a value is the shortest text up to the next separator, and a line break may not come before that separator;
  - matched values are replaced by the redaction, which is inserted literally;
  - everything else is copied unchanged.
- **Registration** (`Auth.register_user` in 0x03). An e-mail address already in the database is refused with an error. Otherwise the bcrypt hash of the password is stored for that address and the new user is returned.

Modules, one per file:

| module | file | models |
|---|---|---|
| `Wrappers`, `Bytes` | wrappers.dfy, bytes.dfy | Option/Result, bytes |
| `Base64` | base64.dfy | `base64.b64decode` (non-validating) and the standard encoding |
| `Utf8` | utf8.dfy | strict UTF-8 encoding and `bytes.decode('utf-8')` |
| `ApiAuthV1` | api_auth_v1.dfy | 0x01 `auth.py` |
| `ApiAuthV2` | api_auth_v2.dfy | 0x02 `auth.py` |
| `BasicAuthV1` | basic_auth_v1.dfy | the three header functions, whose text is identical in 0x01 and 0x02 `basic_auth.py` |
| `BasicAuthV2` | basic_auth_v2.dfy | user lookup and `current_user` of 0x02 `basic_auth.py` |
| `FilteredLogger` | filtered_logger.dfy | `filter_datum` |
| `UserAuthService` | user_auth_service.dfy | `Auth` and `register_user` of 0x03 |

Python's `None` arguments are `Option.None`. Dictionaries of headers are maps. The
two `require_auth` methods keep their form as loops with an early exit: each is a
`method` proved equal to a function that says "no entry exempts the path". The 0x03
`Auth` object owns its database and updates it in place, so it is a class whose
`RegisterUser` method modifies the database field. Its result and new state are
tied to the pure function `Register`, and the properties are lemmas about
`Register`.

## Model

| member | source | states |
|---|---|---|
| ApiAuthV1.Normalize | 0x01-Basic_authentication/api/v1/auth/auth.py:19-20 | the normalised path ends in '/', extends the path and is at most one character longer; a path that already ends in '/' is left as it is |
| ApiAuthV1.RequireAuth | 0x01-Basic_authentication/api/v1/auth/auth.py:11-26 | the loop with early exit returns exactly "path or list absent, list empty, or no entry exempts the normalised path" |
| ApiAuthV1.AuthorizationHeader | 0x01-Basic_authentication/api/v1/auth/auth.py:28-34 | a value comes back exactly when there is a request with an Authorization header, and it is that header's value (0x02 auth.py lines 32-38 hold the same method) |
| ApiAuthV1.WaivedIffListed | 0x01-Basic_authentication/api/v1/auth/auth.py:22-26 | for a non-empty list, authentication is waived if and only if the normalised path is itself one of the entries |
| ApiAuthV1.TrailingSlashIrrelevant | 0x01-Basic_authentication/api/v1/auth/auth.py:19-20 | a path without a trailing '/' gets the same answer as the path with one |
| ApiAuthV1.StarEntryExemptsNothing | 0x01-Basic_authentication/api/v1/auth/auth.py:23 | '*' has no meaning here: an entry ending in '*' never exempts a path |
| ApiAuthV1.MoreEntriesWaiveMore | 0x01-Basic_authentication/api/v1/auth/auth.py:22-26 | adding entries can only turn "required" into "waived" |
| ApiAuthV1.OrderIrrelevant | 0x01-Basic_authentication/api/v1/auth/auth.py:22-26 | two lists with the same entries in another order give the same answer |
| ApiAuthV2.RequireAuth | 0x02-Session_authentication/api/v1/auth/auth.py:12-30 | the loop returns exactly "path or list absent, list empty, or no entry exempts the normalised path", with wildcard entries matching prefixes |
| ApiAuthV2.WildcardWaivesPrefix | 0x02-Session_authentication/api/v1/auth/auth.py:24-26 | an entry ending in '*' waives every path whose normalised form starts with the entry minus its '*' |
| ApiAuthV2.SlashEntryExemptsOnlyItself | 0x02-Session_authentication/api/v1/auth/auth.py:27-28 | an entry ending in '/' exempts a path if and only if the normalised path equals it |
| ApiAuthV2.PlainEntryExemptsNothing | 0x02-Session_authentication/api/v1/auth/auth.py:23-28 | an entry ending in neither '/' nor '*' exempts nothing |
| ApiAuthV2.TrailingSlashIrrelevant | 0x02-Session_authentication/api/v1/auth/auth.py:20-21 | a path without a trailing '/' gets the same answer as the path with one |
| ApiAuthV2.MoreEntriesWaiveMore | 0x02-Session_authentication/api/v1/auth/auth.py:23-30 | adding entries can only turn "required" into "waived" |
| ApiAuthV2.OrderIrrelevant | 0x02-Session_authentication/api/v1/auth/auth.py:23-30 | reordering the entries does not change the answer |
| ApiAuthV2.ExtendsFirstVersion | 0x02-Session_authentication/api/v1/auth/auth.py:23-28 | whatever 0x01 waives, 0x02 waives too, and on lists without a '*' entry the two versions agree |
| ApiAuthV2.StatusMatchesStatWildcard | 0x02-Session_authentication/api/v1/auth/auth.py:24-26 | the entry "/api/v1/stat*" waives "/api/v1/status" |
| BasicAuthV1.ExtractBase64AuthorizationHeader | 0x02-Session_authentication/api/v1/auth/basic_auth.py:12-24 | a result exists exactly when the header is present and starts with "Basic ", and the header is "Basic " followed by the result (0x01 basic_auth.py lines 10-22 hold the same method) |
| BasicAuthV1.DecodeBase64AuthorizationHeader | 0x02-Session_authentication/api/v1/auth/basic_auth.py:26-39 | a result implies the input was present, base64-decoded without error, and the bytes are the UTF-8 encoding of the result (0x01 basic_auth.py lines 24-37 hold the same method) |
| BasicAuthV1.ColonIndex | 0x02-Session_authentication/api/v1/auth/basic_auth.py:52 | an index exists exactly when the text holds ':', and it is the first ':' |
| BasicAuthV1.ExtractUserCredentials | 0x02-Session_authentication/api/v1/auth/basic_auth.py:41-53 | absent text or text without ':' gives (None, None); otherwise a ':'-free e-mail and a password that rebuild the text around one ':' (0x01 basic_auth.py lines 39-51 hold the same method) |
| BasicAuthV1.ExtractAfterScheme | 0x02-Session_authentication/api/v1/auth/basic_auth.py:22-24 | extracting from "Basic " + s gives s, for every s |
| BasicAuthV1.LowerCaseSchemeRefused | 0x02-Session_authentication/api/v1/auth/basic_auth.py:22-23 | the scheme match is case-sensitive: "basic " + s gives None |
| BasicAuthV1.DecodeEncodedText | 0x02-Session_authentication/api/v1/auth/basic_auth.py:35-37 | decoding the base64 encoding of the UTF-8 bytes of any text gives that text back |
| BasicAuthV1.DecodeSucceeds | 0x02-Session_authentication/api/v1/auth/basic_auth.py:35-37 | the converse of the method's contract: any header text, canonical or not, that base64-decodes to the UTF-8 bytes of a text gives exactly that text |
| BasicAuthV1.LineBreakSkipped | 0x02-Session_authentication/api/v1/auth/basic_auth.py:36 | a non-canonical header: "YWJj\n" decodes to "abc", the line break being skipped |
| BasicAuthV1.MalformedBase64Refused | 0x02-Session_authentication/api/v1/auth/basic_auth.py:35-39 | text the base64 decoder rejects gives None |
| BasicAuthV1.NonUtf8Refused | 0x02-Session_authentication/api/v1/auth/basic_auth.py:37-39 | "/w==" is valid base64 for the byte 0xFF, which is not UTF-8, so the result is None |
| BasicAuthV1.SplitRecoversPair | 0x02-Session_authentication/api/v1/auth/basic_auth.py:52-53 | splitting e + ":" + p with a ':'-free e gives (e, p), even when p holds ':' |
| Base64.Encode | 0x02-Session_authentication/api/v1/auth/basic_auth.py:36 | the encoding has 4 characters per started 3 bytes |
| Base64.EncodeUsesAlphabet | 0x02-Session_authentication/api/v1/auth/basic_auth.py:36 | every character of the encoding is from the alphabet or is '=' |
| Base64.Decode | 0x02-Session_authentication/api/v1/auth/basic_auth.py:36 | `b64decode` of a str (the decoder states `Step`, `Scan` and `Finish` model the non-validating loop): non-ASCII text is refused, and the output holds at most three bytes per four alphabet characters; DecodeEncode, DecodeRejectsIncompleteQuantum, DecodeSkipsForeignCharacter, DecodeSkipsEarlyPadding, DecodeIgnoresTrailingBits and DecodeIgnoresTextAfterPadding state the main cases |
| Base64.DecodeEncode | 0x02-Session_authentication/api/v1/auth/basic_auth.py:36 | decoding the standard encoding of any byte string gives that byte string |
| Base64.DecodeRejectsIncompleteQuantum | 0x02-Session_authentication/api/v1/auth/basic_auth.py:36 | text without '=' whose alphabet characters do not fill whole quanta of four is rejected |
| Base64.DecodeSkipsForeignCharacter | 0x02-Session_authentication/api/v1/auth/basic_auth.py:36 | an ASCII character outside the alphabet and other than '=' is ignored wherever it stands |
| Base64.DecodeSkipsEarlyPadding | 0x02-Session_authentication/api/v1/auth/basic_auth.py:36 | an '=' met before the second character of a quantum is ignored |
| Base64.DecodeIgnoresTrailingBits | 0x02-Session_authentication/api/v1/auth/basic_auth.py:36 | a block of two characters and "==" decodes to the byte of its first twelve bits whatever the last four bits are, so non-canonical text such as "YR==" is accepted |
| Base64.DecodeIgnoresTextAfterPadding | 0x02-Session_authentication/api/v1/auth/basic_auth.py:36 | once a padding run has ended the input, any ASCII text after it is ignored |
| Utf8.Decode | 0x02-Session_authentication/api/v1/auth/basic_auth.py:37 | `bytes.decode('utf-8')`: a decoded text has no more characters than there are bytes; DecodeEncode and EncodeDecode state that it inverts Encode in both directions |
| Utf8.DecodeFirst | 0x02-Session_authentication/api/v1/auth/basic_auth.py:37 | a decoded first character takes between 1 and all of the bytes, and those bytes are its encoding |
| Utf8.DecodeEncode | 0x02-Session_authentication/api/v1/auth/basic_auth.py:37 | decoding the UTF-8 encoding of any text gives the text |
| Utf8.EncodeDecode | 0x02-Session_authentication/api/v1/auth/basic_auth.py:37 | bytes that decode to a text are exactly that text's encoding |
| BasicAuthV2.Search | 0x02-Session_authentication/api/v1/auth/basic_auth.py:64-67 | the search returns only stored users with that e-mail, and starts with the first such user in store order whenever one exists |
| BasicAuthV2.UserObjectFromCredentials | 0x02-Session_authentication/api/v1/auth/basic_auth.py:55-70 | a missing credential or an unknown e-mail gives None; a user returned is stored, has the e-mail and passes the password check |
| BasicAuthV2.FirstMatchDecides | 0x02-Session_authentication/api/v1/auth/basic_auth.py:64-70 | only the first user with the e-mail is tried: it is returned if the password is valid for it, else None |
| BasicAuthV2.CurrentUser | 0x02-Session_authentication/api/v1/auth/basic_auth.py:72-88 | a user is returned only for a request with an Authorization header starting "Basic " whose rest decodes to text with ':', and that user is stored, its ':'-free e-mail followed by ':' begins the text, and it passes the password check for the rest of the text |
| BasicAuthV2.CurrentUserOfEncodedCredentials | 0x02-Session_authentication/api/v1/auth/basic_auth.py:72-88 | a header "Basic " followed by any text that base64-decodes to UTF-8(e + ":" + p), with ':'-free e, yields exactly the credential check of (e, p) |
| BasicAuthV2.NoBasicHeaderNoUser | 0x02-Session_authentication/api/v1/auth/basic_auth.py:76-81 | without an Authorization header that starts "Basic ", there is no user |
| FilteredLogger.FilterDatum | 0x00-personal_data/filtered_logger.py:15-32 | the output is the message cut into copied characters and assignments of listed fields, with only the assigned values replaced by the redaction, where the cut is leftmost: no match starts at a copied character and each masked piece is the match at its place; LeftmostCutIsUnique makes that cut, and so the result, unique |
| FilteredLogger.Alternatives | 0x00-personal_data/filtered_logger.py:31 | the alternatives of the group are exactly the fields in order, or the one empty alternative when there are no fields |
| FilteredLogger.ValueLength | 0x00-personal_data/filtered_logger.py:31 | the lazy value ends at the first separator with no line break before it; with no such separator there is no value |
| FilteredLogger.TryField | 0x00-personal_data/filtered_logger.py:31 | a match of one alternative is that field, '=', a value free of separator and line break, the separator and the rest; when the text starts with the field and '=' but does not match, no terminated value follows |
| FilteredLogger.MatchAt | 0x00-personal_data/filtered_logger.py:31 | a match is a listed field, '=', a value free of separator and line break, the separator, and the rest of the text |
| FilteredLogger.MatchAtIsFirstMatch | 0x00-personal_data/filtered_logger.py:31 | alternation in list order: a match is that of the first alternative that matches, every earlier alternative failing there |
| FilteredLogger.NoMatchNoAlternative | 0x00-personal_data/filtered_logger.py:31 | no match at a position means no alternative matches there, so a character ScanIsLeftmost says is copied is one where no listed field matches |
| FilteredLogger.Scan | 0x00-personal_data/filtered_logger.py:31-32 | every masked piece names a listed field and holds a value free of separator and line break |
| FilteredLogger.ScanReassembles | 0x00-personal_data/filtered_logger.py:31 | the pieces of the scan put back together are the message: matches do not overlap and nothing is lost |
| FilteredLogger.OnlyValuesChange | 0x00-personal_data/filtered_logger.py:31-32 | the output is the message with only matched values replaced by the redaction; field names, '=' and separators stay |
| FilteredLogger.ScanIsLeftmostCut | 0x00-personal_data/filtered_logger.py:31 | the scan's cut is a leftmost cut at every position |
| FilteredLogger.LeftmostCutTail | 0x00-personal_data/filtered_logger.py:31 | the pieces after the first of a leftmost cut form a leftmost cut of the rest of the text |
| FilteredLogger.LeftmostCutIsUnique | 0x00-personal_data/filtered_logger.py:31 | two leftmost cuts of the same text are equal, so re.sub's result is determined |
| FilteredLogger.ScanIsLeftmost | 0x00-personal_data/filtered_logger.py:31 | every kept character is a place where no match starts, and every masked piece is the match at its place |
| FilteredLogger.MatchNeedsSeparator | 0x00-personal_data/filtered_logger.py:31 | no match without a separator in the text |
| FilteredLogger.NoSeparatorUntouched | 0x00-personal_data/filtered_logger.py:31 | a message without the separator comes back unchanged |
| FilteredLogger.ScanIgnoresTail | 0x00-personal_data/filtered_logger.py:31 | text without the separator appended to a message is copied unchanged after the filtered message |
| FilteredLogger.UnterminatedTailUntouched | 0x00-personal_data/filtered_logger.py:31 | a field occurrence with no separator after it is left as it is |
| FilteredLogger.NoFieldAssignmentUntouched | 0x00-personal_data/filtered_logger.py:31 | a message in which no listed field is followed by '=' comes back unchanged |
| FilteredLogger.OccurrenceRedacted | 0x00-personal_data/filtered_logger.py:31-32 | an assignment of a listed field at the front becomes field, '=', the redaction and the separator, and scanning resumes after it |
| FilteredLogger.ScanKeepsPrefix | 0x00-personal_data/filtered_logger.py:31 | text in which no assignment starts is copied as it is before the filtered remainder |
| FilteredLogger.FilterKeepsPrefix | 0x00-personal_data/filtered_logger.py:31 | the same for filter_datum: such a head is copied and the tail filtered on its own |
| FilteredLogger.SingleFieldRedacted | 0x00-personal_data/filtered_logger.py:31-32 | with one field, a head without the field's first letter followed by one assignment comes back with only that value redacted |
| FilteredLogger.PasswordExample | 0x00-personal_data/filtered_logger.py:31-32 | "name=Bob;password=secret;" filtered for "password" is "name=Bob;password=***;" |
| FilteredLogger.FieldMatchedInsideKey | 0x00-personal_data/filtered_logger.py:31 | field names match inside keys: "username=x;" filtered for "name" is "username=***;" |
| UserAuthService.HashPassword | 0x03-user_authentication_service/auth.py:11-16 | bcrypt is applied, with the given salt, to the byte string whose UTF-8 decoding is the password, whichever such bytes are named |
| UserAuthService.Register | 0x03-user_authentication_service/auth.py:27-36 | failure exactly when the store is left as it was; no stored user ever changes; success means the address was new, the user has it, and the store gains exactly that entry |
| UserAuthService.Auth.constructor | 0x03-user_authentication_service/auth.py:24-25 | a new service starts with an empty database and the given hash function |
| UserAuthService.Auth.RegisterUser | 0x03-user_authentication_service/auth.py:27-36 | the outcome and the new database are those of Register on the old database |
| UserAuthService.DuplicateRefused | 0x03-user_authentication_service/auth.py:31-33 | a known address fails with an error naming it and leaves the store unchanged |
| UserAuthService.NewEmailAdded | 0x03-user_authentication_service/auth.py:34-36 | a new address adds exactly one user, returned with that address, and all other users keep their hashes |
| UserAuthService.StoredIsHash | 0x03-user_authentication_service/auth.py:11-16 | the stored text is the text whose UTF-8 bytes are bcrypt's output for the password's bytes and the salt |
| UserAuthService.RegisterTwice | 0x03-user_authentication_service/auth.py:31-36 | after a successful registration, registering the same address again fails, whatever the password |
| UserAuthService.RegisterSameEmailTwice | 0x03-user_authentication_service/auth.py:31-36 | on a service, when the first of two registrations of one address succeeds, the second is refused and the database holds the first hash |

## Left out

- `isinstance` checks: arguments are strings or absent (`Option`); non-string arguments have no counterpart.
- Header names: Flask's header lookup ignores case. The model's header map uses the canonical name `Authorization` only.
- `Auth.current_user` of the base classes (0x01 and 0x02 `auth.py`) always returns None. It is not modelled.
- `Auth.session_cookie` (0x02 `auth.py`) reads an environment variable and the request's cookie jar. It is not modelled.
- Base64: the decoder follows CPython 3.11 and later, where '=' is ignored until two characters of a quantum have been read. Older CPython versions handled stray '=' differently.
- `User.search` and `User.is_valid_password` (the `models` package) are not part of this model. The user store is a sequence of user records in store order, and password checking is a predicate supplied by the caller.
- filter_datum: the model demands field names and a separator free of regex metacharacters (`LiteralPattern`). Names with metacharacters would change the pattern's meaning. The separator is a single character; the Python function accepts any string there.
- filter_datum with an empty field list is modelled exactly: the pattern `()=.*?SEP` redacts after every '=' that a separator follows.
- `get_logger`, `get_db`, `main` and `RedactingFormatter` in `filtered_logger.py` are logging and MySQL I/O. They are not modelled.
- The 0x03 `DB` class (the SQLAlchemy store behind `find_user_by` and `add_user`) is not part of this model. It is a map from e-mail address to stored hash, and the database-assigned user id is not modelled.
- bcrypt is a function given to the service when it is built. `bcrypt.gensalt()` draws a random salt, which is an argument of each registration.
- UserAuthService.StoredIsHash: it does not state that the stored value differs from the raw password. That depends on bcrypt, which is a parameter here.
- Flask routing (`app.py`, the views) is not modelled. That covers JSON responses, `abort` and cookies.
