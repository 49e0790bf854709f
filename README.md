# Yubico OTP validation client, modelled in Dafny

This project models the PHP class `Bulldog\Yubico\Yubico`. It checks a
one-time password (OTP) typed by a YubiKey against the Yubico validation
service, protocol 2.0 (the `wsapi/2.0/verify` endpoints). The model covers:

- **The OTP parser** (`parsePasswordOTP`) — module `OtpParser`, file
  `otp_parser.dfy`. The regular expression
  `/^((.*)[:])?(([A]{0,16})([A]{32}))$/i` is matched the way PCRE matches it:
  - `$` also matches before one final "\n";
  - `.` does not match "\n";
  - the greedy `.*` takes the last delimiter that works.

  The modhex alphabet is tried first, then the Dvorak one; a Dvorak match has
  its otp group translated by `strtr()`.
- **Keyboard-layout properties and worked examples of the parser** — module
  `OtpLayouts`, file `otp_layouts.dfy`.
- **The request** — module `Request`, file `request.dfy`:
  - the parameter array and what `ksort()` makes of it;
  - the `foreach` loop and `ltrim()` that build the query string;
  - the optional `h` signature, with `+` escaped as `%2B`.
- **The response parser** (`parseResponse`) — module `Response`, file
  `response.dfy`, including the `foreach` loop with its two skips.
- **The client object** — module `Client`, file `client.dfy`:
  - its `urls` and `reason` fields, and a ghost log of the URLs it has
    requested;
  - `verify()`, `verifyYubicoOtp()`, `getReason()`, `setUrls()` and the
    constructor;
  - the status decision.
- **PHP built-ins with the behaviour the client relies on** — module
  `PhpStrings`, file `php_strings.dfy`: `strtolower`, `trim`/`ltrim`,
  `explode`/`implode`, `strtr` and the byte order of `strcmp`/`ksort`.
- **Option and Result** — module `Wrappers`, file `wrappers.dfy`.

The code is modelled as written, including places where it does not do what
its docblocks and its structure indicate:

- **Wrong endpoint.** `verifyYubicoOtp($otp, $url)` ignores `$url` and always
  requests `urls[0]` (`Client.Yubico.RequestUrl`).
- **The OK test always fails.** The docblocks of `verify()` and
  `verifyYubicoOtp()` (src/Yubico.php:78 and :108) promise true for a good
  OTP. But the test `!strcmp($status, 'ok') !== 0` compares a bool with an int
  using `!==`, so it is always true. As a result, `verifyYubicoOtp()` returns
  false for every answer, `"status=OK"` included
  (`Client.AsWrittenNeverAccepts`).
  - `verify()` therefore never returns true, except for `verify($otp, true)`
    with an empty endpoint list.
  - For the OTP `ccccccbdefghcbdefghcbdefghcbdefgh` and an adapter answering
    `"status=OK\n"`, the reason becomes `"OK"` and the result is false
    (`Client.Yubico.ScenarioRound`).
  - The evidently intended decision is stated separately as
    `Client.IntendedAccept`, and is not used by the rest of the model.
- **Dvorak round trip.** The second pattern and its `strtr()` table
  (src/Yubico.php:210-216) suggest the intent: an OTP typed on a Dvorak layout
  is translated back to modhex. But the code tries modhex first. So a Dvorak
  text made only of keys that are also modhex letters comes back untranslated
  (`OtpLayouts.DvorakAmbiguous`). The round trip holds only when the OTP
  contains b, e, r or t (`OtpLayouts.DvorakTypedOtp`).

The HTTP adapter, `base64_encode`/`base64_decode`, `hash_hmac('sha1', …)` and
the nonce `md5(uniqid(rand()))` are parameters of the model:

- the adapter is a function from URL to body, or `None` when it throws;
- the three functions are fields of `Request.Primitives`, given to the
  constructor;
- the nonce of the k-th round of `verify()` is `nonce(k)`.

## Model

| member | source | states |
|---|---|---|
| PhpStrings.Lower | src/Yubico.php:149 | strtolower() keeps the length and lower-cases exactly the ASCII letters A-Z, character by character |
| PhpStrings.LTrim | src/Yubico.php:133 | ltrim() drops the longest prefix made only of the given characters; what remains does not start with one |
| PhpStrings.Explode | src/Yubico.php:172 | explode() gives at least one piece, no piece holds the separator, and the pieces implode back to the input |
| PhpStrings.ExplodeImplode | src/Yubico.php:179 | explode() is the only split of its input into separator-free pieces: exploding an implode gives the pieces back |
| PhpStrings.StrTr | src/Yubico.php:216 | strtr() with two equal-length strings translates each character independently and keeps the length |
| PhpStrings.TrCharAt | src/Yubico.php:216 | with a table free of repeats, strtr() sends the k-th character of from to the k-th character of to |
| PhpStrings.TrCharOutside | src/Yubico.php:216 | a character missing from the table is left as it is (upper-case input passes through) |
| PhpStrings.LessAsymmetric | src/Yubico.php:127 | the byte order that ksort() and strcmp() use is asymmetric |
| OtpParser.Subject | src/Yubico.php:205-207 | the part of the subject `$` lets the pattern cover: the whole input, or the input without one final "\n" |
| OtpParser.GreedySplit | src/Yubico.php:205 | the greedy `(.*)[:]` takes the largest delimiter position after which the rest matches, and none above it works |
| OtpParser.MatchSubject | src/Yubico.php:205-208 | a match is `password:otp` or the otp alone with an empty password; the otp is 32-48 class characters; the ciphertext is its last 32, the prefix the 0-16 before |
| OtpParser.ParsePasswordOtp | src/Yubico.php:203-226 | on success the ciphertext has 32 characters, the prefix at most 16, and the otp is prefix plus ciphertext in length |
| OtpParser.MatchOtpAccepts | src/Yubico.php:205-208 | every input of the shape the pattern describes matches, with password, prefix and ciphertext recovered exactly, with or without one final "\n" |
| OtpParser.LastDelimiterUnique | src/Yubico.php:205 | when the otp part holds no ':', the split of `password:otp` at the delimiter is unique, so the password is everything before the last ':' |
| OtpParser.ParseAcceptsExactly | src/Yubico.php:205-214 | parsing succeeds if and only if the input has the shape the pattern describes in the modhex or the Dvorak class |
| OtpParser.RejectsShort | src/Yubico.php:214 | inputs shorter than 32 characters are rejected |
| OtpParser.ParseModhex | src/Yubico.php:205-208 | a modhex input is returned with its otp as typed (not lower-cased) |
| OtpParser.NoModhexMatch | src/Yubico.php:205-209 | an otp text with a character outside modhex makes the first pattern fail, so the Dvorak pattern is consulted |
| OtpParser.ParseDvorak | src/Yubico.php:210-223 | a Dvorak input that is not modhex gets its otp translated by strtr(), while the prefix and ciphertext stay as typed |
| OtpParser.ParsedOtpLetters | src/Yubico.php:216-219 | every character of a returned otp is a letter of the modhex or the Dvorak class |
| OtpParser.LettersFree | src/Yubico.php:216-219 | text made of letters of the two classes holds no '&' |
| OtpLayouts.DvorakKey | src/Yubico.php:216 | the k-th modhex letter and the k-th Dvorak character are translated into each other |
| OtpLayouts.DvorakTranslationInverts | src/Yubico.php:216 | strtr() from Dvorak to modhex undoes the translation of a modhex text to its Dvorak keys |
| OtpLayouts.TypedOnDvorak | src/Yubico.php:211-212 | a modhex OTP typed on Dvorak keys is a text of the same length in the Dvorak table |
| OtpLayouts.DvorakTypedOtp | src/Yubico.php:205-223 | a modhex OTP holding b, e, r or t, typed on Dvorak keys, parses back to the OTP itself |
| OtpLayouts.DvorakAmbiguous | src/Yubico.php:205-219 | an OTP without b, e, r or t typed on Dvorak keys matches modhex first and comes back untranslated, differing from the OTP |
| OtpLayouts.DvorakUpperCaseUntranslated | src/Yubico.php:210-216 | upper-case Dvorak keys X, P, Y match case-insensitively but strtr() leaves them untranslated |
| OtpLayouts.ExampleOtp | src/Yubico.php:205-223 | ccccccbdefghcbdefghcbdefghcbdefgh parses with an empty password, prefix "c" and a 32-character ciphertext |
| Request.KsortOrder | src/Yubico.php:118-127 | the sorted parameter array has strictly ascending keys and the same entries as the array the source writes |
| Request.KsortResult | src/Yubico.php:127 | any key-ascending arrangement of the parameter entries is the sorted array: ksort() has one possible result |
| Request.SortedUnique | src/Yubico.php:127 | two key-ascending arrays with the same entries are equal |
| Request.UnsignedQuery | src/Yubico.php:127-133 | the foreach loop and ltrim() produce the pairs of the sorted array joined by '&', with no leading '&' |
| Request.PrefixedSerialize | src/Yubico.php:131 | the loop's text is the joined pairs with exactly one '&' in front |
| Request.LTrimOne | src/Yubico.php:133 | ltrim(…, "&") removes exactly that one '&' |
| Request.QueryText | src/Yubico.php:118-133 | the unsigned query is id=…&nonce=…&otp=…&sl=0&timeout=30&timestamp=1, values not escaped |
| Request.QueryRoundTrip | src/Yubico.php:129-133 | when no key or value holds '&', splitting the query at '&' gives back the pairs, and splitting a pair at '=' gives back its key and value |
| Request.EscapePlus | src/Yubico.php:139 | the escaped signature holds no '+', is unchanged when there was none, and gains no '&' |
| Request.EscapeRoundTrip | src/Yubico.php:139 | decoding "%2B" undoes the escaping of a text without '%', such as base64 output |
| Request.SignedRoundTrip | src/Yubico.php:136-141 | a signed query splits into the pairs followed by h=signature; an unsigned one into the pairs alone |
| Request.SortedFree | src/Yubico.php:118-125 | with no '&' in the id, the otp or the nonce, no entry of the parameter array holds one |
| Response.ParseResponse | src/Yubico.php:169-189 | the loop with its two skips computes the array of the lines folded in order |
| Response.LineEntryShape | src/Yubico.php:179-185 | a line gives an entry iff it holds '='; the key is the text before the first '=', the value the text up to the next '=' |
| Response.CollectLookup | src/Yubico.php:174-186 | a key is in the array iff some line carries it, and its value comes from the last such line |
| Response.CollectMember | src/Yubico.php:174-186 | a key is in the array exactly when some line carries it |
| Response.CollectLastValue | src/Yubico.php:185 | a later line with the same key overwrites an earlier one |
| Response.ResponseRoundTrip | src/Yubico.php:169-189 | a body rendered from entries with distinct keys parses back to exactly those entries |
| Response.TwoEntries | src/Yubico.php:174-186 | two entry lines followed by two empty lines parse to their two entries, the second overwriting the first on equal keys |
| Response.StatusLine | src/Yubico.php:169-189 | the one-line answer "status=v\n" parses to the array with status v only |
| Client.AsWrittenNeverAccepts | src/Yubico.php:151-155 | the decision as written rejects every status, "ok" included |
| Client.IntendedAcceptExactly | src/Yubico.php:149-151 | the intended decision accepts exactly the statuses that trim to ok, oK, Ok or OK |
| Client.Decide | src/Yubico.php:145-155 | the end of a round stores the status of the parsed answer and never accepts |
| Client.Yubico.constructor | src/Yubico.php:44-66 | a new client keeps the id and adapter, holds the base64-decoded key, the five default endpoints and no reason |
| Client.Yubico.VerifyYubicoOtp | src/Yubico.php:110-156 | one round: the result, the reason afterwards and the one URL requested (if any) are those of Attempt |
| Client.Yubico.Send | src/Yubico.php:118-155 | after a successful parse: one request to urls[0], then the status stored and the decision made |
| Client.Yubico.BuildRequest | src/Yubico.php:118-143 | the URL requested is urls[0] + "?" + the (signed) query, whatever endpoint the round was given |
| Client.Yubico.Verify | src/Yubico.php:80-98 | multiple mode with no endpoints returns true untouched; otherwise exactly the first round runs and its outcome is returned |
| Client.Yubico.GetReason | src/Yubico.php:233-236 | returns the stored reason |
| Client.Yubico.SetUrls | src/Yubico.php:243-246 | replaces the endpoint list |
| Client.Yubico.AttemptNeverAccepts | src/Yubico.php:151-155 | no round returns true, so the foreach of verify() stops after its first round |
| Client.Yubico.AttemptRejectsUnparsable | src/Yubico.php:112-116 | a round fails with InvalidOtp iff the input does not parse; that round sends no request and keeps the reason |
| Client.Yubico.ReasonIsRawStatus | src/Yubico.php:145-147 | for any answer body, the reason is the raw, untrimmed value of the last line with key status, or none when no line has that key |
| Client.Yubico.StatusAnswered | src/Yubico.php:143-155 | a parsed OTP answered with "status=v\n" ends with reason v and result false |
| Client.Yubico.ScenarioRound | src/Yubico.php:108-156 | the OTP ccccccbdefgh… answered with "status=OK\n" stores reason OK and returns false, although the docblock promises true for a good OTP and the intended decision accepts OK |
| Client.Yubico.QueryFields | src/Yubico.php:118-141 | the server splits the query at '&' into id, nonce, otp, sl, timeout, timestamp in that order, followed by h exactly when the key is set |
| Client.ParsedOtpFree | src/Yubico.php:120 | a parsed otp holds no '&', so it cannot break the query string |
| Client.OkAccepted | src/Yubico.php:149-151 | the intended decision accepts "OK" |

## Left out

- HTTP transport. The Guzzle adapter and PSR-7 stream reading are not part of
  this model. The adapter is a function from URL to body, with `None` for an
  adapter that throws; what it throws is not modelled.
- Cryptography and encoding. `hash_hmac('sha1', …)`, `base64_encode` and
  `base64_decode` are uninterpreted parameters (`Request.Primitives`). The
  model does not say what they compute.
- The nonce. `md5(uniqid(rand()))` is a parameter, because it depends on a
  clock and a random source.
- The `$delim` argument of `parsePasswordOTP`. It is fixed to its default
  `[:]`, the only value the class passes.
- PHP notices. When the answer has no `status` line, or `setUrls([])` leaves
  no `urls[0]`, PHP reads null and emits a notice:
  - the reason becomes `None` and the status text `""`;
  - the URL prefix becomes `""`;
  - the notice itself is not modelled.
- Numeric-string keys. PHP converts a numeric key such as `"123"` of the
  response array to an integer key, but this does not change lookups of
  `status`. The model keeps all keys as strings.
- Case folding. Both `strtolower` and the `i` flag of the pattern are modelled
  on ASCII letters only. Bytes outside ASCII are left as they are.
- Client.Yubico.SetUrls: only list arrays (keys 0 to n-1, in that order) are
  modelled, as a sequence. PHP accepts any array. `$this->urls[0]` reads the
  entry with key 0, which may be missing (`['eu' => …]`) or not the first one
  `foreach` visits (`[1 => 'a', 0 => 'b']`). The model always uses the first
  element.
- Client.Yubico.Verify: the `foreach` with an early `return false` is written
  as a loop guarded by "no round has failed yet". Since no round returns true,
  the contract states the result of the single round that runs rather than a
  general loop over all endpoints.
- Client.Yubico.VerifyYubicoOtp: the `InvalidArgumentException` and any
  exception from the adapter are `Failure` results rather than exceptions.
  Throwing ends the round before the reason is written, and the model keeps
  that order.
