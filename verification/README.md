# kf-bypass challenge core in Dafny

`kf_bypass` wraps an HTTP session. When a response is the proof-of-work
interstitial ("Checking your browser before accessing kiwifarms.net"), it
works through four steps:

1. it reads the challenge's salt and difficulty out of the inline call
   `window.sssg_challenge(...)`;
2. it searches for the first counter whose SHA-256 hex digest of
   `salt + str(counter)` begins with `diff // 4` zeros;
3. it sends the counter to `https://kiwifarms.net/.sssg/api/{salt}?{counter}`;
4. it retries the request.

A helper `cookie_from_string` is meant to turn a `Set-Cookie`-style line
into an `http.cookiejar.Cookie`. As written, the constructor call always
raises (see Findings).

The modules are:

- `Text` models the Python string operations used: `str.strip` (with and without characters), `str.split` on one character, `startswith`, and `in`.
- `Decimal` models `str(n)` for a non-negative integer and `int(s)`.
- `ProofOfWork` models `solve`. It is imperative: one loop over the counter. The digest is a parameter `digest: string -> string`, so nothing depends on SHA-256 itself.
- `ChallengePage` models `Scraper._is_challenge_page`.
- `ChallengeParams` models `Scraper._get_params`. The regular expression `window\.sssg_challenge\(([^)]*)\);` is written out by hand:
  - `IsMatch` states what a match is;
  - `MatchAt` and `FindFrom` compute the leftmost one.
- `Verification` models the verification address built in `Scraper.get`, and a reader of that address.
- `Cookies` models `cookie_from_string`:
  - as a loop over the `;`-segments that updates `path` and `expires`;
  - once more as written, where the constructor call fails (see Findings).

## Model

| member | source | states |
|---|---|---|
| `Text.Strip` | kf_bypass/__init__.py:25 | the result keeps only characters of the input; it is empty only if every character is stripped; otherwise neither end is a stripped character |
| `Text.StripPadded` | kf_bypass/__init__.py:111 | stripping `left + core + right` gives `core` exactly, when the padding is all strippable and `core`'s ends are not |
| `Text.StripIdempotent` | kf_bypass/__init__.py:25 | stripping a stripped string changes nothing |
| `Text.Split` | kf_bypass/__init__.py:110 | `split(sep)` gives one piece more than there are separators; no piece holds a separator; joining the pieces with `sep` gives the input back |
| `Text.SplitJoin` | kf_bypass/__init__.py:110 | splitting the join of separator-free pieces gives those pieces back |
| `Decimal.DecimalString` | kf_bypass/__init__.py:16 | `str(n)` is a canonical numeral: at least one ASCII digit, and no leading zero unless it is "0" |
| `Decimal.DigitsValueOfDecimal` | kf_bypass/__init__.py:16 | the numeral of `n` stands for `n` |
| `Decimal.DecimalOfDigitsValue` | kf_bypass/__init__.py:83 | every canonical numeral is `str` of the number it stands for |
| `Decimal.ParseInt` | kf_bypass/__init__.py:112 | `int()` rejects a text that is blank (for its white space) and a text without any digit |
| `Decimal.ParseIntOfDigits` | kf_bypass/__init__.py:112 | `int()` accepts any white space, then an optional '+' or '-', then ASCII digits, then white space, and gives the digits' value, negated for '-' |
| `Decimal.ParseIntAccepts` | kf_bypass/__init__.py:112 | conversely, every text `int()` accepts is, once its white space is stripped, an optional sign followed by at least one digit, and the value is theirs |
| `Decimal.ParseIntOfDecimal` | kf_bypass/__init__.py:112 | `int()` reads back `str(n)` with an optional minus sign and any white space around it |
| `Decimal.ParseIntOfDecimalString` | kf_bypass/__init__.py:112 | `int(str(n)) == n` |
| `Decimal.ParseIntRefusesTrailingLetter` | kf_bypass/__init__.py:112 | `int("8x")` fails |
| `Decimal.ParseIntRefusesSpaceAfterSign` | kf_bypass/__init__.py:112 | `int("- 8")` fails: no white space between sign and digits |
| `Decimal.ParseIntRefusesSeparator` | kf_bypass/__init__.py:112 | `int("\x1c8")` fails: the separators U+001C..U+001F are not white space for `int()` |
| `Decimal.ParseIntAcceptsPlusAndZeros` | kf_bypass/__init__.py:112 | `int("+007") == 7` |
| `ProofOfWork.Repeat` | kf_bypass/__init__.py:13 | `c * n` has `n` characters, all `c`, and none when `n <= 0` |
| `ProofOfWork.ZeroPrefix` | kf_bypass/__init__.py:12-13 | the prefix is all '0' and has `diff // 4` characters (none when `diff < 4`); when `diff` is a multiple of 4 that is exactly `diff / 4` |
| `ProofOfWork.Solve` | kf_bypass/__init__.py:11-21 | the answer is at least the start and its digest has the prefix; no counter between the start and the answer qualifies; it is the start itself when `diff < 4` |
| `ProofOfWork.SolveWithin` | kf_bypass/__init__.py:15-21 | within `limit` digests, either the first solution is returned, or none of the counters tried qualifies |
| `ProofOfWork.FirstSolutionUnique` | kf_bypass/__init__.py:15-21 | there is only one least qualifying counter, so `solve` is deterministic |
| `ProofOfWork.QualifiesAtLowerDifficulty` | kf_bypass/__init__.py:13-18 | a counter that meets a difficulty meets every lower one |
| `ChallengePage.IsChallengePage` | kf_bypass/__init__.py:100-104 | a challenge page is at least as long as the preamble and the marker together, since the marker cannot overlap the preamble |
| `ChallengePage.MarkerNotInPrefix` | kf_bypass/__init__.py:101-102 | the marker text cannot begin inside the preamble |
| `ChallengePage.ChallengePageIff` | kf_bypass/__init__.py:100-104 | a page is a challenge page exactly when it starts with the CRLF preamble and the marker occurs after the preamble |
| `ChallengePage.AlteredPrefixIsNotChallenge` | kf_bypass/__init__.py:102 | changing any one character of the preamble makes the page not a challenge page |
| `ChallengePage.LineFeedPageIsNotChallenge` | kf_bypass/__init__.py:102 | the same page served with bare LF line ends is not recognised |
| `ChallengeParams.MatchText` | kf_bypass/__init__.py:108 | a match of `window\.sssg_challenge\(([^)]*)\);` is exactly a stretch of the text made of the opener, a group without ')', and ");" |
| `ChallengeParams.MatchAt` | kf_bypass/__init__.py:108 | the pattern matches at `i` ending at the returned `j`; with no result, there is no match at `i` at all |
| `ChallengeParams.MatchEndUnique` | kf_bypass/__init__.py:108 | a match at a given place has only one possible end, the first ')' |
| `ChallengeParams.FindFrom` | kf_bypass/__init__.py:108 | `re.search` finds the leftmost match; with no result, there is no match anywhere from `i` on |
| `ChallengeParams.Group` | kf_bypass/__init__.py:108 | there is no group exactly when the text has no match; otherwise the group is the text between the opener and the ')' of the leftmost match, and it holds no ')' |
| `ChallengeParams.GetParams` | kf_bypass/__init__.py:108-116 | the "no call" error exactly when nothing matches; the field-count error, carrying the number of fields, exactly when the group does not hold two commas; the `int()` error exactly when there are three fields and `int()` rejects the second, which the error carries; on success the salt is the first field stripped of quotes and spaces, the difficulty is `int()` of the second field, the start position is passed through, and the salt holds no ',' or ')' and has no quote or space at either end |
| `ChallengeParams.SaltOfGroup` | kf_bypass/__init__.py:110-111 | the salt read out of a three-field group holds no ',' or ')' and has no quote or space at either end |
| `ChallengeParams.NoParenNoMatchBefore` | kf_bypass/__init__.py:108 | no match begins before the opener when no '(' precedes it |
| `ChallengeParams.SplitArguments` | kf_bypass/__init__.py:110 | three argument texts without ',' split back into those three texts |
| `ChallengeParams.GroupOfCall` | kf_bypass/__init__.py:108 | when no match begins before a call, the group is that call's arguments, whatever follows |
| `ChallengeParams.GetParamsOfCall` | kf_bypass/__init__.py:108-116 | for any page whose first match is a call with three argument texts: the salt is the first stripped of quotes and spaces, and the difficulty is `int()` of the second, or the `int()` error naming it; the third is ignored |
| `ChallengeParams.GetParamsOfWrittenCall` | kf_bypass/__init__.py:108-116 | a page whose first match is a call the server wrote gives back its salt and difficulty, whatever quotes and spaces surround the salt, whatever white space surrounds the numeral, whatever the patience hint and whatever surrounds the call |
| `ChallengeParams.ExampleChallengeCall` | kf_bypass/__init__.py:108-116 | `<script>window.sssg_challenge("abc123",8,5);</script>` gives salt "abc123" and difficulty 8 |
| `Verification.VerifyUrl` | kf_bypass/__init__.py:83 | the address starts with the API base; its last '?' comes right after the salt, and everything after it is the counter's numeral |
| `Verification.SplitVerifyUrlOfVerifyUrl` | kf_bypass/__init__.py:83 | salt and counter can be read back from the address, even when the salt holds a '?' |
| `Verification.VerifyUrlOfSplitVerifyUrl` | kf_bypass/__init__.py:83 | every address the reader accepts is the address of what it reads out of it |
| `Cookies.Segments` | kf_bypass/__init__.py:25 | there is one segment more than there are ';' in the line, and each is the matching piece of `split(";")` with its white space stripped |
| `Cookies.SegmentsAreStripped` | kf_bypass/__init__.py:25 | no segment holds ';', and none starts or ends with white space |
| `Cookies.KeyValue` | kf_bypass/__init__.py:33 | a result is a key and a value, each without '=', around one '=' that rebuild the segment |
| `Cookies.KeyValueIsSplit` | kf_bypass/__init__.py:27 | the unpacking succeeds exactly when the segment has one '=', that is when `split("=")` gives two fields, and these are the key and the value |
| `Cookies.Attributes` | kf_bypass/__init__.py:32-33 | one attribute per segment after the first, each the key and value of that segment |
| `Cookies.LastIndex` | kf_bypass/__init__.py:32-37 | the index of the last attribute whose key is exactly `key`, or none exactly when no key matches |
| `Cookies.LastValue` | kf_bypass/__init__.py:32-37 | there is no value exactly when no attribute has the key; a value found is that of an attribute with the key |
| `Cookies.LastValueAppend` | kf_bypass/__init__.py:32-37 | an attribute with the key overrides the earlier value; an attribute with another key changes nothing for the key |
| `Cookies.CookieFromSegments` | kf_bypass/__init__.py:27-51 | the name/value error exactly when the first segment is not one pair; otherwise the error names the first malformed attribute; on success, name and value are the first pair, `path` and `expires` are the last such attributes, `path_specified` holds exactly when a path was found, `domain` is passed through, and every other field has its fixed value |
| `Cookies.CookieFromString` | kf_bypass/__init__.py:24-52 | the same, for the segments of the line |
| `Cookies.CookieCallMissesArguments` | kf_bypass/__init__.py:39-52 | the constructor's required parameters that the call leaves unset are exactly `discard` and `rest` |
| `Cookies.CookieFromStringAsWritten` | kf_bypass/__init__.py:39-52 | the function never returns a cookie; it fails in the constructor exactly when every segment splits into one key and one value (a malformed `expires` date included, see Left out) |

## Left out

- The `requests` session, the two GETs of `Scraper.get`, the JSON `auth` field, the recursive retry and the logging (kf_bypass/__init__.py:57-97). These are network I/O and a foreign library; only the verification address of line 83 is modelled.
- SHA-256. `digest` is a parameter of the proof-of-work functions.
- The random start `4503599627370496 * random()` of `_get_params`. It is a float, so `str()` of it (and of every later counter) ends in ".0" or ".5". The model takes the start as a `nat` parameter `position`, and counters are printed as integer numerals.
- ProofOfWork.Solve: the source loops for ever when no counter qualifies. The model asks for a qualifying `bound` (a ghost witness of termination). `SolveWithin` covers the capped search that may find nothing.
- Decimal.ParseInt: accepts white space, one optional sign and ASCII digits. It does not accept the underscores or the non-ASCII decimal digits that Python's `int()` also takes, and it does not refuse numerals longer than 4300 digits as Python 3.11 and later do by default.
- Cookies.CookieFromString: `expires` is kept as the attribute's text. `dateutil`'s `parse(v).timestamp()` is not modelled, so neither are its errors on a malformed date.
- Cookies.CookieFromSegments: `expires` is kept as text, as in `CookieFromString`.
- Cookies.CookieFromStringAsWritten: `dateutil`'s errors are not modelled, so a line whose `expires` date cannot be parsed (`"sid=a; expires=garbage"`) is reported as the constructor failure, where the source raises in `parse` first.

## Findings

| source | as written | input that shows it | evidently intended | confidence | as-written member | corrected member |
|---|---|---|---|---|---|---|
| kf_bypass/__init__.py:39-52 | `Cookie(...)` is called without `discard` and `rest`. These are required parameters of `http.cookiejar.Cookie.__init__` and have no default, so the call raises `TypeError`. | `cookie_from_string("sid=abc; path=/", "example.com")` | return the cookie record built from the parsed fields | high, not executed | `Cookies.CookieFromStringAsWritten` | `Cookies.CookieFromString` |
