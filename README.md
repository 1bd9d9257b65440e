# sendfile-fcgi in Dafny

sendfile-fcgi is a small FastCGI responder. It serves requests whose
SCRIPT_NAME is `/sendfile/`.

1. It takes the query string and turns every `+` into a space.
2. It cuts the query into `&`/`;`-separated tokens.
3. It URL-decodes each token and splits it at its first `=`.
4. The first `filename=<path>` field whose value is not empty is answered.

The answer is a header block. If the path is absolute and the file can be read, the block is
`Content-type`, `Content-Disposition: attachment;filename="<basename>[.img]"` and
`X-SendFile: <path>`, so the front-end web server sends the file itself. Otherwise the block is a
`Status:` line with 400, 403, 404 or 500. In a release (NDEBUG) build, a request the program does not
answer gets the 400 block. A debug build instead dumps a routed query that the dispatcher turns down.

The model follows the C program's own structure:

- `CStrings`: C strings. A `seq<char>` is a buffer, and its C string is the part before the first NUL. `strchr` is `Find`.
- `Decoder`: `urldecode`.
  - `Run` is the decoding machine read as a function, one character per turn.
  - `Reference` is an independent definition that reads one escape at a time. The two are proved equal.
  - `UrlDecode` is the in-place loop over an `array<char>`. It is proved against `Decode`.
- `Response`: what `sendfile_filename` and `fcgi_status` write.
  - `stat`/`access` are an oracle (`FileSystem`).
  - `Classify` is the decision and `Render` the bytes.
  - `ParseBlock` is a reader for header blocks, and it is used to prove that every response is one well-formed block.
- `Query`: `sendfile_query_string` and `sendfile_field`.
  - As functions: `ReplacePlus`, `Tokens`, `ParseToken`, `FieldOutcome` and `First`, which make up `QueryResponse`.
  - As the C function's two loops over a mutable buffer: `PlusPass`, `Strtok`, `DecodeToken`, `SplitInPlace`, `Field`, `Round`, `TokenLoop` and `ProcessQuery`. They are proved against `QueryResponse`.
- `Router`: `sendfile_request`, `fcgi_request` and the 400 fallback of `main`.
  - `QueryOf` picks the query from QUERY_STRING or REQUEST_URI (:240-254).
  - `SendfileRequest` is `sendfile_request` (:238-270), `FcgiRequest` is `fcgi_request` (:272-284), and `Serve` is one turn of `main`'s loop with its 400 fallback (:290-292).
  - The FastCGI parameters are a map, `Params`.
  - A request's output is a `Reply`: a header block, or the debug dump of a build without NDEBUG.
- `Scenarios`: concrete inputs worked out with the model.

Behaviour the model takes from the code:

- strtok never yields an empty token. `;;a=1&&b=2;` has two tokens.
- A token that does not decode, or whose decoded C string has no `=`, stops the loop. A decoded `%00` cuts the text before `strchr` reads it. A later `filename=` is never looked at, and in a release (NDEBUG) build the request then fails.
- Inside an escape, a non-hex character is dropped and the escape goes on. `%g41` decodes to `A`.
- The escape accumulator is not reset at `%`. Two 4-bit shifts push the old value out of the low byte, so each escape still gives its own byte.
- Lowercase hex digits are converted to `'A'`..`'F'` (0x41..0x46) instead of 10..15. So `%2f` decodes to `f`, while `%2F` decodes to `/`. In the first place of an escape a lower-case digit counts as 1..6, because its 0x40 is shifted out of the byte: `%a0` gives 0x10.
- The tokens are looked at in order, and the first one that decides wins. The dispatcher turns a query down when no token decodes to `filename=<v>` with `v` non-empty before the first token that fails to decode or whose decoded C string has no `=`. A served token that comes first is answered, whatever follows it. In a release (NDEBUG) build a query that is turned down makes `sendfile_request` return false, and `main` writes the 400 block. A debug build dumps the query instead, and only a missing query or a failed `strdup` gets the 400 block there.
- A response parses as one header block unless the decoded path holds a CR. A CR would end the `X-SendFile` line early. `OneBlockPerRequest` states both cases.
- "Parses" and "well-formed" are meant for CRLF line framing only. The reader `ParseBlock` ends a line only at CRLF, so a bare LF (a decoded `%0A`) inside a path is read as part of the line, while a reader that also accepts a bare LF would split the line there.

## Model

| member | source | states |
|---|---|---|
| CStrings.CStr | sendfile-fcgi.c:182-191 | the C string of a buffer is the NUL-free prefix of it, ended by the first NUL or by the end |
| CStrings.Find | sendfile-fcgi.c:187-189 | `strchr`: the index of the first occurrence, with no earlier occurrence, and the length exactly when the character is absent |
| CStrings.CStrCut | sendfile-fcgi.c:191 | writing NUL at an index inside the C string cuts the key there, and the C string just past it is the rest of the original string |
| Decoder.Decode | sendfile-fcgi.c:25-59 | decoding never makes the text longer (it is done in place) |
| Decoder.NextHex | sendfile-fcgi.c:41 | the first hex digit of the text, with no hex digit before it, and the rest after it; None exactly when the text holds no hex digit |
| Decoder.Escape | sendfile-fcgi.c:41-53 | an escape uses up at least two characters, its two digits, of what follows the `%` |
| Decoder.SkipToHex | sendfile-fcgi.c:41 | inside an escape the machine passes over non-hex characters without writing anything or changing state |
| Decoder.EscapeSteps | sendfile-fcgi.c:42-53 | the first digit of an escape only shifts it into `val`; the second writes `(hi << 4 \| lo) & 0xff` and leaves the escape |
| Decoder.EscapeRun | sendfile-fcgi.c:34-53 | after a `%` the machine ends inside the escape exactly when no two hex digits follow; otherwise it writes the escape's byte, whatever `val` held before |
| Decoder.RunAgreesWithReference | sendfile-fcgi.c:32-58 | started outside an escape, the machine ends outside one exactly when the one-escape-at-a-time grammar accepts, and then writes what the grammar gives |
| Decoder.DecodeIsReference | sendfile-fcgi.c:25-59 | `urldecode` returns NULL exactly where the grammar fails, and otherwise the grammar's decoding |
| Decoder.UpperDigitValue | sendfile-fcgi.c:41-47 | a digit 0-9 or A-F is a hex digit whose value is the number it spells |
| Decoder.EscapeByteIsHexValue | sendfile-fcgi.c:41-53 | `%` and two digits 0-9/A-F stand for the byte `16 * hi + lo` |
| Decoder.LowercaseDigitValue | sendfile-fcgi.c:41-43 | a lower-case digit a-f adds 0x41..0x46 to `val`, not 10..15 |
| Decoder.HexValue | sendfile-fcgi.c:41-47 | the number a hex digit spells in either case, below 16: what a correct decoder would add |
| Decoder.LowercaseLowNibble | sendfile-fcgi.c:41-51 | for any first digit, a lower-case second digit a-f leaves 1..6 in the low nibble instead of 10..15 |
| Decoder.LowercaseEscapeIsMisread | sendfile-fcgi.c:41-51 | an escape whose second digit is lower-case never gives the byte its digits spell, whatever its first hex digit |
| Decoder.LowercaseFirstDigit | sendfile-fcgi.c:41-51 | a lower-case first digit a-f counts as 1..6 instead of 10..15: the escape gives `16 * (1 + y) + lo` |
| Decoder.LetterShift | sendfile-fcgi.c:48-49 | shifting a code 'A'..'F' left by four keeps only what it has above 0x40 |
| Decoder.Nibbles | sendfile-fcgi.c:48-49 | two nibbles put together: the high one counts sixteen times |
| Decoder.RunPlain | sendfile-fcgi.c:32-40 | outside an escape, from any state, text with no `%` or `+` is copied as it is and leaves the state alone; from the start it decodes to itself |
| Decoder.RunAppend | sendfile-fcgi.c:32-55 | decoding streams: running over `a + b` is running over `a`, then over `b` from the state `a` left |
| Decoder.RunSnoc | sendfile-fcgi.c:32-55 | one more character extends the output by what one step from the reached state writes |
| Decoder.Turn | sendfile-fcgi.c:33-54 | one loop turn's new `esc`/`val` and the character stored through `dst` are those of one machine step |
| Decoder.Transcribe | sendfile-fcgi.c:32-55 | the in-place loop leaves in `buf[start..dst]` what the machine writes over the original C string, with the final machine state, and touches nothing before `start` or from `dst` on |
| Decoder.UrlDecode | sendfile-fcgi.c:25-59 | the array now holds the decoded, NUL-terminated token at `start`; success exactly when decoding succeeds, NULL (false) exactly when it fails; nothing before `start` or after the new NUL changes |
| Response.Status.Reason | sendfile-fcgi.c:116-131 | every reason phrase is non-empty and stays on one line |
| Response.Decimal | sendfile-fcgi.c:133 | `%u` prints the canonical decimal digits, with no leading zero, whose value is the code |
| Response.DigitsHaveNoCR | sendfile-fcgi.c:133 | decimal digits never end a header line |
| Response.BaseStart | sendfile-fcgi.c:158 | where the base name starts: after the last `/`, with no `/` after it |
| Response.BasenameIsLastSegment | sendfile-fcgi.c:158 | GNU `basename`: the base name has no `/`, ends the path, and is the whole path or follows a `/` |
| Response.Line | sendfile-fcgi.c:96-112 | reading a CRLF-ended line back: the text is the line, CRLF and the rest, and the line has no CR |
| Response.ParseField | sendfile-fcgi.c:101-112 | reading a header line back: the line is `key: value` with a non-empty key that has no colon |
| Response.LineOf | sendfile-fcgi.c:96-112 | a CR-free line followed by CRLF reads back as that line |
| Response.FieldOf | sendfile-fcgi.c:105-108 | `key: value` reads back as that field when the key is non-empty and has no colon |
| Response.EmptyLine | sendfile-fcgi.c:134 | the final empty line ends a block with no more fields |
| Response.ParseHeader | sendfile-fcgi.c:101-112 | a header written by `fcgi_header` in front of a block adds exactly that field in front of what the block reads as, and the whole reads as a block exactly when the rest does |
| Response.StatusBlockParses | sendfile-fcgi.c:114-136 | each status block reads back as the single field `Status: <code> <reason>` |
| Response.DeliveryParses | sendfile-fcgi.c:158-162 | a delivery for a CR-free path reads back as the three fields Content-type, Content-Disposition and X-SendFile, with their values, in that order |
| Response.ContentTypeWellFormed | sendfile-fcgi.c:159 | the Content-type header is one well-formed line |
| Response.DispositionWellFormed | sendfile-fcgi.c:160 | the Content-Disposition header is one well-formed line for a CR-free path |
| Response.SendFileWellFormed | sendfile-fcgi.c:161 | the X-SendFile header is one well-formed line for a CR-free path |
| Response.RenderParses | sendfile-fcgi.c:143-163 | every response `sendfile_filename` writes for a CR-free path is one well-formed header block |
| Response.ClassifyDelivers | sendfile-fcgi.c:143-158 | the file is sent exactly when the path is absolute, `stat` succeeds and `access` grants reading, and then the block-device flag is the one `stat` reports |
| Response.ClassifyRefuses | sendfile-fcgi.c:143-156 | a relative or empty path gives 400; for an absolute path, 403 exactly on EACCES or an unreadable file, 404 exactly on ENOENT, 500 exactly on any other `stat` error |
| Response.BadRequestBlock | sendfile-fcgi.c:119-120 | the 400 block is `Status: 400 Bad Request` followed by two line ends |
| Response.StatusBlockText | sendfile-fcgi.c:133-134 | every status block is `Status: <code> <reason>` followed by two line ends |
| Response.StatusCodes | sendfile-fcgi.c:18-23 | the four statuses print as 400, 403, 404 and 500 |
| Query.ReplacePlusSpec | sendfile-fcgi.c:178-180 | the `+` pass keeps the length, turns every `+` into a space, changes nothing else, leaves no `+`, and keeps the NUL |
| Query.Span | sendfile-fcgi.c:182 | a token runs up to the first `&` or `;`, which ends it |
| Query.Tokens | sendfile-fcgi.c:182 | strtok yields only non-empty tokens without `&` or `;` |
| Query.TokensOfJoin | sendfile-fcgi.c:182 | tokens joined with delimiters are yielded back exactly, in order |
| Query.SpanOfToken | sendfile-fcgi.c:182 | a token followed by a delimiter or the end spans exactly its length |
| Query.TokenThenDelim | sendfile-fcgi.c:182 | a token then a delimiter: strtok yields the token, then goes on after the delimiter |
| Query.TokensSkip | sendfile-fcgi.c:182 | leading delimiters are skipped and yield no token |
| Query.TokensTake | sendfile-fcgi.c:182 | the next token runs from its start to the next delimiter or the end, and the rest follow it |
| Query.SplitField | sendfile-fcgi.c:187-191 | a field splits exactly when it has an `=`, into a key with no `=` and a value, and key `=` value is the field |
| Query.OutcomeAt | sendfile-fcgi.c:182-193 | the outcome of the i-th token is the field outcome of that token |
| Query.OutcomesAppend | sendfile-fcgi.c:182-193 | outcomes of a concatenation are the concatenated outcomes |
| Query.KeysAgree | sendfile-fcgi.c:187-191 | splitting at the first `=` is unambiguous |
| Query.SplitFilename | sendfile-fcgi.c:187-191 | a field splits into key `filename` and value v exactly when it is `filename=` followed by v |
| Query.FieldOutcomeCases | sendfile-fcgi.c:183-193 | a token is served exactly when it decodes to the C string `filename=<v>` with a non-empty v, and then the answer is `sendfile_filename`'s response for that v; the loop breaks exactly at a token that does not decode or that has no `=` |
| Query.ReplyIsServed | sendfile-fcgi.c:183-193 | a token that is answered decodes to `filename=` followed by the value it split off |
| Query.ServedIsReply | sendfile-fcgi.c:183-193 | a token that decodes to `filename=<v>`, v non-empty, is answered with the response for v |
| Query.FirstMatch | sendfile-fcgi.c:182-196 | the dispatcher answers exactly when some token is served and every earlier token is skipped, and then it gives that token's answer |
| Query.AnswerIsDelivery | sendfile-fcgi.c:174-197 | the dispatcher answers a query exactly when some token decodes to `filename=<v>`, v non-empty, and every token before it is skipped; the answer is then `sendfile_filename`'s response for that v, so always for some non-empty path |
| Query.FirstServed | sendfile-fcgi.c:182-196 | the same over any list of tokens, in both directions |
| Query.ServedAnswers | sendfile-fcgi.c:182-196 | a served token after only skipped ones decides the answer: the response for its v |
| Query.SkippedOutcomes | sendfile-fcgi.c:182-193 | tokens each skipped make a run of skipped outcomes |
| Query.SkippedTokens | sendfile-fcgi.c:182-193 | a run of skipped outcomes comes from tokens each skipped |
| Query.QueryConcat | sendfile-fcgi.c:182-196 | for `q1&q2`, the answer is that of q2 when every token of q1 is skipped, and that of q1 otherwise |
| Query.TokensAppend | sendfile-fcgi.c:182 | strtok over `a`, a delimiter, then `b` yields the tokens of a and then those of b |
| Query.SpanOfPrefix | sendfile-fcgi.c:182 | a delimiter right after a piece ends the token that piece starts, whatever follows |
| Query.FirstAllSkip | sendfile-fcgi.c:182-194 | after only skipped outcomes the loop goes on as if they were not there |
| Query.PlainQuery | sendfile-fcgi.c:178-185 | a query of plain characters is one token that decodes to itself |
| Query.PlainFilenameQuery | sendfile-fcgi.c:174-197 | the query `filename=<path>`, for a non-empty path of plain characters, is answered with the response for that path |
| Query.FirstStopsEarly | sendfile-fcgi.c:184-193 | no token after the one that ends the loop is inspected |
| Query.FirstOfCons | sendfile-fcgi.c:182-194 | the first outcome decides, or the loop goes on with the rest |
| Query.OutcomesOfCons | sendfile-fcgi.c:182-193 | the first token's outcome comes first |
| Query.NextToken | sendfile-fcgi.c:182 | the token strtok finds next is the k-th of the whole list |
| Query.FirstAt | sendfile-fcgi.c:182-194 | one loop round: the k-th outcome decides, or the outcomes after it do |
| Query.PlusPass | sendfile-fcgi.c:178-180 | the buffer's C string has every `+` turned into a space, and nothing from its NUL on changes |
| Query.Strtok | sendfile-fcgi.c:182 | strtok from a cursor: no token exactly when none is left; otherwise the token is the next in the list, it is NUL-terminated in place, the cursor passes its delimiter, and only that one byte changes |
| Query.SplitInPlace | sendfile-fcgi.c:187-191 | `strchr` and `*val++ = 0` on the decoded token give the split of its C string; the buffer is unchanged when there is no `=`, and otherwise only the `=` inside the token becomes NUL |
| Query.DecodeToken | sendfile-fcgi.c:183-185 | the token's start now holds what the decoder writes, NUL-terminated within the token's old extent; success exactly when it decodes; nothing before the token or after the new NUL changes |
| Query.Field | sendfile-fcgi.c:183-193 | a token's work in the loop body gives exactly that token's outcome, and changes nothing outside the token |
| Query.Round | sendfile-fcgi.c:182-193 | one round takes the next token of the list, gives its outcome, and leaves the rest of the query untouched |
| Query.TokenLoop | sendfile-fcgi.c:182-196 | the strtok loop returns true with the text of the first answer, and false at a break or when the tokens run out |
| Query.ProcessQuery | sendfile-fcgi.c:174-197 | `sendfile_query_string` on the buffer returns true and writes a text exactly when the query has an answer, and the text is that answer |
| Query.SendfileQueryString | sendfile-fcgi.c:174-197 | the same for a query given as a string, on its own fresh buffer |
| Router.Param | sendfile-fcgi.c:240-245 | `fcgi_getenv` gives a value exactly when the parameter is present, and the value is a C string |
| Router.QueryFromQueryString | sendfile-fcgi.c:240-244 | a non-empty QUERY_STRING is the query |
| Router.QueryFromRequestUri | sendfile-fcgi.c:244-254 | without a non-empty QUERY_STRING, the query is exactly the non-empty text after the first `?` of REQUEST_URI, in both directions |
| Router.OtherRouteIsBadRequest | sendfile-fcgi.c:276-283 | a request for any other script, or with no SCRIPT_NAME, is turned down, and `main` (:291-292) answers it with the 400 block |
| Router.NoQueryIsBadRequest | sendfile-fcgi.c:244-258 | a request with no query, or whose `strdup` fails, is turned down in every build, and `main` (:291-292) answers it with the 400 block |
| Router.DebugDumpsRefusedQueries | sendfile-fcgi.c:260-266 | a release build never dumps; a debug build dumps exactly the routed queries the dispatcher turns down, and dumps the query itself |
| Router.OneBlockPerRequest | sendfile-fcgi.c:290-292 | in a release build every request gets one header block: the 400 block or `sendfile_filename`'s response for a non-empty path, which parses unless that path holds a CR |
| Router.Routed | sendfile-fcgi.c:256-281 | a routed request whose query the dispatcher answers gets that answer, in either build |
| Router.RefusedQueryIsBadRequest | sendfile-fcgi.c:256-292 | in a release build, a routed request whose query the dispatcher turns down, or whose `strdup` fails, is answered with the 400 block |
| Router.QueryIsAfterMark | sendfile-fcgi.c:244-254 | a query taken from REQUEST_URI is the non-empty text after its first `?` |
| Router.MarkThenQuery | sendfile-fcgi.c:244-254 | the non-empty text after the first `?` of REQUEST_URI is the query when QUERY_STRING is missing or empty |
| Router.AfterMark | sendfile-fcgi.c:248-251 | in `pre?x` with no `?` in pre, `strchr` finds the `?` right after pre and `qstr++` points at x |
| Router.PlainRequest | sendfile-fcgi.c:240-281 | a request with SCRIPT_NAME `/sendfile/` and QUERY_STRING `filename=<path>` is routed to `sendfile_request`, and its query is that QUERY_STRING |
| Router.ServesPlainFilename | sendfile-fcgi.c:238-292 | a `/sendfile/` request for `filename=<path>` (plain characters) gets the response of `sendfile_filename` for that path |
| Scenarios.DecodesEachEscape | sendfile-fcgi.c:34-53 | `%20` writes a space and `%2B` a plus, each from the state the one before it left |
| Scenarios.DecodesEscapes | sendfile-fcgi.c:25-59 | `a%20b c%2B` decodes to `a b c+` |
| Scenarios.SlashEscape | sendfile-fcgi.c:34-53 | `%2F` writes a slash from any `val`, and leaves 0x2F in it |
| Scenarios.DecodesSlashes | sendfile-fcgi.c:25-59 | two `%2F` escapes between pieces without `%` or `+` decode to slashes and nothing else changes |
| Scenarios.PlainField | sendfile-fcgi.c:178-191 | a plain field `k=w` is one token, decodes to itself and splits into k and w |
| Scenarios.SplitsAtKey | sendfile-fcgi.c:187-191 | `k=w` splits into k and w when k has no `=` |
| Scenarios.SkippedField | sendfile-fcgi.c:183-193 | a plain field whose key is not `filename` is skipped |
| Scenarios.DecodedFilename | sendfile-fcgi.c:25-59 | `filename=%2F<a>%2F<b>` decodes to the C string `filename=/<a>/<b>` |
| Scenarios.SlashedToken | sendfile-fcgi.c:178-182 | `filename=%2F<a>%2F<b>` is one token |
| Scenarios.SkipThenServe | sendfile-fcgi.c:182-196 | two tokens, the first skipped and the second served: the answer is the second's |
| Scenarios.ServesDecodedFilename | sendfile-fcgi.c:174-197 | `k=w&filename=%2F<a>%2F<b>`, k not `filename`: the first field is skipped and the path `/<a>/<b>` is served |
| Scenarios.PasswdQuery | sendfile-fcgi.c:174-197 | `x=1&filename=%2Fetc%2Fpasswd` is answered with the response for `/etc/passwd` |
| Scenarios.UnfinishedEscapesFail | sendfile-fcgi.c:58 | `a%`, `a%2` and `a%zz` make `urldecode` return NULL |
| Scenarios.NonHexIsDropped | sendfile-fcgi.c:41 | `%g41` decodes to `A`: the `g` is dropped inside the escape |
| Scenarios.LowercaseHexIsMisread | sendfile-fcgi.c:42-47 | `%2f` decodes to `f`, while `%2F` decodes to `/` |
| Scenarios.TokensOfQuery | sendfile-fcgi.c:182 | `x&y` and `x;y` are the tokens x and y |
| Scenarios.DelimThen | sendfile-fcgi.c:182 | a leading delimiter yields nothing |
| Scenarios.NoEmptyTokens | sendfile-fcgi.c:182 | `;;x&&y;` is just the tokens x and y |
| Scenarios.GnuBasename | sendfile-fcgi.c:158 | the base name of `/srv/a.bin` is `a.bin`, and that of `/srv/files/` is empty |

## Left out

- FastCGI plumbing (`fcgi_accept`, `fcgi_finish`, the stream structure) is left out; one request is one call of `Router.Serve`, and `getenv` is a map lookup.
- `fcgi_printf`/`fcgi_vprintf`, the varargs they take and the copy of the output to the error stream are left out; the model states the bytes written to the output stream.
- `stat`, `access` and `errno` are an oracle (`FileSystem`); races between them and the real file system are not modelled.
- Response.Render: writes the path verbatim in the `X-SendFile` line, although the C code passes the path as a printf format string (:161), so a path holding `%` has undefined behaviour there; the model is exact for paths without `%`.
- The text of the debug dump (`debug_query_string`, :200-235) is not modelled; the model records only that the dump is written, and for which query.
- Decoder.Step: keeps `val` as a byte; the C `int` shifted left once per hex digit can overflow after many digits, which the model does not represent (only the low byte is ever written).
- The static cursor inside `strtok` is an explicit index (`Query.Strtok`); reentrancy is not modelled.
- `strdup` failure is the host flag `Router.Host.strdupFails`, not a memory model.
