# darkflow-front: a Dafny model of the `/recognize` handler

darkflow-front is a small HTTP front-end. A client POSTs a list of image URLs
to `/recognize`. The handler:

1. makes a job directory `<input>/<id>` named by a random hex id;
2. downloads image `i` to `<input>/<id>/<i>.jpg`;
3. POSTs `{input_dir, output_dir}` to the darkflow recognition service;
4. lists `<output>/<id>` and answers with the URLs `/output/<id>/<name>`.

The model treats the handler as a decision procedure. Each foreign step's
result is an input, bundled in `Recognize.Env`:

- the JSON decoder's result (an error, or the `image_urls` list);
- the random bytes;
- the result of `os.Mkdir`;
- one success or failure per download index;
- darkflow's result (a transport error, or a status code);
- the output-directory listing (an error, or a sequence of names).

The handler's output is the response (status, headers, JSON payload) and
the trace of effects it attempted, in order: directory creation, each
download with its destination, the darkflow call with its request, and the
directory read.

Modules:
- `Hex`: lowercase base16 encoding, as in section 8 of RFC 4648 (Go's
  `hex.EncodeToString`), with a decoder as its inverse.
- `JobId`: `generateID`, including Go's truncating division in `(len-1)/2+1`.
- `Paths`: path joins for simple segments, `%d` decimal formatting, the
  `<i>.jpg` names and the result URLs.
- `Http`: the response value built by `setupResponse`, `jsonResponse` and
  `jsonError`.
- `Recognize`: `Pipeline`, a functional reference definition of the handler
  for a given job id, and `Recognize`, the handler written imperatively as the
  source is (early returns, a download loop, a loop that fills the result
  array). The method is proved equal to `Pipeline` at the id that
  `generateID(8)` draws.
- `RecognizeProperties`: what the handler guarantees, stated over `Pipeline`
  for every job id.

Behaviour worth knowing:
- Some bodies decode without error but have no URLs, such as `{}` or
  `{"image_urls": []}`. The code then formats a nil error, so the reason is
  `invalid json body: <nil>`. The model keeps this text.
- The source treats every darkflow status other than exactly 200 as a
  failure and returns that status unchanged.
- A status that net/http allows no body for (1xx, 204, 304) reaches the client
  without the `{"reason": ...}` payload. So a darkflow 204 comes back as an
  empty 204.
- Only OPTIONS is handled apart. A HEAD request goes through the same
  pipeline, but net/http sends no body in reply to HEAD, whatever the handler
  writes. The model's bodies are those of a request other than HEAD.

## Model

| member | source | states |
|---|---|---|
| `Hex.Encode` | main.go:170 | the encoding is twice as long as the input; character 2i is byte i's high nibble and 2i+1 its low nibble, each in 0-9a-f |
| `Hex.DecodeEncode` | main.go:170 | decoding the encoding of any byte string gives that byte string back |
| `Hex.EncodeDecode` | main.go:170 | any string that decodes is exactly the encoding of what it decodes to |
| `Hex.EncodeInjective` | main.go:170 | two byte strings have the same encoding if and only if they are equal |
| `JobId.BufferSize` | main.go:168 | with Go's truncating division, `(len-1)/2+1` is at least 1, and its bytes encode to at least `len` and at most `len`+2 characters (at most `len`+1 when `len` >= 1), so `[:len]` is in bounds |
| `JobId.IdFrom` | main.go:167-171 | the id has exactly `len` characters, all in 0-9a-f |
| `JobId.GenerateId` | main.go:167-171 | fills a fresh buffer of `BufferSize(len)` bytes from the random source, then encodes and slices; the result has length `len`, is all lowercase hex, and equals `IdFrom` |
| `JobId.EvenIdDeterminedByBytes` | main.go:167-171 | for an even length of at least 2, two ids are equal if and only if the drawn bytes are equal, so ids collide only when the random bytes collide |
| `JobId.IdCharacter` | main.go:170 | id character i is the high nibble (i even) or low nibble (i odd) of random byte i/2 |
| `Paths.Decimal` | main.go:88 | `%d` of a non-negative number is a non-empty string of decimal digits that starts with '0' only for zero |
| `Paths.DecimalRoundTrip` | main.go:88 | reading the digits back gives the number |
| `Paths.DecimalInjective` | main.go:88 | two numbers format the same if and only if they are equal |
| `Paths.JpgNameInjective` | main.go:88 | `<i>.jpg` and `<j>.jpg` are the same name if and only if i = j |
| `Paths.Join` | main.go:80 | `filepath.Join(dir, name)` for simple segments: the path is `dir`, a separator, then `name`, and `name` can be read back from after the separator |
| `Paths.JpgName` | main.go:88 | `fmt.Sprintf("%d.jpg", i)`: decimal digits followed by `.jpg`, whose digits read back as i |
| `Paths.DistinctFileDestinations` | main.go:86-88 | different indices give different destination paths in the same job directory |
| `Paths.ResultUrl` | main.go:128 | `filepath.Join("/output", id, name)` is the URL `/output/<id>/<name>` |
| `Paths.JoinInjective` | main.go:86-88 | joining one directory with two names gives the same path only when the names are equal |
| `Paths.NameLessPrefix` | main.go:128 | prefixing two names with the same string (here `/output/<id>/`) does not change their order |
| `Paths.SortedNamesDistinct` | main.go:119 | a listing sorted by name, strictly, names no file twice |
| `Http.SetupResponse` | main.go:60-64 | sets the three cross-origin headers to their fixed values and leaves every other header alone |
| `Http.OptionsResponse` | main.go:67-70 | a handler that only calls setupResponse answers with the implicit 200, exactly the cross-origin headers, and no body |
| `Http.JsonResponse` | main.go:156-165 | the response carries the given status and exactly the cross-origin headers; for a request other than HEAD, the payload is sent when the status allows a body, and no body is sent for 1xx, 204 or 304 (encoding fails and the second `WriteHeader` has no effect) |
| `Http.JsonError` | main.go:152-154 | the response carries the given status and, where the status allows a body, a `{"reason": ...}` payload with the given text |
| `Recognize.FirstFailure` | main.go:87-93 | returns the lowest failing download index, or the list length when all succeed: every earlier index succeeded, and the returned index (if in range) failed |
| `Recognize.WgetEffects` | main.go:87-88 | the first `count` download attempts: attempt i fetches URL i into `<input>/<i>.jpg`, and no two attempts write the same file |
| `Recognize.ResultUrls` | main.go:125-129 | one URL per listing entry, in listing order: entry i becomes `/output/<id>/<name_i>` |
| `Recognize.JobIdOf` | main.go:79 | the job id is `generateID(8)`: eight lowercase hex characters |
| `Recognize.Pipeline` | main.go:66-133 | reference definition of `recognize` for a job id: every response carries the cross-origin headers, and its status is 200, 400, 500 or the status darkflow returned |
| `Recognize.Recognize` | main.go:66-133 | the imperative handler (early returns, the download loop, the loop filling the result array) returns the same response and effect trace as `Pipeline` at the id `generateID(8)` draws, for every configuration, method and set of step outcomes |
| `RecognizeProperties.OptionsPreflight` | main.go:67-70 | an OPTIONS request gets 200, the cross-origin headers and no body, and no effect is attempted: no decode result is used, and there is no mkdir, download or darkflow call |
| `RecognizeProperties.RejectedRequest` | main.go:71-76 | if decoding fails or the URL list is empty, the answer is 400 with reason `invalid json body: <err>` (`<nil>` for an empty list) and nothing is attempted |
| `RecognizeProperties.EffectsIffAccepted` | main.go:67-80 | some effect is attempted if and only if the request is not OPTIONS and decodes to a non-empty list; then the first effect is creating `<input>/<id>` |
| `RecognizeProperties.MkdirFailureStops` | main.go:79-84 | a failed mkdir gives 500 with reason `could not create input dir: ...`; the trace is that mkdir alone, with no download and no darkflow call |
| `RecognizeProperties.DownloadsInListOrder` | main.go:86-93 | every download in the trace is at position i+1 and fetches URL i into `<input>/<id>/<i>.jpg`, so downloads go in list order |
| `RecognizeProperties.TraceLayout` | main.go:79-93 | an accepted request's trace is: create the job directory, then the downloads attempted (up to and including the first failure, or all of them), then no further download |
| `RecognizeProperties.DownloadAttempted` | main.go:86-93 | conversely, once the job directory exists and downloads 0..i-1 succeeded, URL i is fetched into `<input>/<id>/<i>.jpg` at trace position i+1 |
| `RecognizeProperties.DownloadDestinationsDistinct` | main.go:86-93 | no two downloads of one request write the same file |
| `RecognizeProperties.DownloadFailureStops` | main.go:86-93 | when download k fails first, the answer is 500 with that download's error; downloads 0..k were attempted and no later one; darkflow is not called |
| `RecognizeProperties.DarkflowCalledOnceAfterDownloads` | main.go:86-107 | darkflow is called exactly once if every download succeeded, and never otherwise; the call goes to the configured URL with `input_dir = <input>/<id>` and `output_dir = <output>/<id>` for the same id as the job directory |
| `RecognizeProperties.DarkflowAfterAllDownloads` | main.go:86-119 | when mkdir and every download succeed, the trace opens with the job directory, all downloads in list order, then the darkflow POST with `input_dir = <input>/<id>` and `output_dir = <output>/<id>`; nothing follows the POST unless darkflow answers 200, and then only the read of `<output>/<id>` |
| `RecognizeProperties.DarkflowCallAfterAllDownloads` | main.go:86-107 | once every download succeeded the trace holds exactly one darkflow call; it is the POST for this job's input and output directories, and the trace opens with creating the job directory |
| `RecognizeProperties.LaterDownloadsAbsent` | main.go:87-92 | a trace that stops after download k holds no download of a later index |
| `RecognizeProperties.DarkflowFailureStops` | main.go:107-117 | a darkflow transport error gives 500; a non-200 status s gives exactly s, with reason `darkflow returned error` where s allows a body and no body otherwise; in both cases the output directory is not read |
| `RecognizeProperties.ListingOutcome` | main.go:119-132 | after a 200 from darkflow, reading `<output>/<id>` is the last effect; a listing error gives 500; a listing gives 200 with one URL per entry, in order, entry i being `/output/<id>/<name_i>` |
| `RecognizeProperties.UrlsIffSuccess` | main.go:66-133 | a URL list is returned if and only if every step succeeded: decode, mkdir, all downloads, darkflow's 200 and the listing |
| `RecognizeProperties.ListingOrderPreserved` | main.go:119-129 | when the listing is sorted by name, as `ioutil.ReadDir` returns it, the returned URLs are sorted by name too |

## Left out

- The HTTP server: routing, the static file server under `/output/` and `ListenAndServe` (main.go:45-48). These are runtime plumbing with no logic of their own.
- Flag parsing and the startup `MkdirAll` calls (main.go:24-43). The three flag values are passed to the handler as a `Recognize.Config` value, the parameter `cfg`.
- `wget` internals (main.go:135-150): the GET, the TLS transport that skips certificate checks, file creation and the copy. Each download is one success or failure outcome per index, with its error text.
- JSON decoding and encoding (main.go:72, 98-105, 159). The decoder is an input that returns an error or a URL list. Encoding the darkflow request cannot fail for two strings, so its error branch (main.go:102-105) is not modelled. Payloads are values, not JSON text.
- The error branch of `jsonResponse` (main.go:160-164). The second `WriteHeader` has no effect once the first has been sent. `Content-Type` is set after the body is written, so it never reaches the client. Headers that net/http adds by itself are not modelled.
- Random bytes are an input stream. `rand.Read`'s error is ignored by the source, so it is not modelled.
- Logging, and concurrency between requests.
- Path joins are plain concatenation with `/`. This assumes each root is a clean path other than `/` and `.`. The defaults `/input` and `/output` qualify. It also assumes ids and listing names contain no separators. `filepath.Join`'s cleaning is not modelled. For `/` or `.` the concatenation gives `//<id>` or `./<id>`, while Go gives `/<id>` or `<id>`.
- The listing's sort order: `ioutil.ReadDir` returns entries sorted by name, with no name twice. `Recognize.ListingResult` admits any sequence of names and does not impose this order. `RecognizeProperties.ListingOrderPreserved` states what a sorted listing gives.
- Status codes are unbounded integers. The model assumes darkflow replies with a status in 100-999. net/http accepts any three-digit code such as 099, and the `WriteHeader` call at main.go:115 would then panic. That panic is not modelled.
- Http.JsonResponse: a 1xx status is treated as a final status that allows no body, as in net/http before Go 1.19. In later versions, `WriteHeader` with 1xx (other than 101) sends an interim response, and the body then goes out under an implicit 200. That behaviour is not modelled.
- Http.JsonResponse: the body does not depend on the request method. net/http discards every body written in reply to HEAD. The model's body is the one written in reply to any other method, so for HEAD the `Reason` and `Urls` bodies in `Recognize.Pipeline` and its lemmas do not reach the client; status, headers and effects are the same.
- `JobId.GenerateId` takes a natural-number length. A negative length makes the Go code panic (at `make` or at the slice), and the only caller passes 8.
