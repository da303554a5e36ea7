/**
 * The /recognize handler as a decision procedure. Every foreign step
 * (JSON decoding, the random source, os.Mkdir, each wget, the POST to
 * darkflow, ioutil.ReadDir) is an outcome supplied in `Env`; the handler
 * yields the response and the trace of effects it attempted, in order.
 */
module Recognize {
  import opened Hex
  import opened JobId
  import opened Paths
  import opened Http

  /** The process configuration: the -input, -output and -darkflow-url flags. */
  datatype Config = Config(inputDir: string, outputDir: string, darkflowUrl: string)

  /** What json.Decoder.Decode made of the body: an error, or the image_urls field. */
  datatype DecodeResult = DecodeError(msg: string) | Decoded(imageUrls: seq<string>)

  /** The outcome of os.Mkdir or of one wget call. */
  datatype IoResult = Done | Failed(msg: string)

  /** The outcome of http.Post to darkflow: a transport error, or a response status. */
  datatype DarkflowResult = CallError(msg: string) | Replied(statusCode: int)

  /**
   * The outcome of ioutil.ReadDir on the job's output directory. ReadDir sorts
   * the names (`Paths.SortedByName`); the model admits any sequence and states
   * what order gives in `RecognizeProperties.ListingOrderPreserved`.
   */
  datatype ListingResult = ListError(msg: string) | Listed(names: seq<string>)

  /** The results of all foreign steps for one request; `download(i)` is the wget of URL i. */
  datatype Env = Env(
    decode: DecodeResult,
    entropy: nat -> byte,
    mkdir: IoResult,
    download: nat -> IoResult,
    darkflow: DarkflowResult,
    listing: ListingResult)

  /** The JSON object posted to darkflow. */
  datatype DarkflowRequest = DarkflowRequest(inputDir: string, outputDir: string)

  /** An effect the handler attempts. */
  datatype Effect =
    | MakeDir(path: string)
    | Wget(url: string, dest: string)
    | PostDarkflow(url: string, request: DarkflowRequest)
    | ReadDir(path: string)

  datatype Outcome = Outcome(response: Response, trace: seq<Effect>)

  const InvalidBody: string := "invalid json body: "
  /** How fmt formats the nil error of a decode that succeeded with no URLs. */
  const NilError: string := "<nil>"
  const MkdirFailed: string := "could not create input dir: "
  const CallFailed: string := "could not call darkflow: "
  const DarkflowError: string := "darkflow returned error"
  const ReadDirFailed: string := "could not read output dir: "

  /** The lowest index in [from, n) whose download fails, or n when none does. */
  function FirstFailure(download: nat -> IoResult, from: nat, n: nat): (k: nat)
    requires from <= n
    ensures from <= k <= n
    ensures forall j :: from <= j < k ==> download(j).Done?
    ensures k < n ==> download(k).Failed?
    decreases n - from
  {
    if from == n then n
    else if download(from).Failed? then from
    else FirstFailure(download, from + 1, n)
  }

  /**
   * The first `count` downloads, URL i into `<input>/<i>.jpg`: all of them
   * inside the job directory, and no two writing the same file.
   */
  function WgetEffects(input: string, urls: seq<string>, count: nat): (t: seq<Effect>)
    requires count <= |urls|
    ensures |t| == count
    ensures forall i :: 0 <= i < count ==> t[i] == Wget(urls[i], Join(input, JpgName(i)))
    ensures forall i, j :: 0 <= i < j < count ==> t[i].dest != t[j].dest
  {
    var t := seq(count, i requires 0 <= i < count => Wget(urls[i], Join(input, JpgName(i))));
    assert forall i, j :: 0 <= i < j < count ==> t[i].dest != t[j].dest by {
      forall i, j | 0 <= i < j < count ensures t[i].dest != t[j].dest {
        DistinctFileDestinations(input, i, j);
      }
    }
    t
  }

  /** The result URLs for a listing, position for position. */
  function ResultUrls(id: string, names: seq<string>): (u: seq<string>)
    ensures |u| == |names|
    ensures forall i :: 0 <= i < |names| ==> u[i] == "/output/" + id + "/" + names[i]
  {
    seq(|names|, i requires 0 <= i < |names| => ResultUrl(id, names[i]))
  }

  /** The job's identifier for a given random source. */
  function JobIdOf(env: Env): (id: string)
    ensures |id| == 8
    ensures forall k :: 0 <= k < |id| ==> IsLowerHexDigit(id[k])
  {
    IdFrom(JobIdLength, env.entropy)
  }

  /** Whether the request gets past decoding: not a preflight, decoded, at least one URL. */
  predicate Accepted(verb: string, env: Env) {
    verb != MethodOptions && env.decode.Decoded? && |env.decode.imageUrls| > 0
  }

  /** Whether darkflow is reached: accepted, the job directory made, every download done. */
  predicate AllDownloaded(verb: string, env: Env) {
    Accepted(verb, env) && env.mkdir.Done? &&
    forall i :: 0 <= i < |env.decode.imageUrls| ==> env.download(i).Done?
  }

  /**
   * Reference definition of recognize, for the job id `id` that
   * generateID(8) returned: each step either ends the request
   * with its error response or hands on to the next, and the trace grows by
   * the effects attempted so far. Every response carries the cross-origin
   * headers, and its status is 200, 400, 500 or the one darkflow replied.
   */
  function Pipeline(cfg: Config, verb: string, env: Env, id: string): (o: Outcome)
    ensures o.response.headers == CorsHeaders
    ensures var s := o.response.status;
            s == StatusOK || s == StatusBadRequest || s == StatusInternalServerError || env.darkflow == Replied(s)
  {
    if verb == MethodOptions then Outcome(OptionsResponse(), [])
    else if env.decode.DecodeError? then Outcome(JsonError(StatusBadRequest, InvalidBody + env.decode.msg), [])
    else if |env.decode.imageUrls| == 0 then Outcome(JsonError(StatusBadRequest, InvalidBody + NilError), [])
    else
      var urls := env.decode.imageUrls;
      var input := Join(cfg.inputDir, id);
      var made := [MakeDir(input)];
      if env.mkdir.Failed? then Outcome(JsonError(StatusInternalServerError, MkdirFailed + env.mkdir.msg), made)
      else
        var k := FirstFailure(env.download, 0, |urls|);
        if k < |urls| then
          Outcome(JsonError(StatusInternalServerError, env.download(k).msg), made + WgetEffects(input, urls, k + 1))
        else
          var output := Join(cfg.outputDir, id);
          var called := made + WgetEffects(input, urls, |urls|)
                        + [PostDarkflow(cfg.darkflowUrl, DarkflowRequest(input, output))];
          match env.darkflow
          case CallError(msg) => Outcome(JsonError(StatusInternalServerError, CallFailed + msg), called)
          case Replied(code) =>
            if code != StatusOK then Outcome(JsonError(code, DarkflowError), called)
            else
              var listed := called + [ReadDir(output)];
              match env.listing
              case ListError(msg) => Outcome(JsonError(StatusInternalServerError, ReadDirFailed + msg), listed)
              case Listed(names) => Outcome(JsonResponse(StatusOK, Urls(ResultUrls(id, names))), listed)
  }

  /** recognize: the handler's early-return pipeline with its two loops. */
  method Recognize(cfg: Config, verb: string, env: Env) returns (response: Response, trace: seq<Effect>)
    ensures Outcome(response, trace) == Pipeline(cfg, verb, env, JobIdOf(env))
  {
    trace := [];
    if verb == MethodOptions {
      response := OptionsResponse();
      return;
    }
    if env.decode.DecodeError? {
      response := JsonError(StatusBadRequest, InvalidBody + env.decode.msg);
      return;
    }
    var urls := env.decode.imageUrls;
    if |urls| == 0 {
      response := JsonError(StatusBadRequest, InvalidBody + NilError);
      return;
    }

    var id := GenerateId(JobIdLength, env.entropy);
    var input := Join(cfg.inputDir, id);
    trace := [MakeDir(input)];
    if env.mkdir.Failed? {
      response := JsonError(StatusInternalServerError, MkdirFailed + env.mkdir.msg);
      return;
    }

    var i := 0;
    while i < |urls|
      invariant 0 <= i <= |urls|
      invariant trace == [MakeDir(input)] + WgetEffects(input, urls, i)
      invariant forall j :: 0 <= j < i ==> env.download(j).Done?
    {
      trace := trace + [Wget(urls[i], Join(input, JpgName(i)))];
      assert WgetEffects(input, urls, i) + [Wget(urls[i], Join(input, JpgName(i)))] == WgetEffects(input, urls, i + 1);
      var result := env.download(i);
      if result.Failed? {
        assert FirstFailure(env.download, 0, |urls|) == i;
        response := JsonError(StatusInternalServerError, result.msg);
        return;
      }
      i := i + 1;
    }
    assert FirstFailure(env.download, 0, |urls|) == |urls|;

    var output := Join(cfg.outputDir, id);
    trace := trace + [PostDarkflow(cfg.darkflowUrl, DarkflowRequest(input, output))];
    if env.darkflow.CallError? {
      response := JsonError(StatusInternalServerError, CallFailed + env.darkflow.msg);
      return;
    }
    if env.darkflow.statusCode != StatusOK {
      response := JsonError(env.darkflow.statusCode, DarkflowError);
      return;
    }

    trace := trace + [ReadDir(output)];
    if env.listing.ListError? {
      response := JsonError(StatusInternalServerError, ReadDirFailed + env.listing.msg);
      return;
    }
    var names := env.listing.names;
    var n := |names|;
    var imgs := new string[n];
    for k := 0 to n
      invariant forall j :: 0 <= j < k ==> imgs[j] == ResultUrl(id, names[j])
    {
      imgs[k] := ResultUrl(id, names[k]);
    }
    assert imgs[..] == ResultUrls(id, names);
    response := JsonResponse(StatusOK, Urls(imgs[..]));
  }
}
