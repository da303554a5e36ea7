/**
 * What the /recognize pipeline guarantees, stated over its reference
 * definition `Pipeline` (which the handler method is proved equal to).
 */
module RecognizeProperties {
  import opened Paths
  import opened Http
  import opened Recognize

  /** The number of darkflow calls in a trace. */
  function DarkflowCalls(t: seq<Effect>): nat {
    if t == [] then 0 else (if t[0].PostDarkflow? then 1 else 0) + DarkflowCalls(t[1..])
  }

  lemma {:induction false} DarkflowCallsAppend(a: seq<Effect>, b: seq<Effect>)
    ensures DarkflowCalls(a + b) == DarkflowCalls(a) + DarkflowCalls(b)
  {
    if a == [] {
      assert a + b == b;
    } else {
      assert (a + b)[0] == a[0];
      assert (a + b)[1..] == a[1..] + b;
      DarkflowCallsAppend(a[1..], b);
    }
  }

  lemma {:induction false} NoDarkflowCalls(t: seq<Effect>)
    requires forall k :: 0 <= k < |t| ==> !t[k].PostDarkflow?
    ensures DarkflowCalls(t) == 0
  {
    if t != [] {
      assert !t[0].PostDarkflow?;
      NoDarkflowCalls(t[1..]);
    }
  }

  /** A trace with one darkflow call between two stretches of other effects. */
  lemma OneDarkflowCall(prefix: seq<Effect>, post: Effect, rest: seq<Effect>)
    requires forall k :: 0 <= k < |prefix| ==> !prefix[k].PostDarkflow?
    requires post.PostDarkflow?
    requires forall k :: 0 <= k < |rest| ==> !rest[k].PostDarkflow?
    ensures DarkflowCalls(prefix + [post] + rest) == 1
  {
    NoDarkflowCalls(prefix);
    NoDarkflowCalls(rest);
    DarkflowCallsAppend(prefix, [post]);
    DarkflowCallsAppend(prefix + [post], rest);
    assert DarkflowCalls([post]) == 1;
  }

  /** An OPTIONS request gets the cross-origin headers, status 200, no body, and nothing else happens. */
  lemma OptionsPreflight(cfg: Config, env: Env, id: string)
    ensures Pipeline(cfg, MethodOptions, env, id) == Outcome(Response(StatusOK, CorsHeaders, NoBody), [])
  {
  }

  /**
   * A body that does not decode, or decodes to no URLs, is answered 400 with
   * a reason, and no job directory, download or darkflow call follows.
   */
  lemma RejectedRequest(cfg: Config, verb: string, env: Env, id: string)
    requires verb != MethodOptions && !Accepted(verb, env)
    ensures Pipeline(cfg, verb, env, id).response.status == StatusBadRequest
    ensures Pipeline(cfg, verb, env, id).response.body ==
            Reason(InvalidBody + if env.decode.DecodeError? then env.decode.msg else NilError)
    ensures Pipeline(cfg, verb, env, id).trace == []
  {
  }

  /** Something is attempted exactly when the request is accepted; the first attempt is the job directory. */
  lemma EffectsIffAccepted(cfg: Config, verb: string, env: Env, id: string)
    ensures Pipeline(cfg, verb, env, id).trace != [] <==> Accepted(verb, env)
    ensures Accepted(verb, env) ==> Pipeline(cfg, verb, env, id).trace[0] == MakeDir(cfg.inputDir + "/" + id)
  {
  }

  /** A failed os.Mkdir is answered 500; no download and no darkflow call follow. */
  lemma MkdirFailureStops(cfg: Config, verb: string, env: Env, id: string)
    requires Accepted(verb, env) && env.mkdir.Failed?
    ensures Pipeline(cfg, verb, env, id).response == JsonError(StatusInternalServerError, MkdirFailed + env.mkdir.msg)
    ensures Pipeline(cfg, verb, env, id).trace == [MakeDir(Join(cfg.inputDir, id))]
  {
  }

  /** How many downloads an accepted request attempts: up to and including the first failure. */
  function Attempted(verb: string, env: Env): (n: nat)
    requires Accepted(verb, env)
    ensures n <= |env.decode.imageUrls|
  {
    if env.mkdir.Failed? then 0
    else
      var k := FirstFailure(env.download, 0, |env.decode.imageUrls|);
      if k < |env.decode.imageUrls| then k + 1 else k
  }

  /**
   * The trace of an accepted request is the job directory, then the first
   * `Attempted` downloads, then no download at all.
   */
  lemma TraceLayout(cfg: Config, verb: string, env: Env, id: string)
    requires Accepted(verb, env)
    ensures var trace := Pipeline(cfg, verb, env, id).trace;
            var input := Join(cfg.inputDir, id);
            var n := Attempted(verb, env);
            n + 1 <= |trace| &&
            trace[..n + 1] == [MakeDir(input)] + WgetEffects(input, env.decode.imageUrls, n) &&
            forall t :: n + 1 <= t < |trace| ==> !trace[t].Wget?
  {
    var trace := Pipeline(cfg, verb, env, id).trace;
    var urls := env.decode.imageUrls;
    var input := Join(cfg.inputDir, id);
    if env.mkdir.Failed? {
      assert trace == [MakeDir(input)];
      assert WgetEffects(input, urls, 0) == [];
    } else {
      var k := FirstFailure(env.download, 0, |urls|);
      if k < |urls| {
        assert trace == [MakeDir(input)] + WgetEffects(input, urls, k + 1);
      } else {
        var output := Join(cfg.outputDir, id);
        var prefix := [MakeDir(input)] + WgetEffects(input, urls, |urls|);
        var post := PostDarkflow(cfg.darkflowUrl, DarkflowRequest(input, output));
        assert trace == prefix + [post] || trace == prefix + [post] + [ReadDir(output)];
        assert trace[..|urls| + 1] == prefix;
      }
    }
  }

  /**
   * Downloads are attempted in list order: every download in the trace is
   * at position i+1 and fetches URL i into `<input>/<id>/<i>.jpg`.
   */
  lemma DownloadsInListOrder(cfg: Config, verb: string, env: Env, id: string, t: nat)
    requires t < |Pipeline(cfg, verb, env, id).trace| && Pipeline(cfg, verb, env, id).trace[t].Wget?
    ensures Accepted(verb, env) && 1 <= t <= |env.decode.imageUrls|
    ensures Pipeline(cfg, verb, env, id).trace[t] ==
            Wget(env.decode.imageUrls[t - 1], Join(Join(cfg.inputDir, id), JpgName(t - 1)))
  {
    if Accepted(verb, env) {
      TraceLayout(cfg, verb, env, id);
      DownloadAt(Pipeline(cfg, verb, env, id).trace, Join(cfg.inputDir, id), env.decode.imageUrls,
                 Attempted(verb, env), t);
    }
  }

  /** In a trace laid out as `TraceLayout` states, a download at position t fetches URL t-1. */
  lemma DownloadAt(trace: seq<Effect>, input: string, urls: seq<string>, n: nat, t: nat)
    requires n <= |urls| && n + 1 <= |trace|
    requires trace[..n + 1] == [MakeDir(input)] + WgetEffects(input, urls, n)
    requires forall s :: n + 1 <= s < |trace| ==> !trace[s].Wget?
    requires t < |trace| && trace[t].Wget?
    ensures 1 <= t <= n && trace[t] == Wget(urls[t - 1], Join(input, JpgName(t - 1)))
  {
    assert t <= n;
    assert trace[t] == trace[..n + 1][t];
  }

  /**
   * Conversely, once the job directory exists and downloads 0..i-1 succeeded,
   * URL i is fetched into `<input>/<id>/<i>.jpg`, at position i+1.
   */
  lemma DownloadAttempted(cfg: Config, verb: string, env: Env, id: string, i: nat)
    requires Accepted(verb, env) && env.mkdir.Done? && i < |env.decode.imageUrls|
    requires forall j :: 0 <= j < i ==> env.download(j).Done?
    ensures i + 1 < |Pipeline(cfg, verb, env, id).trace|
    ensures Pipeline(cfg, verb, env, id).trace[i + 1] ==
            Wget(env.decode.imageUrls[i], Join(Join(cfg.inputDir, id), JpgName(i)))
  {
    var trace := Pipeline(cfg, verb, env, id).trace;
    TraceLayout(cfg, verb, env, id);
    var k := FirstFailure(env.download, 0, |env.decode.imageUrls|);
    assert k >= i;
    var n := Attempted(verb, env);
    assert i + 1 <= n && trace[i + 1] == trace[..n + 1][i + 1];
  }

  /** No two downloads of one request write the same file. */
  lemma DownloadDestinationsDistinct(cfg: Config, verb: string, env: Env, id: string, s: nat, t: nat)
    requires s < t < |Pipeline(cfg, verb, env, id).trace|
    requires Pipeline(cfg, verb, env, id).trace[s].Wget? && Pipeline(cfg, verb, env, id).trace[t].Wget?
    ensures Pipeline(cfg, verb, env, id).trace[s].dest != Pipeline(cfg, verb, env, id).trace[t].dest
  {
    DownloadsInListOrder(cfg, verb, env, id, s);
    DownloadsInListOrder(cfg, verb, env, id, t);
    DistinctFileDestinations(Join(cfg.inputDir, id), s - 1, t - 1);
  }

  /**
   * The first failing download, number k, ends the request with 500 and its
   * error; downloads 0..k were attempted, no later one, and darkflow was not called.
   */
  lemma DownloadFailureStops(cfg: Config, verb: string, env: Env, id: string, k: nat)
    requires Accepted(verb, env) && env.mkdir.Done?
    requires k < |env.decode.imageUrls| && env.download(k).Failed?
    requires forall j :: 0 <= j < k ==> env.download(j).Done?
    ensures Pipeline(cfg, verb, env, id).response == JsonError(StatusInternalServerError, env.download(k).msg)
    ensures Pipeline(cfg, verb, env, id).trace ==
            [MakeDir(Join(cfg.inputDir, id))] + WgetEffects(Join(cfg.inputDir, id), env.decode.imageUrls, k + 1)
    ensures forall j :: k < j < |env.decode.imageUrls| ==>
            Wget(env.decode.imageUrls[j], Join(Join(cfg.inputDir, id), JpgName(j))) !in Pipeline(cfg, verb, env, id).trace
    ensures DarkflowCalls(Pipeline(cfg, verb, env, id).trace) == 0
  {
    var urls := env.decode.imageUrls;
    var input := Join(cfg.inputDir, id);
    assert FirstFailure(env.download, 0, |urls|) == k;
    var trace := [MakeDir(input)] + WgetEffects(input, urls, k + 1);
    assert Pipeline(cfg, verb, env, id).trace == trace;
    LaterDownloadsAbsent(input, urls, k, trace);
    NoDarkflowCalls(trace);
  }

  /** A trace that stops after download k holds no download of a later index. */
  lemma LaterDownloadsAbsent(input: string, urls: seq<string>, k: nat, trace: seq<Effect>)
    requires k < |urls| && trace == [MakeDir(input)] + WgetEffects(input, urls, k + 1)
    ensures forall j :: k < j < |urls| ==> Wget(urls[j], Join(input, JpgName(j))) !in trace
  {
    var downloads := WgetEffects(input, urls, k + 1);
    forall j | k < j < |urls|
      ensures Wget(urls[j], Join(input, JpgName(j))) !in trace
    {
      var later := Wget(urls[j], Join(input, JpgName(j)));
      forall t | 0 <= t < |trace|
        ensures trace[t] != later
      {
        if t > 0 {
          assert trace[t] == downloads[t - 1];
          DistinctFileDestinations(input, t - 1, j);
        }
      }
    }
  }

  /**
   * Darkflow is called exactly once when every download succeeded and never
   * otherwise, at the configured URL, with the input and output directories of
   * the same job id, after the job directory was made.
   */
  lemma DarkflowCalledOnceAfterDownloads(cfg: Config, verb: string, env: Env, id: string)
    ensures DarkflowCalls(Pipeline(cfg, verb, env, id).trace) == if AllDownloaded(verb, env) then 1 else 0
    ensures forall e :: e in Pipeline(cfg, verb, env, id).trace && e.PostDarkflow? ==>
              AllDownloaded(verb, env) && e.url == cfg.darkflowUrl &&
              e.request == DarkflowRequest(Join(cfg.inputDir, id), Join(cfg.outputDir, id)) &&
              Pipeline(cfg, verb, env, id).trace[0] == MakeDir(e.request.inputDir)
  {
    var trace := Pipeline(cfg, verb, env, id).trace;
    if Accepted(verb, env) && env.mkdir.Done? {
      var urls := env.decode.imageUrls;
      var input := Join(cfg.inputDir, id);
      var k := FirstFailure(env.download, 0, |urls|);
      if k < |urls| {
        DownloadFailureStops(cfg, verb, env, id, k);
        forall e | e in trace ensures !e.PostDarkflow? {
        }
      } else {
        DarkflowCallAfterAllDownloads(cfg, verb, env, id);
      }
    } else {
      NoDarkflowCalls(trace);
    }
  }

  /** After all downloads the trace holds exactly the one darkflow call, for this job's directories. */
  lemma DarkflowCallAfterAllDownloads(cfg: Config, verb: string, env: Env, id: string)
    requires AllDownloaded(verb, env)
    ensures var input := Join(cfg.inputDir, id);
            var trace := Pipeline(cfg, verb, env, id).trace;
            DarkflowCalls(trace) == 1 && trace[0] == MakeDir(input) &&
            forall e :: e in trace && e.PostDarkflow? ==>
              e == PostDarkflow(cfg.darkflowUrl, DarkflowRequest(input, Join(cfg.outputDir, id)))
  {
    var urls := env.decode.imageUrls;
    var input := Join(cfg.inputDir, id);
    var output := Join(cfg.outputDir, id);
    var prefix := [MakeDir(input)] + WgetEffects(input, urls, |urls|);
    var post := PostDarkflow(cfg.darkflowUrl, DarkflowRequest(input, output));
    var rest: seq<Effect> := if env.darkflow == Replied(StatusOK) then [ReadDir(output)] else [];
    DarkflowAfterAllDownloads(cfg, verb, env, id);
    var trace := prefix + [post] + rest;
    assert Pipeline(cfg, verb, env, id).trace == trace;
    OneDarkflowCall(prefix, post, rest);
    forall e | e in trace && e.PostDarkflow? ensures e == post {
      var t :| 0 <= t < |trace| && trace[t] == e;
      assert t == |prefix|;
    }
  }

  /**
   * When the job directory was made and every download succeeded, the trace
   * opens with the job directory, all downloads in list order, then the one
   * darkflow call with the input and output directories of the same id.
   */
  lemma DarkflowAfterAllDownloads(cfg: Config, verb: string, env: Env, id: string)
    requires AllDownloaded(verb, env)
    ensures var input := Join(cfg.inputDir, id);
            var urls := env.decode.imageUrls;
            |Pipeline(cfg, verb, env, id).trace| >= |urls| + 2 &&
            Pipeline(cfg, verb, env, id).trace[..|urls| + 2] ==
              [MakeDir(input)] + WgetEffects(input, urls, |urls|) +
              [PostDarkflow(cfg.darkflowUrl, DarkflowRequest(input, Join(cfg.outputDir, id)))]
    ensures var input := Join(cfg.inputDir, id);
            var output := Join(cfg.outputDir, id);
            var called := [MakeDir(input)] + WgetEffects(input, env.decode.imageUrls, |env.decode.imageUrls|) +
                          [PostDarkflow(cfg.darkflowUrl, DarkflowRequest(input, output))];
            Pipeline(cfg, verb, env, id).trace ==
              if env.darkflow == Replied(StatusOK) then called + [ReadDir(output)] else called
  {
    var urls := env.decode.imageUrls;
    var input := Join(cfg.inputDir, id);
    var output := Join(cfg.outputDir, id);
    assert FirstFailure(env.download, 0, |urls|) == |urls|;
    var prefix := [MakeDir(input)] + WgetEffects(input, urls, |urls|) +
                  [PostDarkflow(cfg.darkflowUrl, DarkflowRequest(input, output))];
    var trace := Pipeline(cfg, verb, env, id).trace;
    assert trace == if env.darkflow == Replied(StatusOK) then prefix + [ReadDir(output)] else prefix;
    assert trace[..|urls| + 2] == prefix;
  }

  /**
   * A darkflow transport error is answered 500, a non-200 reply with that very
   * status; in both cases the output directory is not read.
   */
  lemma DarkflowFailureStops(cfg: Config, verb: string, env: Env, id: string)
    requires AllDownloaded(verb, env)
    requires env.darkflow.CallError? || env.darkflow.statusCode != StatusOK
    ensures Pipeline(cfg, verb, env, id).response ==
            if env.darkflow.CallError? then JsonError(StatusInternalServerError, CallFailed + env.darkflow.msg)
            else JsonError(env.darkflow.statusCode, DarkflowError)
    ensures env.darkflow.Replied? ==>
            Pipeline(cfg, verb, env, id).response.status == env.darkflow.statusCode &&
            Pipeline(cfg, verb, env, id).response.body ==
              if BodyAllowed(env.darkflow.statusCode) then Reason(DarkflowError) else NoBody
    ensures forall e :: e in Pipeline(cfg, verb, env, id).trace ==> !e.ReadDir?
  {
    assert FirstFailure(env.download, 0, |env.decode.imageUrls|) == |env.decode.imageUrls|;
  }

  /**
   * After darkflow answered 200 the output directory is read last; a listing
   * error is answered 500, a listing with 200 and one URL per entry,
   * `/output/<id>/<name>`, in listing order.
   */
  lemma ListingOutcome(cfg: Config, verb: string, env: Env, id: string)
    requires AllDownloaded(verb, env) && env.darkflow == Replied(StatusOK)
    ensures Pipeline(cfg, verb, env, id).trace[|Pipeline(cfg, verb, env, id).trace| - 1] == ReadDir(Join(cfg.outputDir, id))
    ensures env.listing.ListError? ==>
            Pipeline(cfg, verb, env, id).response == JsonError(StatusInternalServerError, ReadDirFailed + env.listing.msg)
    ensures env.listing.Listed? ==>
            var r := Pipeline(cfg, verb, env, id).response;
            r.status == StatusOK && r.body.Urls? && |r.body.items| == |env.listing.names| &&
            forall i :: 0 <= i < |env.listing.names| ==>
              r.body.items[i] == "/output/" + id + "/" + env.listing.names[i]
  {
    assert FirstFailure(env.download, 0, |env.decode.imageUrls|) == |env.decode.imageUrls|;
  }

  /**
   * ioutil.ReadDir lists the output directory sorted by name; the URLs keep
   * that order, because they all share the prefix `/output/<id>/`.
   */
  lemma ListingOrderPreserved(cfg: Config, verb: string, env: Env, id: string)
    requires AllDownloaded(verb, env) && env.darkflow == Replied(StatusOK)
    requires env.listing.Listed? && SortedByName(env.listing.names)
    ensures Pipeline(cfg, verb, env, id).response.body.Urls? &&
            SortedByName(Pipeline(cfg, verb, env, id).response.body.items)
  {
    ListingOutcome(cfg, verb, env, id);
    var names := env.listing.names;
    var items := Pipeline(cfg, verb, env, id).response.body.items;
    var prefix := "/output/" + id + "/";
    forall i, j | 0 <= i < j < |items|
      ensures NameLess(items[i], items[j])
    {
      assert items[i] == prefix + names[i] && items[j] == prefix + names[j];
      NameLessPrefix(prefix, names[i], names[j]);
    }
  }

  /** A list of URLs is returned exactly when every step succeeded. */
  lemma UrlsIffSuccess(cfg: Config, verb: string, env: Env, id: string)
    ensures Pipeline(cfg, verb, env, id).response.body.Urls? <==>
            AllDownloaded(verb, env) && env.darkflow == Replied(StatusOK) && env.listing.Listed?
  {
    if Accepted(verb, env) && env.mkdir.Done? {
      var k := FirstFailure(env.download, 0, |env.decode.imageUrls|);
      assert k == |env.decode.imageUrls| <==> AllDownloaded(verb, env);
    }
  }
}
