/** Fetching one comic over HTTP with a bounded number of attempts (src/request.rs). */
module Request {
  import opened Comics
  import Numerals

  /** A transport or decoding error reported by `get_json`; its content is opaque here. */
  datatype HttpError = HttpError(reason: string)

  /** What one call of `get_json(url)` answers. */
  datatype Response = Answer(comic: XkcdComic) | Fault(error: HttpError)

  datatype FetchComicError = MaxAttemptsReached(index: U32, source: HttpError)

  /** What `fetch_comic` returns. */
  datatype FetchResult = Fetched(comic: XkcdComic) | Failed(error: FetchComicError)

  /** The remote archive: `server(url, k)` is what `get_json(url)` answers on the k-th
      attempt (counting from 0) of one `fetch_comic` call. */
  type Server = (string, nat) -> Response

  const MaxAttempts: nat := 3

  const LatestUrl: string := "https://xkcd.com/info.0.json"

  /** Index 0 names the newest comic; any other index names that comic. */
  function ComicUrl(index: U32): (url: string)
    ensures index == 0 <==> url == LatestUrl
    ensures index != 0 ==> url == "https://xkcd.com/" + Numerals.Decimal(index) + "/info.0.json"
  {
    if index == 0 then LatestUrl
    else "https://xkcd.com/" + Numerals.Decimal(index) + "/info.0.json"
  }

  /** Two different indices never share a URL. */
  lemma ComicUrlInjective(i: U32, j: U32)
    ensures ComicUrl(i) == ComicUrl(j) ==> i == j
  {
    if ComicUrl(i) == ComicUrl(j) && i != 0 && j != 0 {
      var u := ComicUrl(i);
      var prefix := "https://xkcd.com/";
      var suffix := "/info.0.json";
      var di, dj := Numerals.Decimal(i), Numerals.Decimal(j);
      assert |di| == |dj|;
      assert di == u[|prefix|..|prefix| + |di|];
      assert dj == u[|prefix|..|prefix| + |dj|];
      Numerals.DecimalInjective(i, j);
    }
  }

  /** The outcome of the attempts numbered `attempt` and later, against one URL. */
  function FetchFrom(index: U32, url: string, server: Server, attempt: nat): (r: FetchResult)
    requires attempt < MaxAttempts
    ensures r.Failed? ==>
      server(url, MaxAttempts - 1).Fault?
      && r.error == MaxAttemptsReached(index, server(url, MaxAttempts - 1).error)
    decreases MaxAttempts - attempt
  {
    match server(url, attempt)
    case Answer(c) => Fetched(c)
    case Fault(e) =>
      if attempt + 1 >= MaxAttempts then Failed(MaxAttemptsReached(index, e))
      else FetchFrom(index, url, server, attempt + 1)
  }

  /** The outcome of `fetch_comic(index)`. */
  function FetchOutcome(index: U32, server: Server): FetchResult
  {
    FetchFrom(index, ComicUrl(index), server, 0)
  }

  /** `fetch_comic` as a function of the comic number, for a fixed remote. */
  function FetchOutcomes(server: Server): U32 -> FetchResult
  {
    (index: U32) => FetchOutcome(index, server)
  }

  /** `fetch_comic`: the same URL on every attempt, a success ends the loop, and the
      third consecutive failure ends it with `MaxAttemptsReached`. `urls` lists the
      calls of `get_json` in order. */
  method FetchComic(index: U32, server: Server) returns (r: FetchResult, ghost urls: seq<string>)
    ensures r == FetchOutcome(index, server)
    ensures 1 <= |urls| <= MaxAttempts
    ensures forall k :: 0 <= k < |urls| ==> urls[k] == ComicUrl(index)
    ensures forall k :: 0 <= k < |urls| - 1 ==> server(ComicUrl(index), k).Fault?
    ensures r.Fetched? ==> server(ComicUrl(index), |urls| - 1) == Answer(r.comic)
    ensures r.Failed? ==> |urls| == MaxAttempts
    ensures r.Failed? ==> r.error == MaxAttemptsReached(index, server(ComicUrl(index), MaxAttempts - 1).error)
  {
    var failedAttempts: nat := 0;
    var url := ComicUrl(index);
    urls := [];
    while true
      invariant failedAttempts < MaxAttempts && |urls| == failedAttempts
      invariant forall k :: 0 <= k < |urls| ==> urls[k] == url && server(url, k).Fault?
      invariant FetchOutcome(index, server) == FetchFrom(index, url, server, failedAttempts)
      decreases MaxAttempts - failedAttempts
    {
      var answer := server(url, failedAttempts);
      urls := urls + [url];
      match answer {
        case Answer(comic) =>
          return Fetched(comic), urls;
        case Fault(error) =>
          failedAttempts := failedAttempts + 1;
          if failedAttempts >= MaxAttempts {
            return Failed(MaxAttemptsReached(index, error)), urls;
          }
      }
    }
  }

  /** `fetch_comic` succeeds exactly when one of its three attempts is answered, and then
      returns the comic of the first answered attempt. */
  lemma {:induction false} FetchFromSucceeds(index: U32, url: string, server: Server, attempt: nat)
    requires attempt < MaxAttempts
    ensures FetchFrom(index, url, server, attempt).Fetched?
        <==> exists k :: attempt <= k < MaxAttempts && server(url, k).Answer?
    ensures FetchFrom(index, url, server, attempt).Fetched? ==>
        exists k :: attempt <= k < MaxAttempts
          && server(url, k) == Answer(FetchFrom(index, url, server, attempt).comic)
          && forall j :: attempt <= j < k ==> server(url, j).Fault?
    decreases MaxAttempts - attempt
  {
    if server(url, attempt).Fault? && attempt + 1 < MaxAttempts {
      FetchFromSucceeds(index, url, server, attempt + 1);
    }
  }

  /** When all attempts fail, the error names the requested index and carries the last
      attempt's error. */
  lemma {:induction false} FetchFromFails(index: U32, url: string, server: Server, attempt: nat)
    requires attempt < MaxAttempts
    ensures FetchFrom(index, url, server, attempt).Failed? ==>
        (forall k :: attempt <= k < MaxAttempts ==> server(url, k).Fault?)
        && server(url, MaxAttempts - 1).Fault?
        && FetchFrom(index, url, server, attempt).error
          == MaxAttemptsReached(index, server(url, MaxAttempts - 1).error)
    decreases MaxAttempts - attempt
  {
    if server(url, attempt).Fault? && attempt + 1 < MaxAttempts {
      FetchFromFails(index, url, server, attempt + 1);
    }
  }

  /** The outcome of `fetch_comic(index)` in terms of the three answers to its URL. */
  lemma FetchOutcomeSpec(index: U32, server: Server)
    ensures FetchOutcome(index, server).Fetched?
        <==> exists k :: 0 <= k < MaxAttempts && server(ComicUrl(index), k).Answer?
    ensures FetchOutcome(index, server).Failed? ==>
        server(ComicUrl(index), MaxAttempts - 1).Fault?
        && FetchOutcome(index, server).error
          == MaxAttemptsReached(index, server(ComicUrl(index), MaxAttempts - 1).error)
  {
    FetchFromSucceeds(index, ComicUrl(index), server, 0);
    FetchFromFails(index, ComicUrl(index), server, 0);
  }
}
