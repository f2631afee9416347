/** The vision extractor's own logic (`VisionSkill`): the MIME type of a
    document, waiting for an upload to be processed, retrying generation on
    rate limits, and unwrapping the decoded answer. The remote service, the
    clock and the JSON decoding are not modelled: they are parameters. */
module Vision {
  import opened Wrappers
  import opened Values
  import opened Text
  import opened Paths

  // ---------------------------------------------------------------------------
  // MIME type

  const OctetStream: string := "application/octet-stream"

  /** The MIME type of a lower-cased extension. */
  function MimeOf(ext: string): (r: string)
    ensures r == "application/pdf" <==> ext == ".pdf"
    ensures r == "image/jpeg" <==> ext == ".jpg" || ext == ".jpeg"
    ensures r == "image/png" <==> ext == ".png"
    ensures r == "image/webp" <==> ext == ".webp"
    ensures r == OctetStream <==>
      ext != ".pdf" && ext != ".jpg" && ext != ".jpeg" && ext != ".png" && ext != ".webp"
  {
    if ext == ".pdf" then "application/pdf"
    else if ext == ".jpg" || ext == ".jpeg" then "image/jpeg"
    else if ext == ".png" then "image/png"
    else if ext == ".webp" then "image/webp"
    else OctetStream
  }

  /** `_get_mime_type`: by the lower-cased extension. */
  function MimeType(path: string): string {
    MimeOf(Lower(SplitExt(path).1))
  }

  /** The extension a document's MIME type is read from is the lower-cased
      text after the final dot, for any file name with a non-dot character
      before that dot. */
  lemma MimeExtension(stem: string, e: string)
    requires '.' !in e && '/' !in e && HasNonDot(stem, AfterLast(stem, '/'), |stem|)
    ensures Lower(SplitExt(stem + "." + e).1) == "." + Lower(e)
  {
    SplitExtOf(stem, e);
    var l := Lower("." + e);
    assert l[0] == '.';
    assert l[1..] == Lower(e);
    assert l == [l[0]] + l[1..];
  }

  /** The extension decides whatever its case: `.PDF`, `.Pdf` and `.pdf` are
      all PDF documents. */
  lemma MimeCaseInsensitive(stem: string, e: string)
    requires '.' !in e && '/' !in e && HasNonDot(stem, AfterLast(stem, '/'), |stem|)
    requires Lower(e) == "pdf"
    ensures MimeType(stem + "." + e) == "application/pdf"
  {
    MimeExtension(stem, e);
    DotPdf(Lower(e));
  }

  lemma DotPdf(l: string)
    requires l == "pdf"
    ensures "." + l == ".pdf"
  {
  }

  /** A file name that is only a dot and an extension has no extension. */
  lemma MimeHidden()
    ensures MimeType(".png") == OctetStream
  {
    assert ".png" == "." + "png";
    SplitExtHidden("png");
    assert Lower("") == "";
  }

  // ---------------------------------------------------------------------------
  // Waiting for the upload

  const Processing: string := "PROCESSING"
  const FailedState: string := "FAILED"

  /** How waiting for an upload ends: ready after `polls` re-reads, failed, or
      still processing when the observed states run out (the source then waits
      for ever). */
  datatype Wait = Ready(polls: nat) | Failed | Waiting

  /** `states[0]` is the state after the upload, `states[k]` the state read at
      the `k`-th poll; polling goes on while the state is `PROCESSING`. */
  function Poll(states: seq<string>, k: nat): (r: Wait)
    requires k <= |states|
    ensures r.Ready? ==> k <= r.polls < |states|
    ensures r.Ready? ==> states[r.polls] != Processing && states[r.polls] != FailedState
    ensures r.Ready? ==> forall j :: k <= j < r.polls ==> states[j] == Processing
    ensures r.Failed? <==> exists n :: (k <= n < |states| && states[n] == FailedState &&
      forall j :: k <= j < n ==> states[j] == Processing)
    ensures r.Waiting? <==> forall j :: k <= j < |states| ==> states[j] == Processing
    decreases |states| - k
  {
    if k == |states| then Waiting
    else if states[k] == Processing then Poll(states, k + 1)
    else if states[k] == FailedState then Failed
    else Ready(k)
  }

  // ---------------------------------------------------------------------------
  // Generation with retries

  const MaxRetries: nat := 3
  const BaseDelay: nat := 10

  /** One generation call: the response text, or the exception's text. */
  datatype Attempt = Generated(text: string) | Refused(message: string)

  /** An exception counts as a rate limit when its text mentions `429` or
      `ResourceExhausted`. */
  predicate RateLimited(message: string) {
    HasSubstring(message, "429") || HasSubstring(message, "ResourceExhausted")
  }

  function Pow2(k: nat): (r: nat)
    ensures r >= 1
  {
    if k == 0 then 1 else 2 * Pow2(k - 1)
  }

  /** `time.time() % 1`: the fractional part of the clock reading. */
  function Frac(t: real): (r: real)
    ensures 0.0 <= r < 1.0
  {
    t - t.Floor as real
  }

  /** The pause after rate-limited attempt `k` at clock reading `t`. */
  function Delay(k: nat, t: real): (r: real)
    ensures (BaseDelay * Pow2(k)) as real <= r < (BaseDelay * Pow2(k)) as real + 1.0
  {
    (BaseDelay * Pow2(k)) as real + Frac(t)
  }

  /** What the retry loop ends with: the response or the exception re-raised,
      the number of calls made, and the pauses between them. */
  datatype Generation = Generation(response: Result<string>, attempts: nat, pauses: seq<real>)

  /** The retry policy from attempt `k` on: `calls(k)` is attempt `k`'s result
      and `clock(k)` the clock when it was rate limited. */
  function RetryFrom(calls: nat -> Attempt, clock: nat -> real, k: nat): (g: Generation)
    requires k < MaxRetries
    ensures k < g.attempts <= MaxRetries
    ensures |g.pauses| == g.attempts - 1 - k
    ensures forall j :: k <= j < g.attempts - 1 ==> calls(j).Refused? && RateLimited(calls(j).message)
    ensures forall j :: 0 <= j < |g.pauses| ==> g.pauses[j] == Delay(k + j, clock(k + j))
    ensures calls(g.attempts - 1).Generated? <==> g.response.Ok?
    ensures g.response.Ok? ==> g.response.value == calls(g.attempts - 1).text
    ensures g.response.Err? ==> (g.response.error == calls(g.attempts - 1).message
      && (RateLimited(g.response.error) ==> g.attempts == MaxRetries))
    decreases MaxRetries - k
  {
    match calls(k)
    case Generated(t) => Generation(Ok(t), k + 1, [])
    case Refused(m) =>
      if !RateLimited(m) || k == MaxRetries - 1 then Generation(Err(m), k + 1, [])
      else
        var rest := RetryFrom(calls, clock, k + 1);
        Generation(rest.response, rest.attempts, [Delay(k, clock(k))] + rest.pauses)
  }

  /** The retry loop: at most three calls, leaving at the first response,
      re-raising at once anything but a rate limit, and re-raising a rate limit
      on the last call. */
  method Generate(calls: nat -> Attempt, clock: nat -> real) returns (g: Generation)
    ensures g == RetryFrom(calls, clock, 0)
  {
    var pauses: seq<real> := [];
    var attempt: nat := 0;
    while true
      invariant attempt < MaxRetries
      invariant RetryFrom(calls, clock, 0) == Resumed(calls, clock, attempt, pauses)
      decreases MaxRetries - attempt
    {
      match calls(attempt)
      case Generated(t) =>
        return Generation(Ok(t), attempt + 1, pauses);
      case Refused(m) =>
        if !RateLimited(m) || attempt == MaxRetries - 1 {
          return Generation(Err(m), attempt + 1, pauses);
        }
        ResumeStep(calls, clock, attempt, pauses);
        pauses := pauses + [Delay(attempt, clock(attempt))];
        attempt := attempt + 1;
    }
  }

  /** The policy's result once `pauses` have been taken before attempt `k`. */
  function Resumed(calls: nat -> Attempt, clock: nat -> real, k: nat, pauses: seq<real>): Generation
    requires k < MaxRetries
  {
    var rest := RetryFrom(calls, clock, k);
    Generation(rest.response, rest.attempts, pauses + rest.pauses)
  }

  lemma ResumeStep(calls: nat -> Attempt, clock: nat -> real, k: nat, pauses: seq<real>)
    requires k + 1 < MaxRetries && calls(k).Refused? && RateLimited(calls(k).message)
    ensures Resumed(calls, clock, k, pauses) ==
      Resumed(calls, clock, k + 1, pauses + [Delay(k, clock(k))])
  {
    var rest := RetryFrom(calls, clock, k + 1);
    assert pauses + ([Delay(k, clock(k))] + rest.pauses) == pauses + [Delay(k, clock(k))] + rest.pauses;
  }

  /** The number of calls is fixed by the first call that is not rate limited:
      that call is the last one, and without such a call there are three. */
  lemma AttemptsSettled(calls: nat -> Attempt, clock: nat -> real, n: nat)
    requires n < MaxRetries
    requires calls(n).Generated? || !RateLimited(calls(n).message)
    requires forall j :: 0 <= j < n ==> calls(j).Refused? && RateLimited(calls(j).message)
    ensures RetryFrom(calls, clock, 0).attempts == n + 1
  {
  }

  // ---------------------------------------------------------------------------
  // The answer

  /** What decoding the answer's text gives: an object, a list of objects, or
      nothing usable (every decoding attempt failed). */
  datatype Decoded = Object(fields: Record) | List(items: seq<Record>) | Undecodable

  /** A list answer gives its first element, an empty list or an undecodable
      text the empty record. */
  function Unwrap(d: Decoded): (r: Record)
    ensures d.Object? ==> r == d.fields
    ensures d.List? && |d.items| > 0 ==> r == d.items[0]
    ensures d.Undecodable? || d == List([]) ==> r == map[]
  {
    match d
    case Object(f) => f
    case List(items) => if |items| == 0 then map[] else items[0]
    case Undecodable => map[]
  }

  const FileFailed: string := "Gemini File processing failed."

  /** `extract_data`. `upload` is the upload's state sequence, or the
      exception it raised; `decode` stands for the JSON extraction and
      decoding of the answer. `None` when the upload is still processing
      when the observed states run out. */
  function ExtractData(apiKey: string, upload: Result<seq<string>>, calls: nat -> Attempt,
                       clock: nat -> real, decode: string -> Decoded): (r: Option<Outcome>)
    ensures apiKey == "" ==> r == Some(Returned(map[]))
    ensures apiKey != "" && upload.Err? ==> r == Some(Raised(upload.error))
    ensures apiKey != "" && upload.Ok? ==>
      (r.None? <==> Poll(upload.value, 0).Waiting?)
    ensures apiKey != "" && upload.Ok? && Poll(upload.value, 0).Failed? ==> r == Some(Raised(FileFailed))
  {
    if apiKey == "" then Some(Returned(map[]))
    else match upload
    case Err(m) => Some(Raised(m))
    case Ok(states) =>
      match Poll(states, 0)
      case Waiting => None
      case Failed => Some(Raised(FileFailed))
      case Ready(_) => Some(Answer(RetryFrom(calls, clock, 0).response, decode))
  }

  /** The generation's result as the extractor returns it: an exception is
      raised again, an empty text gives the empty record, any other text is
      stripped, decoded and unwrapped. */
  function Answer(response: Result<string>, decode: string -> Decoded): (r: Outcome)
    ensures response.Err? ==> r == Raised(response.error)
    ensures response == Ok("") ==> r == Returned(map[])
    ensures response.Ok? && response.value != "" ==> r == Returned(Unwrap(decode(Strip(response.value))))
  {
    match response
    case Err(m) => Raised(m)
    case Ok(text) => if text == "" then Returned(map[]) else Returned(Unwrap(decode(Strip(text))))
  }

  /** Once the upload is ready, the outcome is the generation's: three rate
      limits in a row raise the last one, a first other exception is raised,
      and a response is decoded. */
  lemma ExtractReady(apiKey: string, states: seq<string>, calls: nat -> Attempt,
                     clock: nat -> real, decode: string -> Decoded)
    requires apiKey != "" && Poll(states, 0).Ready?
    ensures ExtractData(apiKey, Ok(states), calls, clock, decode)
      == Some(Answer(RetryFrom(calls, clock, 0).response, decode))
  {
  }
}
