/** The request sequences of movie.go around the encoder: uploading a movie
    for immediate playback (UploadFullMovie) and storing a named movie
    (CreateMovie). The device's replies are inputs; each operation yields
    the requests it sent and its result. */
module MovieUpload {
  import opened Common
  import opened Transport
  import Options
  import opened Movie

  /** The `Movie` metadata record sent when creating a named movie. */
  datatype MovieEntry = MovieEntry(
    id: int,
    name: string,
    uniqueId: string,
    descriptorType: string,
    ledsPerFrame: int,
    framesNumber: int,
    fps: int)

  /** Bodies of the movie requests: the raw buffer (octet-stream), the
      SetLedMovieConfigRequest and the JSON movie entry. */
  datatype MovieBody =
    | Octets(bytes: seq<uint8>)
    | MovieConfig(frameDelay: int, ledsNumber: int, framesNumber: int)
    | NewMovie(entry: MovieEntry)

  datatype UploadFullMovieResponse = UploadFullMovieResponse(code: Code, framesNumber: int)

  datatype MovieError =
    | MarshalFailed(cause: MarshalError)
    | UploadFailed(reason: string)
    | FramesMismatch(received: int, expected: int)
    | ConfigFailed(reason: string)
    | ConfigCode(code: Code)
    | CreateEntryFailed(reason: string)
    | DuplicateUniqueId(uniqueId: string)
    | CreateEntryCode(code: Code)
    | MovieUploadFailed(reason: string)
    | MovieUploadCode(code: Code)

  const OctetStream := [Options.WithContentType(ContentTypeOctetStream)]

  /** UploadFullMovie: marshal, upload the buffer, check the echoed frame
      count, then configure delay, LED count and frame count. The code of
      the upload reply is not inspected, only its frame count. */
  function UploadFullMovie(c: Client, m: LedMovie, upload: Reply<UploadFullMovieResponse>, config: Reply<CodeResponse>)
    : (run: Run<MovieBody, (), MovieError>)
    ensures MarshalSpec(m).Err? ==> run == Run([], Err(MarshalFailed(MarshalSpec(m).error)))
    ensures run.result.Ok? <==>
      MarshalSpec(m).Ok? &&
      upload.Decoded? && upload.response.framesNumber == |m.frames| &&
      config.Decoded? && config.response.code == CodeOk
    ensures |run.sent| <= 2
    ensures |run.sent| >= 1 <==> MarshalSpec(m).Ok?
    ensures |run.sent| == 2 <==>
      MarshalSpec(m).Ok? && upload.Decoded? && upload.response.framesNumber == |m.frames|
    ensures run.result.Ok? ==> |run.sent| == 2
    ensures |run.sent| >= 1 ==>
      MarshalSpec(m).Ok? && run.sent[0].body == Octets(MarshalSpec(m).value) &&
      run.sent[0].path == "/xled/v1/led/movie/full" &&
      run.sent[0].contentType == Some(ContentTypeOctetStream)
    ensures |run.sent| == 2 ==>
      upload.Decoded? && upload.response.framesNumber == |m.frames| &&
      run.sent[1].path == "/xled/v1/led/movie/config" && run.sent[1].body.MovieConfig? &&
      run.sent[1].contentType == None
    ensures forall k :: 0 <= k < |run.sent| ==> run.sent[k].httpMethod == "POST"
    ensures |run.sent| >= 1 && upload.TransportFailure? ==> run.result == Err(UploadFailed(upload.reason))
    ensures |run.sent| >= 1 && upload.Decoded? && upload.response.framesNumber != |m.frames| ==>
      run.result == Err(FramesMismatch(upload.response.framesNumber, |m.frames|))
    ensures |run.sent| == 2 && config.TransportFailure? ==> run.result == Err(ConfigFailed(config.reason))
    ensures |run.sent| == 2 && config.Decoded? && config.response.code != CodeOk ==>
      run.result == Err(ConfigCode(config.response.code))
    ensures forall k :: 0 <= k < |run.sent| ==>
      run.sent[k].host == c.validatedHost && run.sent[k].authToken == HeaderValue(c.authenticationToken)
  {
    match MarshalSpec(m)
    case Err(e) => Run([], Err(MarshalFailed(e)))
    case Ok(buf) =>
      CoreRequestsAreBuilt(c, "POST", "/xled/v1/led/movie/full", Octets(buf));
      match DoRequest(c, "POST", "/xled/v1/led/movie/full", Octets(buf), OctetStream)
      case Err(reason) => Run([], Err(UploadFailed(reason)))
      case Ok(uploadRequest) =>
        match upload
        case TransportFailure(reason) => Run([uploadRequest], Err(UploadFailed(reason)))
        case Decoded(reply) =>
          if reply.framesNumber != |m.frames| then
            Run([uploadRequest], Err(FramesMismatch(reply.framesNumber, |m.frames|)))
          else
            MarshalSize(m);
            // Go's int division truncates; for a positive divisor it agrees with Dafny's.
            var body := MovieConfig(1000 / |m.frames|, |m.frames[0].leds|, |m.frames|);
            CoreRequestsAreBuilt(c, "POST", "/xled/v1/led/movie/config", body);
            match DoRequest(c, "POST", "/xled/v1/led/movie/config", body, [])
            case Err(reason) => Run([uploadRequest], Err(ConfigFailed(reason)))
            case Ok(configRequest) =>
              var sent := [uploadRequest, configRequest];
              match config
              case TransportFailure(reason) => Run(sent, Err(ConfigFailed(reason)))
              case Decoded(reply) =>
                if reply.code != CodeOk then Run(sent, Err(ConfigCode(reply.code)))
                else Run(sent, Ok(()))
  }

  /** The configuration declares the shape of the buffer just uploaded:
      frames x LEDs x (3 or 4) bytes, the frame count the device echoed,
      and a frame delay that is 1000 / frames rounded down. Both requests
      go to the client's host with its token. */
  lemma ConfigAgreesWithUpload(c: Client, m: LedMovie, upload: Reply<UploadFullMovieResponse>, config: Reply<CodeResponse>)
    requires |UploadFullMovie(c, m, upload, config).sent| == 2
    ensures
      var sent := UploadFullMovie(c, m, upload, config).sent;
      var cfg := sent[1].body;
      sent[0].body.Octets? && cfg.MovieConfig? &&
      cfg.framesNumber == |m.frames| == upload.response.framesNumber &&
      cfg.ledsNumber == |m.frames[0].leds| > 0 &&
      |sent[0].body.bytes| == cfg.framesNumber * cfg.ledsNumber * LedSize(m.frames[0].leds[0].HasWhite()) &&
      cfg.frameDelay * cfg.framesNumber <= 1000 < (cfg.frameDelay + 1) * cfg.framesNumber &&
      sent[0].host == sent[1].host == c.validatedHost &&
      sent[0].authToken == sent[1].authToken == HeaderValue(c.authenticationToken)
  {
    MarshalSize(m);
    var f := |m.frames|;
    var d := 1000 / f;
    assert d * f + 1000 % f == 1000;
    assert (d + 1) * f == d * f + f;
  }

  /** CreateMovie: marshal first, then create the entry (1106 means the
      unique ID exists, 1000 continues, any other code fails), then upload
      the buffer, whose reply code must be 1000. */
  function CreateMovie(c: Client, entry: MovieEntry, l: LedMovie, created: Reply<CodeResponse>, uploaded: Reply<CodeResponse>)
    : (run: Run<MovieBody, (), MovieError>)
    ensures MarshalSpec(l).Err? ==> run == Run([], Err(MarshalFailed(MarshalSpec(l).error)))
    ensures run.result.Ok? <==>
      MarshalSpec(l).Ok? &&
      created.Decoded? && created.response.code == CodeOk &&
      uploaded.Decoded? && uploaded.response.code == CodeOk
    ensures run.result == Err(DuplicateUniqueId(entry.uniqueId)) <==>
      MarshalSpec(l).Ok? && created.Decoded? && created.response.code == CodeDuplicateUniqueId
    ensures |run.sent| <= 2
    ensures |run.sent| >= 1 <==> MarshalSpec(l).Ok?
    ensures |run.sent| == 2 <==>
      MarshalSpec(l).Ok? && created.Decoded? && created.response.code == CodeOk
    ensures run.result.Ok? ==> |run.sent| == 2
    ensures |run.sent| >= 1 ==>
      run.sent[0].path == "/xled/v1/movies/new" && run.sent[0].body == NewMovie(entry) &&
      run.sent[0].contentType == None
    ensures forall k :: 0 <= k < |run.sent| ==> run.sent[k].httpMethod == "POST"
    ensures |run.sent| >= 1 && created.TransportFailure? ==> run.result == Err(CreateEntryFailed(created.reason))
    ensures (|run.sent| >= 1 && created.Decoded? && created.response.code != CodeOk &&
             created.response.code != CodeDuplicateUniqueId) ==>
      run.result == Err(CreateEntryCode(created.response.code))
    ensures |run.sent| == 2 && uploaded.TransportFailure? ==> run.result == Err(MovieUploadFailed(uploaded.reason))
    ensures |run.sent| == 2 && uploaded.Decoded? && uploaded.response.code != CodeOk ==>
      run.result == Err(MovieUploadCode(uploaded.response.code))
    ensures |run.sent| == 2 ==>
      created.Decoded? && created.response.code == CodeOk &&
      run.sent[1].path == "/xled/v1/movies/full" &&
      run.sent[1].body == Octets(MarshalSpec(l).value) &&
      run.sent[1].contentType == Some(ContentTypeOctetStream)
    ensures forall k :: 0 <= k < |run.sent| ==>
      run.sent[k].host == c.validatedHost && run.sent[k].authToken == HeaderValue(c.authenticationToken)
  {
    match MarshalSpec(l)
    case Err(e) => Run([], Err(MarshalFailed(e)))
    case Ok(buf) =>
      CoreRequestsAreBuilt(c, "POST", "/xled/v1/movies/new", NewMovie(entry));
      match DoRequest(c, "POST", "/xled/v1/movies/new", NewMovie(entry), [])
      case Err(reason) => Run([], Err(CreateEntryFailed(reason)))
      case Ok(entryRequest) =>
        match created
        case TransportFailure(reason) => Run([entryRequest], Err(CreateEntryFailed(reason)))
        case Decoded(reply) =>
          if reply.code == CodeDuplicateUniqueId then Run([entryRequest], Err(DuplicateUniqueId(entry.uniqueId)))
          else if reply.code != CodeOk then Run([entryRequest], Err(CreateEntryCode(reply.code)))
          else
            CoreRequestsAreBuilt(c, "POST", "/xled/v1/movies/full", Octets(buf));
            match DoRequest(c, "POST", "/xled/v1/movies/full", Octets(buf), OctetStream)
            case Err(reason) => Run([entryRequest], Err(MovieUploadFailed(reason)))
            case Ok(uploadRequest) =>
              var sent := [entryRequest, uploadRequest];
              match uploaded
              case TransportFailure(reason) => Run(sent, Err(MovieUploadFailed(reason)))
              case Decoded(reply) =>
                if reply.code != CodeOk then Run(sent, Err(MovieUploadCode(reply.code)))
                else Run(sent, Ok(()))
  }
}
