# go-twinkly client core in Dafny

A model of the core of go-twinkly, a Go client for Twinkly LED controllers.
The device exposes an HTTP control plane; the client logs in with a
challenge-response handshake and uploads "movies", frames of per-LED colours,
as one flat byte buffer.

Modules, one per source file of the core:

- `Common` (common.dfy): `Option`/`Result`, the `uint8` byte type, and the status codes of consts.go (`CodeOk` = 1000, `CodeDuplicateUniqueId` = 1106, ...).
- `Options` (options.dfy), option.go: the `options` record, the `Option` list entries (`Nil`, `WithHost`, `WithContentType`, and `Failing` for an option that returns an error), the spec fold `Fold`, and the imperative `GetOpts` loop proved equal to it.
- `Transport` (client.go): the `Client` value, requests as values (method, host, path, `X-Auth-Token` and `Content-Type` headers, typed body), and replies as inputs: a transport failure or the decoded response. `DoRequest` builds a request the way `doRequest` does before the round trip.
- `Movie` (movie.go): `Led` as `Rgb | Rgbw` with the accessors of the `Led` interface, the constructors, `Frame`, `LedMovie`, and `LedMovie.Marshal`. The validation scan is the spec function `Validate` and the wire layout is `EncodeFrames`. `Marshal` is imperative: `CheckFrames` keeps the reference LED count and white flag as `Option`s set on first sight, and `FillBuffer`/`FillFrame`/`WriteFrame`/`WriteLed` fill a zeroed array of `len(frames)*n*ledSize` bytes, frame after frame and LED after LED. All are proved against the spec functions.
- `MovieUpload` (movie.go): `UploadFullMovie` and `CreateMovie` as decision functions. The device replies are parameters, and the result lists the requests sent and the outcome.
- `Login` (login.go): `Login` as a decision function over the options, the encoded challenge and the login and verify replies.

Go's `error` values become datatypes: `MarshalError`, `MovieError` and
`LoginError`. Their constructors carry what the messages carry (frame index,
status code, unique ID). Go's `int` division in `1000 / len(m.Frames)` only
ever sees a positive divisor, so Dafny's `/` computes the same value.

## Model

| member | source | states |
|---|---|---|
| `Options.GetDefaultOptions` | option.go:26-28 | the default record has an empty host and an empty content type |
| `Options.Apply` | option.go:30-42 | `WithHost(s)` sets only `withHost` to s, `WithContentType(s)` sets only `withContentType`, and neither returns an error; a failing option leaves the record unchanged and returns its error |
| `Options.GetOpts` | option.go:6-17 | the loop returns exactly the left-to-right fold of the list over the defaults: nil entries are skipped, and the first error stops it with the record built so far |
| `Options.NoOptionsGiveDefaults` | option.go:7 | an empty option list yields the defaults and no error |
| `Options.NilIsSkipped` | option.go:9 | inserting a nil entry anywhere in the list changes neither the record nor the error |
| `Options.FirstErrorStops` | option.go:10-13 | the first failing option's error is returned with the record the earlier options built; later options have no effect |
| `Options.FoldFailsIffFailing` | option.go:8-16 | the fold reports an error if and only if some option in the list fails |
| `Options.LastHostWins` | option.go:8-15 | without failures, the host is that of the last `WithHost` in the list, or the starting host when there is none |
| `Options.LastContentTypeWins` | option.go:8-15 | without failures, the content type is that of the last `WithContentType`, or the starting one when there is none |
| `Transport.HeaderValue` | client.go:69-74 | a header is present exactly when its value is non-empty, and then it carries that value |
| `Transport.DoRequest` | client.go:33-74 | the request fails exactly when the options fail; otherwise it goes to the client's validated host and path with the given body, carries `X-Auth-Token` only when the token is non-empty, and the content type the options give |
| `Transport.CoreRequestsAreBuilt` | client.go:34-37 | the two option lists the core passes (none, or the octet-stream content type) never fail, and they give no content type and `application/octet-stream` respectively |
| `Movie.NewRgbLed` | movie.go:26-65 | an RGB LED returns its three channels unchanged, reports white 0 and `HasWhite() == false` |
| `Movie.NewRgbwLed` | movie.go:26-76 | an RGBW LED returns its four channels unchanged and reports `HasWhite() == true` |
| `Movie.CheckFrames` | movie.go:87-117 | the validation loops, with reference values set on first sight, return exactly `Validate`: the format on success, the first error of the scan otherwise |
| `Movie.FillBuffer` | movie.go:118-136 | the buffer allocated at frames x LEDs x ledSize and filled at computed offsets equals the frame-major, LED-minor encoding |
| `Movie.FillFrame` | movie.go:125-135 | one pass of the outer loop: with the earlier frames' encoding already in place, frame i's encoding follows it and the next frame starts right after, within the buffer; the bytes after frame i's slot are unchanged |
| `Movie.WriteFrame` | movie.go:126-134 | writing one frame's LEDs in turn from the frame's first byte leaves the whole buffer as the old bytes before the frame, that frame's encoding, then the old bytes after it; every write is in bounds |
| `Movie.WriteLed` | movie.go:127-133 | one LED's bytes are red, green, blue and, only with white, white, and the whole buffer is the old bytes before the offset, those bytes, then the old bytes after the slot |
| `Movie.Marshal` | movie.go:86-137 | Marshal returns exactly the validation error, or the encoding in the established format |
| `Movie.ZeroFramesRejected` | movie.go:87-89 | a movie with no frames is rejected with `EmptyMovie` and no buffer |
| `Movie.ValidateOk` | movie.go:93-117 | Marshal accepts a movie iff it has a frame and every frame is non-empty, has frame 0's LED count and has only LEDs of the first LED's format |
| `Movie.FirstBadFrameError` | movie.go:93-117 | the first frame failing a check decides the error; on it, the empty check comes before the count check, which comes before the white check |
| `Movie.EmptyFrameIsFirstReached` | movie.go:94-96 | an `EmptyFrame(i)` error names an empty frame that the scan reached: every earlier frame passed all its checks |
| `Movie.InconsistentCountRejected` | movie.go:97-104 | when all frames are non-empty and in one format, a frame whose LED count differs from frame 0's gives `InconsistentLedCount` |
| `Movie.MixedFormatRejected` | movie.go:106-116 | with consistent non-empty frames, an RGB LED and an RGBW LED anywhere in the movie give `InconsistentWhite`, whichever comes first |
| `Movie.MarshalSize` | movie.go:118-123 | on success the buffer has exactly frames x LEDs x (4 if the first LED has white, else 3) bytes |
| `Movie.MarshalLayout` | movie.go:125-134 | on success LED j of frame i starts at `i*n*w + j*w` inside the buffer, with red, green and blue there, and white at +3 only for RGBW |
| `Movie.RgbFrameExample` | movie.go:125-134 | one RGB frame of (255,0,0), (0,255,0), (0,0,255) encodes to `FF 00 00 00 FF 00 00 00 FF` |
| `Movie.RgbwLedExample` | movie.go:125-134 | one RGBW LED (10,20,30,40) encodes to `0A 14 1E 28` |
| `MovieUpload.UploadFullMovie` | movie.go:150-177 | a marshal failure sends nothing and otherwise the upload is sent, carrying exactly the marshalled buffer as octet-stream; the config request is sent iff the echoed frame count matches; success implies both requests were sent and requires the echoed frame count to equal the frame count and the config reply code to be 1000; every request is a POST to the client's validated host with its token header, the config request without a content type; each failure names its step: an upload transport failure, `FramesMismatch` with the echoed and the expected count, a config transport failure, or `ConfigCode` with the received code |
| `MovieUpload.ConfigAgreesWithUpload` | movie.go:160-168 | the config declares the uploaded buffer's shape: frame count (as echoed by the device), LED count of frame 0, a buffer of frames x LEDs x (4 if the first LED has white, else 3) bytes, and frame delay `1000 / frames` rounded down; both requests carry the client's host and token |
| `MovieUpload.CreateMovie` | movie.go:207-234 | a marshal failure sends nothing and otherwise the entry request is sent; the upload is sent iff the entry code is 1000; success implies both requests were sent; entry code 1106 gives the duplicate-ID error, 1000 continues, anything else fails; success requires both codes to be 1000, and the second request uploads exactly the marshalled buffer; every request is a POST to the client's validated host with its token header, the entry request without a content type; each failure names its step: an entry transport failure, `CreateEntryCode` with any code other than 1000 and 1106, an upload transport failure, or `MovieUploadCode` with the received code |
| `Login.Login` | login.go:40-111 | a client is returned iff options, host, challenge, the login reply (token, challenge-response, code 1000) and the verify reply (code 1000) all succeed, and then both the login and the verify request were sent; the login request is sent iff options, host and challenge succeed, and the verify request iff the login reply also passes its checks; the client binds the requested host to the issued token; the verify request echoes the challenge-response under that token; both requests are POSTs without a content type; each failure names its step: the option error, `HostRequired`, `ChallengeFailed`, a login transport failure, the three login-reply checks in order, a verify transport failure, or `VerifyCode` with the received code |
| `Login.EmptyHostSendsNothing` | login.go:45-47 | an empty host fails with `HostRequired` before any challenge is used or request is sent |
| `Login.LoginReplyChecksInOrder` | login.go:82-90 | the login reply is checked for an empty token first, then an empty challenge-response, then a code other than 1000; each failure ends the handshake after the one login request |
| `Login.ClientHostIsLastWithHost` | login.go:41-47 | the client's validated host is the one from the last `WithHost` option |
| `Login.NoHostOptionNoClient` | login.go:45-47 | without any `WithHost` option, no client is produced and no request is sent |
| `Login.HandshakeScenario` | login.go:92-110 | login {"abc", "xyz", 1000} then verify 1000 yields `Client(host, "abc")`; verify 1001 instead yields `VerifyCode(1001)` and no client |

## Left out

- HTTP, URL construction, JSON encoding and decoding, and `http.DefaultClient` I/O are not modelled. Each round trip is a `Reply` input: a transport failure or the decoded response. A failure to build a request (`json.Marshal` and `http.NewRequest` at login.go:57-70, their counterparts in `doRequest`) is folded into the transport failure, so in that case the model lists in `sent` a request the source never sent.
- The challenge is not generated (login.go:49-56). The 32 random bytes and their base64 text are an opaque `Option<string>` input, where None means the random source failed.
- `context.Context` cancellation and deadlines are not modelled. Only requests made through `doRequest` (verify and the movie calls) honour the context, and there a cancellation surfaces as an ordinary transport error; the login request (login.go:67-71) is built and sent without the context.
- Errors carry their kind and context, not the Go message text. `CreateMovie` reuses the message "error creating movie entry" for both of its transport failures; the model distinguishes the two steps.
- `Led` is an open Go interface; the model covers its two implementations in movie.go. A nil `Led` in a frame, such as an unfilled slot of `make([]Led, n)`, makes the source panic in `HasWhite()`, and the model cannot represent it.
- `Options.Failing` stands for an option that returns an error without touching the record, a possibility the `Option` type allows though the library's own options never fail. An option that both changes the record and fails is not modelled.
- The `[]byte` type assertion in `doRequest` for octet-stream bodies (client.go:42-46) is not modelled: bodies are typed, so the core always passes bytes with that content type.
- `CreateMovie` decodes both replies into the same `resp` variable, and JSON decoding keeps fields that are absent from a reply. An upload reply without a "code" field would therefore read as the entry reply's 1000. The model takes each decoded code as given.
- `UploadFullMovie` never inspects the upload reply's code, only its `frames_number`. The model follows this.
- `ListMovies` and `led.go` (`GetLedOperationMode`, `SetLedOperationMode`) are single request-and-code-check wrappers of the same shape as the modelled calls.
- Determinism of `Marshal` needs no lemma: the model is a function of its input.
- `Movie.WriteFrame`: the source computes each LED's offset as `i*len(frame.Leds)*ledSize + j*ledSize`; the method carries the same offset as a running sum from the frame's first byte instead of multiplying. `MarshalLayout` proves that every LED lands at the source's offset.
- example/main.go is a demo program and is not part of this model.
