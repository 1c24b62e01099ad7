/** The challenge-response handshake of login.go. Randomness, HTTP and JSON
    are inputs: the encoded challenge (None when the random source failed)
    and the decoded replies of the login and verify round trips. */
module Login {
  import opened Common
  import opened Transport
  import Options

  /** Bodies of the two handshake requests. */
  datatype LoginBody =
    | LoginRequest(challenge: string)
    | VerifyRequest(challengeResponse: string)

  datatype LoginResponse = LoginResponse(authenticationToken: string, challengeResponse: string, code: Code)

  datatype LoginError =
    | OptionsFailed(reason: string)
    | HostRequired
    | ChallengeFailed
    | LoginFailed(reason: string)
    | NoAuthenticationToken
    | NoChallengeResponse
    | LoginCode(code: Code)
    | VerifyFailed(reason: string)
    | VerifyCode(code: Code)

  /** The host the options select (empty when none is given). */
  function HostOf(opt: seq<Options.Option>): string
  {
    Options.Fold(Options.GetDefaultOptions(), opt).0.withHost
  }

  /** Every phase succeeded: options, host, challenge, the login reply with
      a token, a challenge-response and code 1000, and a verify reply with
      code 1000. */
  predicate HandshakeSucceeds(opt: seq<Options.Option>, challenge: Option<string>,
                              login: Reply<LoginResponse>, verify: Reply<CodeResponse>)
  {
    Options.Fold(Options.GetDefaultOptions(), opt).1 == None && HostOf(opt) != "" &&
    challenge.Some? &&
    login.Decoded? && login.response.authenticationToken != "" &&
    login.response.challengeResponse != "" && login.response.code == CodeOk &&
    verify.Decoded? && verify.response.code == CodeOk
  }

  /** Login: a client is produced only when both phases succeed, and it
      binds the host that was asked for to the token the device issued. The
      verify request echoes the challenge-response under that token. */
  function Login(opt: seq<Options.Option>, challenge: Option<string>,
                 login: Reply<LoginResponse>, verify: Reply<CodeResponse>)
    : (run: Run<LoginBody, Client, LoginError>)
    ensures run.result.Ok? <==> HandshakeSucceeds(opt, challenge, login, verify)
    ensures run.result.Ok? ==>
      run.result.value == Client(HostOf(opt), login.response.authenticationToken)
    ensures |run.sent| <= 2
    ensures |run.sent| >= 1 <==>
      Options.Fold(Options.GetDefaultOptions(), opt).1 == None && HostOf(opt) != "" && challenge.Some?
    ensures |run.sent| == 2 <==>
      Options.Fold(Options.GetDefaultOptions(), opt).1 == None && HostOf(opt) != "" && challenge.Some? &&
      login.Decoded? && login.response.authenticationToken != "" &&
      login.response.challengeResponse != "" && login.response.code == CodeOk
    ensures run.result.Ok? ==> |run.sent| == 2
    ensures |run.sent| >= 1 ==>
      challenge.Some? && run.sent[0].host == HostOf(opt) != "" &&
      run.sent[0].path == "/xled/v1/login" && run.sent[0].body == LoginRequest(challenge.value) &&
      run.sent[0].authToken == None
    ensures |run.sent| == 2 ==>
      login.Decoded? && login.response.code == CodeOk &&
      run.sent[1].host == HostOf(opt) && run.sent[1].path == "/xled/v1/verify" &&
      run.sent[1].body == VerifyRequest(login.response.challengeResponse) &&
      run.sent[1].authToken == Some(login.response.authenticationToken)
    ensures forall k :: 0 <= k < |run.sent| ==>
      run.sent[k].httpMethod == "POST" && run.sent[k].contentType == None
    ensures Options.Fold(Options.GetDefaultOptions(), opt).1.Some? ==>
      run == Run([], Err(OptionsFailed(Options.Fold(Options.GetDefaultOptions(), opt).1.value)))
    ensures Options.Fold(Options.GetDefaultOptions(), opt).1 == None && HostOf(opt) == "" ==>
      run == Run([], Err(HostRequired))
    ensures Options.Fold(Options.GetDefaultOptions(), opt).1 == None && HostOf(opt) != "" && challenge.None? ==>
      run == Run([], Err(ChallengeFailed))
    ensures |run.sent| >= 1 && login.TransportFailure? ==> run.result == Err(LoginFailed(login.reason))
    ensures |run.sent| >= 1 && login.Decoded? && login.response.authenticationToken == "" ==>
      run.result == Err(NoAuthenticationToken)
    ensures (|run.sent| >= 1 && login.Decoded? && login.response.authenticationToken != "" &&
             login.response.challengeResponse == "") ==>
      run.result == Err(NoChallengeResponse)
    ensures (|run.sent| >= 1 && login.Decoded? && login.response.authenticationToken != "" &&
             login.response.challengeResponse != "" && login.response.code != CodeOk) ==>
      run.result == Err(LoginCode(login.response.code))
    ensures |run.sent| == 2 && verify.TransportFailure? ==> run.result == Err(VerifyFailed(verify.reason))
    ensures |run.sent| == 2 && verify.Decoded? && verify.response.code != CodeOk ==>
      run.result == Err(VerifyCode(verify.response.code))
  {
    var (opts, err) := Options.Fold(Options.GetDefaultOptions(), opt);
    if err.Some? then Run([], Err(OptionsFailed(err.value)))
    else if opts.withHost == "" then Run([], Err(HostRequired))
    else
      match challenge
      case None => Run([], Err(ChallengeFailed))
      case Some(encoded) =>
        var loginRequest := Request("POST", opts.withHost, "/xled/v1/login", None, None, LoginRequest(encoded));
        match login
        case TransportFailure(reason) => Run([loginRequest], Err(LoginFailed(reason)))
        case Decoded(reply) =>
          if reply.authenticationToken == "" then Run([loginRequest], Err(NoAuthenticationToken))
          else if reply.challengeResponse == "" then Run([loginRequest], Err(NoChallengeResponse))
          else if reply.code != CodeOk then Run([loginRequest], Err(LoginCode(reply.code)))
          else
            var client := Client(opts.withHost, reply.authenticationToken);
            var body := VerifyRequest(reply.challengeResponse);
            CoreRequestsAreBuilt(client, "POST", "/xled/v1/verify", body);
            match DoRequest(client, "POST", "/xled/v1/verify", body, [])
            case Err(reason) => Run([loginRequest], Err(VerifyFailed(reason)))
            case Ok(verifyRequest) =>
              var sent := [loginRequest, verifyRequest];
              match verify
              case TransportFailure(reason) => Run(sent, Err(VerifyFailed(reason)))
              case Decoded(reply) =>
                if reply.code != CodeOk then Run(sent, Err(VerifyCode(reply.code)))
                else Run(sent, Ok(client))
  }

  /** Without a host the handshake stops before any challenge is used or
      any request is sent. */
  lemma EmptyHostSendsNothing(opt: seq<Options.Option>, challenge: Option<string>,
                              login: Reply<LoginResponse>, verify: Reply<CodeResponse>)
    requires Options.NoFailure(opt) && HostOf(opt) == ""
    ensures Login(opt, challenge, login, verify) == Run([], Err(HostRequired))
  {
    Options.FoldFailsIffFailing(Options.GetDefaultOptions(), opt);
  }

  /** The checks on the login reply run in order token, challenge-response,
      code, whatever the rest of the reply says, and end the handshake
      after the one login request. */
  lemma LoginReplyChecksInOrder(opt: seq<Options.Option>, challenge: string,
                                reply: LoginResponse, verify: Reply<CodeResponse>)
    requires Options.NoFailure(opt) && HostOf(opt) != ""
    ensures var run := Login(opt, Some(challenge), Decoded(reply), verify);
      (reply.authenticationToken == "" ==> run.result == Err(NoAuthenticationToken)) &&
      (reply.authenticationToken != "" && reply.challengeResponse == "" ==>
         run.result == Err(NoChallengeResponse)) &&
      (reply.authenticationToken != "" && reply.challengeResponse != "" && reply.code != CodeOk ==>
         run.result == Err(LoginCode(reply.code))) &&
      (!HandshakeSucceeds(opt, Some(challenge), Decoded(reply), verify) ==> run.result.Err?) &&
      (reply.authenticationToken == "" || reply.challengeResponse == "" || reply.code != CodeOk ==>
         |run.sent| == 1)
  {
    Options.FoldFailsIffFailing(Options.GetDefaultOptions(), opt);
  }

  /** The client's host is the one given by the last WithHost option. */
  lemma ClientHostIsLastWithHost(opt: seq<Options.Option>, challenge: Option<string>,
                                 login: Reply<LoginResponse>, verify: Reply<CodeResponse>, k: nat)
    requires Login(opt, challenge, login, verify).result.Ok?
    requires Options.LastHostAt(opt, k)
    ensures Login(opt, challenge, login, verify).result.value.validatedHost == opt[k].host
  {
    var d := Options.GetDefaultOptions();
    Options.FoldFailsIffFailing(d, opt);
    Options.LastHostWins(d, opt);
  }

  /** With no WithHost option at all no client is ever produced. */
  lemma NoHostOptionNoClient(opt: seq<Options.Option>, challenge: Option<string>,
                             login: Reply<LoginResponse>, verify: Reply<CodeResponse>)
    requires forall k :: 0 <= k < |opt| ==> !opt[k].WithHost?
    ensures Login(opt, challenge, login, verify).result.Err?
    ensures Login(opt, challenge, login, verify).sent == []
  {
    var d := Options.GetDefaultOptions();
    Options.FoldFailsIffFailing(d, opt);
    if Options.NoFailure(opt) {
      Options.LastHostWins(d, opt);
    }
  }

  /** A login reply {token "abc", challenge-response "xyz", code 1000}
      followed by verify code 1000 yields the client (host, "abc"); verify
      code 1001 instead yields an error and no client. */
  lemma HandshakeScenario(host: string, challenge: string)
    requires host != ""
    ensures
      var login := Decoded(LoginResponse("abc", "xyz", CodeOk));
      Login([Options.WithHost(host)], Some(challenge), login, Decoded(CodeResponse(CodeOk))).result
        == Ok(Client(host, "abc")) &&
      Login([Options.WithHost(host)], Some(challenge), login, Decoded(CodeResponse(CodeError))).result
        == Err(VerifyCode(CodeError))
  {
    var opt := [Options.WithHost(host)];
    assert opt[1..] == [];
    assert Options.Fold(Options.GetDefaultOptions(), opt) == (Options.Options(host, ""), None);
  }
}
