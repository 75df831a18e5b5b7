/** The authentication service (internal/auth/auth.go): a credential table,
    a session table, and the signup and login transitions over them.

    Each request is one atomic transition: the service's two mutexes
    serialise the handlers, so the model runs them one after another.
    The wall clock is not modelled: the session id (the Unix time in
    microseconds, written in decimal) and the current Unix time in seconds
    are parameters. SHA-256 and base64 are parameters as well. */
module Auth {
  import opened Results
  import Hex

  /** A SHA-256 digest: 32 bytes. */
  type Digest = d: seq<Hex.Byte> | |d| == 32 witness seq(32, i => 0)

  /** Number of leading characters `decodeAuthHeaderPayload` cuts off,
      the length of the prefix "Basic ". */
  const PrefixLength: nat := 6

  /** Number of digest bytes that make up a player id. */
  const PlayerIdBytes: nat := 4

  datatype AuthError =
    | MissingHeader           // no Authorization header
    | HeaderTooShort          // header shorter than the prefix: the slice [6:] panics in Go
    | UndecodableCredentials  // the payload is not valid base64
    | MissingSeparator        // no ':' in the payload: Split(...)[1] panics in Go
    | UsernameExists
    | InvalidCredentials
    | EmptyPlayerIdInput      // generatePlayerID was given the empty string

  datatype Session = Session(playerId: string, sessionId: string, lastActionTime: int)

  datatype AuthState = AuthState(
    credentials: map<string, string>,
    sessions: map<string, Session>)

  /** What a successful signup or login hands back to the client: the player
      id in the body, the session id in the Session-Id header. */
  datatype Grant = Grant(playerId: string, sessionId: string)

  /** The state after a request together with the request's outcome. A failed
      request can still have changed the state (see `Signup`). */
  datatype Reply = Reply(state: AuthState, outcome: Result<Grant, AuthError>)

  /** `NewAuthServer`: both tables empty. */
  const Initial: AuthState := AuthState(map[], map[])

  // ---------------------------------------------------------------------
  // Invariants of the session table

  /** Every session is stored under its own session id. */
  ghost predicate KeyConsistent(sessions: map<string, Session>) {
    forall k :: k in sessions ==> sessions[k].sessionId == k
  }

  /** No player holds two sessions. */
  ghost predicate OnePerPlayer(sessions: map<string, Session>) {
    forall k1, k2 :: k1 in sessions && k2 in sessions && sessions[k1].playerId == sessions[k2].playerId ==> k1 == k2
  }

  ghost predicate Valid(st: AuthState) {
    KeyConsistent(st.sessions) && OnePerPlayer(st.sessions)
  }

  /** The session ids that currently belong to player `pID`. */
  ghost function SessionsOf(st: AuthState, pID: string): set<string> {
    set k | k in st.sessions && st.sessions[k].playerId == pID
  }

  lemma InitialValid()
    ensures Valid(Initial)
    ensures Initial.credentials == map[] && Initial.sessions == map[]
  {
  }

  // ---------------------------------------------------------------------
  // Player ids

  /** `generatePlayerID`: the first four bytes of the SHA-256 digest of the
      username, hex-encoded; the empty string is refused. */
  function GeneratePlayerId(sha256: string -> Digest, input: string): (r: Result<string, AuthError>)
    ensures r.Err? <==> input == ""
    ensures r.Err? ==> r.error == EmptyPlayerIdInput
    ensures r.Ok? ==> |r.value| == 2 * PlayerIdBytes
    ensures r.Ok? ==> forall i :: 0 <= i < |r.value| ==> Hex.IsHexChar(r.value[i])
    ensures r.Ok? ==> Hex.Decode(r.value) == Some(sha256(input)[..PlayerIdBytes])
  {
    if input == "" then Err(EmptyPlayerIdInput)
    else
      var prefix := sha256(input)[..PlayerIdBytes];
      Hex.RoundTrip(prefix);
      Ok(Hex.Encode(prefix))
  }

  /** Two usernames share a player id exactly when their digests agree on
      the first four bytes; the password plays no part. */
  lemma PlayerIdCollision(sha256: string -> Digest, u1: string, u2: string)
    requires u1 != "" && u2 != ""
    ensures GeneratePlayerId(sha256, u1) == GeneratePlayerId(sha256, u2)
        <==> sha256(u1)[..PlayerIdBytes] == sha256(u2)[..PlayerIdBytes]
  {
  }

  // ---------------------------------------------------------------------
  // The Authorization header

  /** Position of the first occurrence of `c` in `s`. */
  function IndexOf(s: string, c: char): (r: Option<nat>)
    ensures r.None? <==> c !in s
    ensures r.Some? ==> r.value < |s| && s[r.value] == c && c !in s[..r.value]
  {
    if s == [] then None
    else if s[0] == c then Some(0)
    else match IndexOf(s[1..], c)
      case None => None
      case Some(i) =>
        assert s[..i + 1] == [s[0]] + s[1..][..i];
        Some(i + 1)
  }

  /** The first `c` in `u + [c] + rest` is the one after `u` when `u` has none. */
  lemma {:induction false} IndexOfAfterPrefix(u: string, c: char, rest: string)
    requires c !in u
    ensures IndexOf(u + [c] + rest, c) == Some(|u|)
  {
    if u != [] {
      assert (u + [c] + rest)[1..] == u[1..] + [c] + rest;
      IndexOfAfterPrefix(u[1..], c, rest);
    }
  }

  /** The first two elements of `strings.Split(decoded, ":")`, as the source
      reads them: the text before the first ':' and the text between the
      first and the second ':'. Without any ':' the split has one element and
      indexing the second one panics. */
  function SplitAsWritten(decoded: string): (r: Result<(string, string), AuthError>)
    ensures r.Ok? <==> ':' in decoded
    ensures r.Err? ==> r.error == MissingSeparator
    ensures r.Ok? ==> ':' !in r.value.0 && ':' !in r.value.1
    ensures r.Ok? ==> var (usr, pwd) := r.value;
      |usr| + 1 + |pwd| <= |decoded| && decoded[..|usr| + 1 + |pwd|] == usr + ":" + pwd
  {
    match IndexOf(decoded, ':')
    case None => Err(MissingSeparator)
    case Some(i) =>
      var rest := decoded[i + 1..];
      var pwd := match IndexOf(rest, ':') case None => rest case Some(j) => rest[..j];
      assert decoded[..i + 1 + |pwd|] == decoded[..i] + ":" + pwd;
      Ok((decoded[..i], pwd))
  }

  /** The split Basic authentication calls for (section 2 of RFC 7617): the
      user id ends at the first ':' and the password is everything after it. */
  function SplitAtFirstColon(decoded: string): (r: Result<(string, string), AuthError>)
    ensures r.Ok? <==> ':' in decoded
    ensures r.Err? ==> r.error == MissingSeparator
    ensures r.Ok? ==> ':' !in r.value.0 && r.value.0 + ":" + r.value.1 == decoded
  {
    match IndexOf(decoded, ':')
    case None => Err(MissingSeparator)
    case Some(i) =>
      assert decoded == decoded[..i] + ":" + decoded[i + 1..];
      Ok((decoded[..i], decoded[i + 1..]))
  }

  /** Joining a colon-free user id and any password with ':' and splitting
      again gives both back. */
  lemma SplitRoundTrip(usr: string, pwd: string)
    requires ':' !in usr
    ensures SplitAtFirstColon(usr + ":" + pwd) == Ok((usr, pwd))
  {
    var s := usr + ":" + pwd;
    var r := SplitAtFirstColon(s);
    assert s[|usr|] == ':';
    assert r.value.0 + ":" + r.value.1 == s;
    assert r.value.0 == s[..|usr|] == usr;
    assert r.value.1 == s[|usr| + 1..] == pwd;
  }

  /** The source's split gives the password back only when the password has
      no ':' of its own. */
  lemma SplitAsWrittenRoundTrip(usr: string, pwd: string)
    requires ':' !in usr
    ensures SplitAsWritten(usr + ":" + pwd) == Ok((usr, pwd)) <==> ':' !in pwd
  {
    var s := usr + ":" + pwd;
    assert s[..|usr|] == usr && s[|usr|] == ':' && s[|usr| + 1..] == pwd;
    IndexOfAfterPrefix(usr, ':', pwd);
    if ':' !in pwd {
      assert IndexOf(pwd, ':') == None;
    } else {
      var j := IndexOf(pwd, ':').value;
      assert SplitAsWritten(s).value.1 == pwd[..j] != pwd;
    }
  }

  /** Whatever follows a second ':' is dropped by the source's split. */
  lemma SplitAsWrittenDropsTail(usr: string, pwd: string, tail: string)
    requires ':' !in usr && ':' !in pwd
    ensures SplitAsWritten(usr + ":" + pwd + ":" + tail) == Ok((usr, pwd))
    ensures SplitAtFirstColon(usr + ":" + pwd + ":" + tail) == Ok((usr, pwd + ":" + tail))
  {
    var s := usr + ":" + pwd + ":" + tail;
    assert s == usr + [':'] + (pwd + ":" + tail);
    IndexOfAfterPrefix(usr, ':', pwd + ":" + tail);
    assert s[|usr| + 1..] == pwd + [':'] + tail;
    var rest := s[|usr| + 1..];
    IndexOfAfterPrefix(pwd, ':', tail);
    assert IndexOf(rest, ':') == Some(|pwd|);
    assert rest[..|pwd|] == pwd;
    assert s[..|usr|] == usr;
    SplitRoundTrip(usr, pwd + ":" + tail);
  }

  /** A password with a colon is cut short by the source's split:
      "alice:pa:ss" yields the password "pa". */
  lemma SplitAsWrittenTruncates()
    ensures SplitAsWritten("alice:pa:ss") == Ok(("alice", "pa"))
    ensures SplitAtFirstColon("alice:pa:ss") == Ok(("alice", "pa:ss"))
  {
    assert "alice:pa:ss" == "alice" + ":" + "pa" + ":" + "ss";
    SplitAsWrittenDropsTail("alice", "pa", "ss");
  }

  /** `decodeAuthHeaderPayload` as written: drop the first six characters
      without looking at them, base64-decode the rest, split on ':'. */
  function DecodeAuthHeaderAsWritten(base64: string -> Option<string>, header: string): (r: Result<(string, string), AuthError>)
    ensures |header| < PrefixLength ==> r == Err(HeaderTooShort)
    ensures r.Ok? <==> |header| >= PrefixLength && base64(header[PrefixLength..]).Some?
                       && ':' in base64(header[PrefixLength..]).value
    ensures |header| >= PrefixLength && base64(header[PrefixLength..]).None? ==> r == Err(UndecodableCredentials)
    ensures (|header| >= PrefixLength && base64(header[PrefixLength..]).Some?
             && ':' !in base64(header[PrefixLength..]).value) ==> r == Err(MissingSeparator)
    ensures r.Ok? ==> var (usr, pwd) := r.value; var decoded := base64(header[PrefixLength..]).value;
      && ':' !in usr && ':' !in pwd
      && |usr| + 1 + |pwd| <= |decoded| && decoded[..|usr| + 1 + |pwd|] == usr + ":" + pwd
  {
    if |header| < PrefixLength then Err(HeaderTooShort)
    else match base64(header[PrefixLength..])
      case None => Err(UndecodableCredentials)
      case Some(decoded) => SplitAsWritten(decoded)
  }

  /** The header decoder with the split corrected to the first ':'. */
  function DecodeAuthHeader(base64: string -> Option<string>, header: string): (r: Result<(string, string), AuthError>)
    ensures |header| < PrefixLength ==> r == Err(HeaderTooShort)
    ensures r.Ok? <==> |header| >= PrefixLength && base64(header[PrefixLength..]).Some?
                       && ':' in base64(header[PrefixLength..]).value
    ensures r.Ok? ==> ':' !in r.value.0
                      && r.value.0 + ":" + r.value.1 == base64(header[PrefixLength..]).value
    ensures |header| >= PrefixLength && base64(header[PrefixLength..]).None? ==> r == Err(UndecodableCredentials)
    ensures (|header| >= PrefixLength && base64(header[PrefixLength..]).Some?
             && ':' !in base64(header[PrefixLength..]).value) ==> r == Err(MissingSeparator)
  {
    if |header| < PrefixLength then Err(HeaderTooShort)
    else match base64(header[PrefixLength..])
      case None => Err(UndecodableCredentials)
      case Some(decoded) => SplitAtFirstColon(decoded)
  }

  /** The password the source's split reads from `usr + ":" + pwd`: all of
      `pwd` when it has no ':', otherwise `pwd` cut short at its first ':'. */
  lemma SplitAsWrittenCutsPassword(usr: string, pwd: string)
    requires ':' !in usr
    ensures SplitAsWritten(usr + ":" + pwd).Ok?
    ensures var (uw, pw) := SplitAsWritten(usr + ":" + pwd).value;
      && uw == usr && ':' !in pw
      && (pw == pwd || (|pw| < |pwd| && pwd[..|pw| + 1] == pw + ":"))
  {
    if ':' !in pwd {
      SplitAsWrittenRoundTrip(usr, pwd);
    } else {
      var j := IndexOf(pwd, ':').value;
      var head, tail := pwd[..j], pwd[j + 1..];
      assert pwd == head + ":" + tail;
      assert usr + ":" + pwd == usr + ":" + head + ":" + tail;
      SplitAsWrittenDropsTail(usr, head, tail);
      assert pwd[..j + 1] == head + ":";
    }
  }

  /** The source's split and the corrected one accept the same texts and
      agree on the user; the source's password is the corrected password
      cut short at its first ':'. */
  lemma SplitCorrection(decoded: string)
    ensures SplitAsWritten(decoded).Ok? <==> SplitAtFirstColon(decoded).Ok?
    ensures SplitAsWritten(decoded).Ok? ==>
      var (uw, pw) := SplitAsWritten(decoded).value;
      var (uc, pc) := SplitAtFirstColon(decoded).value;
      && uw == uc && ':' !in pw
      && (pw == pc || (|pw| < |pc| && pc[..|pw| + 1] == pw + ":"))
  {
    if ':' in decoded {
      var (uc, pc) := SplitAtFirstColon(decoded).value;
      assert decoded == uc + ":" + pc;
      SplitAsWrittenCutsPassword(uc, pc);
    }
  }

  /** The header decoders differ only in the password, which the source
      cuts at its first ':'. */
  lemma DecodeAuthHeaderCorrection(base64: string -> Option<string>, header: string)
    ensures DecodeAuthHeaderAsWritten(base64, header).Err? ==>
      DecodeAuthHeaderAsWritten(base64, header) == DecodeAuthHeader(base64, header)
    ensures DecodeAuthHeaderAsWritten(base64, header).Ok? <==> DecodeAuthHeader(base64, header).Ok?
    ensures DecodeAuthHeaderAsWritten(base64, header).Ok? ==>
      var (uw, pw) := DecodeAuthHeaderAsWritten(base64, header).value;
      var (uc, pc) := DecodeAuthHeader(base64, header).value;
      && uw == uc && ':' !in pw
      && (pw == pc || (|pw| < |pc| && pc[..|pw| + 1] == pw + ":"))
      && (':' !in pc ==> pw == pc)
  {
    if |header| >= PrefixLength && base64(header[PrefixLength..]).Some? {
      SplitCorrection(base64(header[PrefixLength..]).value);
    }
  }

  /** A client that sends "Basic " followed by the base64 encoding of
      "user:password" gets both back, whatever the password contains. */
  lemma BasicAuthRoundTrip(encode: string -> string, base64: string -> Option<string>, usr: string, pwd: string)
    requires forall s :: base64(encode(s)) == Some(s)
    requires ':' !in usr
    ensures DecodeAuthHeader(base64, "Basic " + encode(usr + ":" + pwd)) == Ok((usr, pwd))
  {
    var h := "Basic " + encode(usr + ":" + pwd);
    assert h[PrefixLength..] == encode(usr + ":" + pwd);
    SplitRoundTrip(usr, pwd);
  }

  /** The first six characters are never inspected: any prefix of that
      length decodes like "Basic ". */
  lemma PrefixIgnored(base64: string -> Option<string>, prefix: string, payload: string)
    requires |prefix| == PrefixLength
    ensures DecodeAuthHeader(base64, prefix + payload) == DecodeAuthHeader(base64, "Basic " + payload)
  {
  }

  // ---------------------------------------------------------------------
  // Sessions

  /** The loop over the session table that deletes every session of `pID`. */
  function WithoutPlayer(sessions: map<string, Session>, pID: string): (r: map<string, Session>)
    ensures forall k :: k in r <==> k in sessions && sessions[k].playerId != pID
    ensures forall k :: k in r ==> r[k] == sessions[k]
  {
    map k | k in sessions && sessions[k].playerId != pID :: sessions[k]
  }

  /** Drop every session of `pID`, then store a fresh one under `sID`. A
      session of another player that happens to sit under `sID` is
      overwritten. */
  function StartSession(sessions: map<string, Session>, pID: string, sID: string, now: int): (r: map<string, Session>)
    ensures sID in r && r[sID] == Session(pID, sID, now)
    ensures forall k :: k in r && r[k].playerId == pID ==> k == sID
    ensures forall k :: k != sID ==> (k in r <==> k in sessions && sessions[k].playerId != pID)
    ensures forall k :: k in r && k != sID ==> r[k] == sessions[k]
  {
    WithoutPlayer(sessions, pID)[sID := Session(pID, sID, now)]
  }

  lemma StartSessionPreservesInvariants(sessions: map<string, Session>, pID: string, sID: string, now: int)
    requires KeyConsistent(sessions) && OnePerPlayer(sessions)
    ensures KeyConsistent(StartSession(sessions, pID, sID, now))
    ensures OnePerPlayer(StartSession(sessions, pID, sID, now))
  {
  }

  // ---------------------------------------------------------------------
  // Signup and login

  /** The signup transition once the header has been decoded. The
      credential is stored before the player id is derived, so an empty
      username is stored even though the request then fails. */
  function Signup(sha256: string -> Digest, st: AuthState, usr: string, pwd: string, sID: string, now: int): (r: Reply)
    ensures r.outcome == Err(UsernameExists) <==> usr in st.credentials
    ensures usr in st.credentials ==> r.state == st
    ensures usr !in st.credentials ==>
      && usr in r.state.credentials && r.state.credentials[usr] == pwd
      && (forall u :: u != usr ==> (u in r.state.credentials <==> u in st.credentials))
      && (forall u :: u in st.credentials && u != usr ==> r.state.credentials[u] == st.credentials[u])
    ensures r.outcome.Ok? <==> usr !in st.credentials && usr != ""
    ensures usr !in st.credentials && usr == "" ==> r.outcome == Err(EmptyPlayerIdInput)
    ensures r.outcome.Err? ==> r.state.sessions == st.sessions
    ensures r.outcome.Ok? ==>
      && r.outcome.value.sessionId == sID
      && r.outcome.value.playerId == Hex.Encode(sha256(usr)[..PlayerIdBytes])
      && r.state.sessions == StartSession(st.sessions, r.outcome.value.playerId, sID, now)
  {
    if usr in st.credentials then Reply(st, Err(UsernameExists))
    else
      var credentials := st.credentials[usr := pwd];
      match GeneratePlayerId(sha256, usr)
      case Err(e) => Reply(st.(credentials := credentials), Err(e))
      case Ok(pID) =>
        Reply(AuthState(credentials, StartSession(st.sessions, pID, sID, now)), Ok(Grant(pID, sID)))
  }

  /** The login transition once the header has been decoded. */
  function Login(sha256: string -> Digest, st: AuthState, usr: string, pwd: string, sID: string, now: int): (r: Reply)
    ensures r.state.credentials == st.credentials
    ensures r.outcome == Err(InvalidCredentials) <==> usr !in st.credentials || st.credentials[usr] != pwd
    ensures r.outcome.Ok? <==> usr in st.credentials && st.credentials[usr] == pwd && usr != ""
    ensures usr in st.credentials && st.credentials[usr] == pwd && usr == "" ==> r.outcome == Err(EmptyPlayerIdInput)
    ensures r.outcome.Err? ==> r.state == st
    ensures r.outcome.Ok? ==>
      && r.outcome.value.sessionId == sID
      && r.outcome.value.playerId == Hex.Encode(sha256(usr)[..PlayerIdBytes])
      && r.state.sessions == StartSession(st.sessions, r.outcome.value.playerId, sID, now)
  {
    if usr !in st.credentials || st.credentials[usr] != pwd then Reply(st, Err(InvalidCredentials))
    else match GeneratePlayerId(sha256, usr)
      case Err(e) => Reply(st, Err(e))
      case Ok(pID) => Reply(st.(sessions := StartSession(st.sessions, pID, sID, now)), Ok(Grant(pID, sID)))
  }

  /** `HandleSignupRequest` without the HTTP plumbing: the first
      Authorization header value, if any, is decoded with the corrected split
      and handed to `Signup`. */
  function HandleSignup(base64: string -> Option<string>, sha256: string -> Digest, st: AuthState,
                        header: Option<string>, sID: string, now: int): (r: Reply)
    ensures header.None? ==> r == Reply(st, Err(MissingHeader))
    ensures header.Some? && DecodeAuthHeader(base64, header.value).Err? ==>
      r == Reply(st, Err(DecodeAuthHeader(base64, header.value).error))
    ensures header.Some? && DecodeAuthHeader(base64, header.value).Ok? ==>
      var (usr, pwd) := DecodeAuthHeader(base64, header.value).value;
      r == Signup(sha256, st, usr, pwd, sID, now)
  {
    match header
    case None => Reply(st, Err(MissingHeader))
    case Some(h) =>
      match DecodeAuthHeader(base64, h)
      case Err(e) => Reply(st, Err(e))
      case Ok((usr, pwd)) => Signup(sha256, st, usr, pwd, sID, now)
  }

  /** `HandleSignupRequest` as written, with the source's split. */
  function HandleSignupAsWritten(base64: string -> Option<string>, sha256: string -> Digest, st: AuthState,
                                 header: Option<string>, sID: string, now: int): (r: Reply)
    ensures header.None? ==> r == Reply(st, Err(MissingHeader))
    ensures header.Some? && DecodeAuthHeaderAsWritten(base64, header.value).Err? ==>
      r == Reply(st, Err(DecodeAuthHeaderAsWritten(base64, header.value).error))
    ensures header.Some? && DecodeAuthHeaderAsWritten(base64, header.value).Ok? ==>
      var (usr, pwd) := DecodeAuthHeaderAsWritten(base64, header.value).value;
      r == Signup(sha256, st, usr, pwd, sID, now)
  {
    match header
    case None => Reply(st, Err(MissingHeader))
    case Some(h) =>
      match DecodeAuthHeaderAsWritten(base64, h)
      case Err(e) => Reply(st, Err(e))
      case Ok((usr, pwd)) => Signup(sha256, st, usr, pwd, sID, now)
  }

  /** `HandleLoginRequest` without the HTTP plumbing, with the corrected split. */
  function HandleLogin(base64: string -> Option<string>, sha256: string -> Digest, st: AuthState,
                       header: Option<string>, sID: string, now: int): (r: Reply)
    ensures header.None? ==> r == Reply(st, Err(MissingHeader))
    ensures header.Some? && DecodeAuthHeader(base64, header.value).Err? ==>
      r == Reply(st, Err(DecodeAuthHeader(base64, header.value).error))
    ensures header.Some? && DecodeAuthHeader(base64, header.value).Ok? ==>
      var (usr, pwd) := DecodeAuthHeader(base64, header.value).value;
      r == Login(sha256, st, usr, pwd, sID, now)
    ensures r.state.credentials == st.credentials
  {
    match header
    case None => Reply(st, Err(MissingHeader))
    case Some(h) =>
      match DecodeAuthHeader(base64, h)
      case Err(e) => Reply(st, Err(e))
      case Ok((usr, pwd)) => Login(sha256, st, usr, pwd, sID, now)
  }

  /** `HandleLoginRequest` as written, with the source's split. */
  function HandleLoginAsWritten(base64: string -> Option<string>, sha256: string -> Digest, st: AuthState,
                                header: Option<string>, sID: string, now: int): (r: Reply)
    ensures header.None? ==> r == Reply(st, Err(MissingHeader))
    ensures header.Some? && DecodeAuthHeaderAsWritten(base64, header.value).Err? ==>
      r == Reply(st, Err(DecodeAuthHeaderAsWritten(base64, header.value).error))
    ensures header.Some? && DecodeAuthHeaderAsWritten(base64, header.value).Ok? ==>
      var (usr, pwd) := DecodeAuthHeaderAsWritten(base64, header.value).value;
      r == Login(sha256, st, usr, pwd, sID, now)
    ensures r.state.credentials == st.credentials
  {
    match header
    case None => Reply(st, Err(MissingHeader))
    case Some(h) =>
      match DecodeAuthHeaderAsWritten(base64, h)
      case Err(e) => Reply(st, Err(e))
      case Ok((usr, pwd)) => Login(sha256, st, usr, pwd, sID, now)
  }

  /** The as-written and the corrected handlers behave the same on every
      header whose decoded password has no ':'. */
  lemma HandlersAgreeWithoutColon(base64: string -> Option<string>, sha256: string -> Digest, st: AuthState,
                                  header: Option<string>, sID: string, now: int)
    requires header.Some? && DecodeAuthHeader(base64, header.value).Ok?
    requires ':' !in DecodeAuthHeader(base64, header.value).value.1
    ensures HandleSignupAsWritten(base64, sha256, st, header, sID, now) == HandleSignup(base64, sha256, st, header, sID, now)
    ensures HandleLoginAsWritten(base64, sha256, st, header, sID, now) == HandleLogin(base64, sha256, st, header, sID, now)
  {
    DecodeAuthHeaderCorrection(base64, header.value);
  }

  /** The truncation lets a wrong password in: when the stored password is
      "pa", a header whose payload decodes to "alice:pa:xx" logs in as
      written, and is refused by the corrected handler. */
  lemma AsWrittenLoginAcceptsWrongPassword(base64: string -> Option<string>, sha256: string -> Digest, st: AuthState,
                                           header: string, sID: string, now: int)
    requires |header| >= PrefixLength && base64(header[PrefixLength..]) == Some("alice:pa:xx")
    requires "alice" in st.credentials && st.credentials["alice"] == "pa"
    ensures HandleLoginAsWritten(base64, sha256, st, Some(header), sID, now).outcome.Ok?
    ensures HandleLogin(base64, sha256, st, Some(header), sID, now) == Reply(st, Err(InvalidCredentials))
  {
    assert "alice:pa:xx" == "alice" + ":" + "pa" + ":" + "xx";
    SplitAsWrittenDropsTail("alice", "pa", "xx");
  }

  // ---------------------------------------------------------------------
  // Properties of the transitions

  lemma SignupPreservesValid(sha256: string -> Digest, st: AuthState, usr: string, pwd: string, sID: string, now: int)
    requires Valid(st)
    ensures Valid(Signup(sha256, st, usr, pwd, sID, now).state)
  {
  }

  lemma LoginPreservesValid(sha256: string -> Digest, st: AuthState, usr: string, pwd: string, sID: string, now: int)
    requires Valid(st)
    ensures Valid(Login(sha256, st, usr, pwd, sID, now).state)
  {
  }

  /** Every request the signup and login handlers serve, as written or
      corrected, keeps the session invariants. */
  lemma HandlersPreserveValid(base64: string -> Option<string>, sha256: string -> Digest, st: AuthState,
                              header: Option<string>, sID: string, now: int)
    requires Valid(st)
    ensures Valid(HandleSignup(base64, sha256, st, header, sID, now).state)
    ensures Valid(HandleLogin(base64, sha256, st, header, sID, now).state)
    ensures Valid(HandleSignupAsWritten(base64, sha256, st, header, sID, now).state)
    ensures Valid(HandleLoginAsWritten(base64, sha256, st, header, sID, now).state)
  {
    if header.Some? {
      var h := header.value;
      if DecodeAuthHeader(base64, h).Ok? {
        var (usr, pwd) := DecodeAuthHeader(base64, h).value;
        SignupPreservesValid(sha256, st, usr, pwd, sID, now);
        LoginPreservesValid(sha256, st, usr, pwd, sID, now);
      }
      if DecodeAuthHeaderAsWritten(base64, h).Ok? {
        var (usr, pwd) := DecodeAuthHeaderAsWritten(base64, h).value;
        SignupPreservesValid(sha256, st, usr, pwd, sID, now);
        LoginPreservesValid(sha256, st, usr, pwd, sID, now);
      }
    }
  }

  /** After a successful signup or login the player owns exactly one
      session, the one just issued. */
  lemma GrantLeavesOneSession(sha256: string -> Digest, st: AuthState, usr: string, pwd: string, sID: string, now: int, isSignup: bool)
    requires var r := if isSignup then Signup(sha256, st, usr, pwd, sID, now) else Login(sha256, st, usr, pwd, sID, now);
             r.outcome.Ok?
    ensures var r := if isSignup then Signup(sha256, st, usr, pwd, sID, now) else Login(sha256, st, usr, pwd, sID, now);
            SessionsOf(r.state, r.outcome.value.playerId) == {sID}
  {
  }

  /** A second signup under the same username fails, whatever the password,
      and changes nothing. */
  lemma SignupTwiceFails(sha256: string -> Digest, st: AuthState, usr: string, pwd1: string, pwd2: string,
                         sID1: string, sID2: string, now1: int, now2: int)
    ensures var st1 := Signup(sha256, st, usr, pwd1, sID1, now1).state;
            Signup(sha256, st1, usr, pwd2, sID2, now2) == Reply(st1, Err(UsernameExists))
  {
  }

  /** After a signup the same credentials log in, and with a different
      password the login is refused. */
  lemma SignupThenLogin(sha256: string -> Digest, st: AuthState, usr: string, pwd: string, other: string,
                        sID1: string, sID2: string, now1: int, now2: int)
    requires usr !in st.credentials && usr != ""
    ensures var st1 := Signup(sha256, st, usr, pwd, sID1, now1).state;
            && Login(sha256, st1, usr, pwd, sID2, now2).outcome == Ok(Grant(Hex.Encode(sha256(usr)[..PlayerIdBytes]), sID2))
            && (other != pwd ==> Login(sha256, st1, usr, other, sID2, now2) == Reply(st1, Err(InvalidCredentials)))
  {
  }

  /** Logging in again supersedes the earlier session: with a different
      session id the first one is gone and only the second one is left. */
  lemma ReloginSupersedes(sha256: string -> Digest, st: AuthState, usr: string, pwd: string,
                          sID1: string, sID2: string, now1: int, now2: int)
    requires usr in st.credentials && st.credentials[usr] == pwd && usr != ""
    requires sID1 != sID2
    ensures var st1 := Login(sha256, st, usr, pwd, sID1, now1).state;
            var r2 := Login(sha256, st1, usr, pwd, sID2, now2);
            && sID1 in st1.sessions
            && sID1 !in r2.state.sessions
            && SessionsOf(r2.state, r2.outcome.value.playerId) == {sID2}
  {
  }
}
