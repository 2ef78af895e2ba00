/**
 * Two-phase login: a start call hands out a single-use token, a complete call waits for the helper and
 * consumes it. Requests are served one at a time. Times are nanoseconds on the monotonic clock.
 */
module LoginSessions {
  import opened Prelude
  import opened Text

  const SESSION_TTL := 600_000_000_000
  const POLL := 200_000_000

  datatype Session = Session(profile: string, domain: string, startedAt: int, pid: nat)
  type Sessions = map<string, Session>

  datatype Config = Config(loginTimeout: nat, dryRun: bool, aup: (string, string) -> bool)

  function Fresh(s: Session, now: int): bool {
    now - s.startedAt < SESSION_TTL
  }

  function Collected(sessions: Sessions, now: int): Sessions {
    map t | t in sessions && Fresh(sessions[t], now) :: sessions[t]
  }

  /** What one round of the waiting loop sees, and the time at its deadline check. */
  datatype Observation = Observation(marker: bool, alive: bool, present: bool, now: int)

  /** The profiles in the store afterwards, if it can be read. */
  datatype StoreView = Unreadable | Readable(profiles: set<string>)

  /** A call, with what the outside world answers during it. */
  datatype Call =
    | Start(profile: string, url: string, domain: string, token: string, helper: Option<nat>, now: int)
    | Complete(token: string, now: int, rounds: nat -> Observation, takenAt: int, store: StoreView)
    | Count(now: int)

  datatype Reply =
    | Started(token: string, pid: nat)
    | MissingField
    | InvalidInput
    | AupRejected
    | SpawnFailed
    | SessionNotFound
    | LoginFailed
    | LoginTimeout
    | StoreFailed
    | Completed(profile: string, domain: string)
    | Counted(n: nat)

  // ----- waiting ------------------------------------------------------------------------------

  datatype Verdict = Finished | HelperFailed | TimedOut

  function Judge(cfg: Config, s: Session, o: Observation, deadline: int): Option<Verdict> {
    if o.marker then Some(Finished)
    else if !cfg.dryRun && s.pid != 0 && !o.alive then Some(if o.present then Finished else HelperFailed)
    else if o.now >= deadline then Some(TimedOut)
    else None
  }

  /** Each round begins at least one poll interval after the one before. */
  ghost predicate Paced(rounds: nat -> Observation) {
    forall k: nat :: rounds(k + 1).now >= rounds(k).now + POLL
  }

  function WaitFrom(cfg: Config, s: Session, rounds: nat -> Observation, deadline: int, k: nat): Verdict
    requires Paced(rounds)
    decreases if rounds(k).now < deadline then deadline - rounds(k).now else 0
  {
    match Judge(cfg, s, rounds(k), deadline)
    case Some(v) => v
    case None => assert rounds(k + 1).now >= rounds(k).now + POLL; WaitFrom(cfg, s, rounds, deadline, k + 1)
  }

  /** The verdict is that of the first round that gives one, and no more rounds pass than fit the timeout. */
  method Wait(cfg: Config, s: Session, rounds: nat -> Observation, began: int) returns (v: Verdict, n: nat)
    requires Paced(rounds) && began <= rounds(0).now
    ensures v == WaitFrom(cfg, s, rounds, began + cfg.loginTimeout, 0)
    ensures Judge(cfg, s, rounds(n), began + cfg.loginTimeout) == Some(v)
    ensures forall k: nat :: k < n ==> Judge(cfg, s, rounds(k), began + cfg.loginTimeout) == None
    ensures n > 0 ==> (n - 1) * 200_000_000 < cfg.loginTimeout && rounds(n - 1).now < began + cfg.loginTimeout
  {
    var deadline := began + cfg.loginTimeout;
    n := 0;
    while true
      invariant WaitFrom(cfg, s, rounds, deadline, 0) == WaitFrom(cfg, s, rounds, deadline, n)
      invariant forall k: nat :: k < n ==> Judge(cfg, s, rounds(k), deadline) == None
      invariant rounds(n).now >= began + n * POLL
      invariant n > 0 ==> rounds(n - 1).now < deadline && rounds(n - 1).now >= began + (n - 1) * POLL
      decreases if rounds(n).now < deadline then deadline - rounds(n).now else 0
    {
      var o := rounds(n);
      if o.marker { return Finished, n; }
      if !cfg.dryRun && s.pid != 0 && !o.alive {
        if o.present { return Finished, n; }
        return HelperFailed, n;
      }
      if o.now >= deadline { return TimedOut, n; }
      assert rounds(n + 1).now >= rounds(n).now + POLL;
      n := n + 1;
    }
  }

  // ----- one call --------------------------------------------------------------------------------

  // The domain of a start call: the one given, or the host of its URL.

  function AfterScheme(url: string): Option<string> {
    if |url| < 3 then None else if url[..3] == "://" then Some(url[3..]) else AfterScheme(url[1..])
  }

  predicate EndsAuthority(c: char) {
    c == '/' || c == '?' || c == '#'
  }

  function Authority(s: string): string {
    if s == "" || EndsAuthority(s[0]) then "" else [s[0]] + Authority(s[1..])
  }

  function HostOf(authority: string): string {
    var host := AfterLast(authority, "@");
    host[..IndexOf(host, ':')]
  }

  function DeriveDomain(url: string): Option<string> {
    match AfterScheme(url)
    case None => None
    case Some(rest) => if HostOf(Authority(rest)) == "" then None else Some(HostOf(Authority(rest)))
  }

  function DomainOf(c: Call): string
    requires c.Start?
  {
    if c.domain != "" then c.domain
    else match DeriveDomain(c.url) case Some(d) => d case None => ""
  }

  lemma {:induction false} SchemeIsDropped(scheme: string, rest: string)
    requires !Contains(scheme, ':')
    ensures AfterScheme(scheme + "://" + rest) == Some(rest)
  {
    var url := scheme + "://" + rest;
    if scheme == "" {
      assert url[..3] == "://" && url[3..] == rest;
    } else {
      assert url[..3][0] == scheme[0] && scheme[0] != ':';
      assert url[1..] == scheme[1..] + "://" + rest;
      assert forall i :: 0 <= i < |scheme| - 1 ==> scheme[1..][i] == scheme[i + 1];
      SchemeIsDropped(scheme[1..], rest);
    }
  }

  lemma {:induction false} AuthorityIsTaken(authority: string, tail: string)
    requires forall i :: 0 <= i < |authority| ==> !EndsAuthority(authority[i])
    requires tail == "" || EndsAuthority(tail[0])
    ensures Authority(authority + tail) == authority
  {
    var s := authority + tail;
    if authority == "" {
      assert s == tail;
    } else {
      assert s[0] == authority[0] && s[1..] == authority[1..] + tail;
      AuthorityIsTaken(authority[1..], tail);
    }
  }

  /** The user name with its '@', or nothing. */
  predicate IsUserInfo(user: string) {
    user == "" || user[|user| - 1] == '@'
  }

  /**
   * Of a URL with any user name and port, the domain derived is the host if and only if the host has no
   * colon. Of a bracketed IPv6 address only what stands before its first colon is taken.
   */
  lemma DomainIsHostIff(scheme: string, user: string, host: string, port: string, tail: string)
    requires !Contains(scheme, ':') && IsUserInfo(user) && host != ""
    requires port == "" || port[0] == ':'
    requires tail == "" || EndsAuthority(tail[0])
    requires !Contains(host + port, '@')
    requires forall i :: 0 <= i < |user + host + port| ==> !EndsAuthority((user + host + port)[i])
    ensures DeriveDomain(scheme + "://" + (user + host + port + tail)) == Some(host) <==> !Contains(host, ':')
  {
    SchemeIsDropped(scheme, user + host + port + tail);
    AuthorityIsTaken(user + host + port, tail);
    HostIsCut(user, host, port);
    var n := IndexOf(host, ':');
    assert Contains(host, ':') <==> n < |host|;
    assert n == |host| ==> host[..n] == host;
  }

  lemma UserIsDropped(user: string, end: string)
    requires IsUserInfo(user) && !Contains(end, '@')
    ensures AfterLast(user + end, "@") == end
  {
    assert forall c :: c in "@" ==> c !in end;
    if user == "" {
      assert user + end == end;
      AfterLastNone(end, "@");
    } else {
      var name := user[..|user| - 1];
      assert user == name + "@";
      AfterLastSeparator(name, "@", end);
    }
  }

  lemma HostIsCut(user: string, host: string, port: string)
    requires IsUserInfo(user) && (port == "" || port[0] == ':') && !Contains(host + port, '@')
    ensures HostOf(user + host + port) == host[..IndexOf(host, ':')]
  {
    assert user + host + port == user + (host + port);
    UserIsDropped(user, host + port);
    ColonOfConcat(host, port);
  }

  lemma ColonOfConcat(host: string, port: string)
    requires port == "" || port[0] == ':'
    ensures IndexOf(host + port, ':') == IndexOf(host, ':')
  {
    var end, n := host + port, IndexOf(host, ':');
    assert forall k :: 0 <= k < |host| ==> end[k] == host[k];
    assert n == |host| && port != "" ==> end[n] == ':';
  }

  lemma Ipv6HostIsCut()
    ensures DeriveDomain("http://[::1]/") == Some("[")
  {
    assert "http://[::1]/" == "http" + "://" + ("[::1]" + "/");
    SchemeIsDropped("http", "[::1]" + "/");
    AuthorityIsTaken("[::1]", "/");
    HostIsCut("", "[::1]", "");
    assert "" + "[::1]" + "" == "[::1]";
    assert "[::1]"[1] == ':' && IndexOf("[::1]", ':') == 1 && "[::1]"[..1] == "[";
  }

  predicate BadProfile(profile: string) {
    '/' in profile || '\\' in profile || profile == "." || profile == ".."
  }

  lemma BadProfileIff(profile: string)
    ensures BadProfile(profile) <==> IsPathLike(profile)
  {}

  /** How a start call is answered; the token is registered exactly if the answer is `Started`. */
  function StartReply(cfg: Config, c: Call): Reply
    requires c.Start?
  {
    if c.profile == "" || c.url == "" || DomainOf(c) == "" then MissingField
    else if BadProfile(c.profile) then InvalidInput
    else if !cfg.aup(DomainOf(c), c.url) then AupRejected
    else if cfg.dryRun then Started(c.token, 0)
    else if c.helper.None? then SpawnFailed
    else Started(c.token, c.helper.value)
  }

  /** The domain a start call is about: the one given, or the one derived. */
  predicate IsDomainOf(c: Call, domain: string)
    requires c.Start?
  {
    domain != "" && if c.domain != "" then domain == c.domain else DeriveDomain(c.url) == Some(domain)
  }

  /** A start call succeeds if and only if nothing stands against it. */
  lemma StartedIff(cfg: Config, c: Call)
    requires c.Start?
    ensures StartReply(cfg, c).Started? <==>
            && c.profile != "" && c.url != "" && !IsPathLike(c.profile)
            && (exists domain :: IsDomainOf(c, domain) && cfg.aup(domain, c.url))
            && (cfg.dryRun || c.helper.Some?)
  {
    BadProfileIff(c.profile);
    if StartReply(cfg, c).Started? { assert IsDomainOf(c, DomainOf(c)); }
  }

  function AfterStart(cfg: Config, sessions: Sessions, c: Call): Sessions
    requires c.Start?
  {
    match StartReply(cfg, c)
    case Started(token, pid) => sessions[token := Session(c.profile, DomainOf(c), c.now, pid)]
    case _ => sessions
  }

  /** The token is known and fresh when a complete call looks it up. */
  predicate Found(sessions: Sessions, c: Call)
    requires c.Complete?
  {
    c.token != "" && c.token in sessions && Fresh(sessions[c.token], c.now)
  }

  ghost predicate Sane(c: Call) {
    c.Complete? ==> Paced(c.rounds) && c.now <= c.rounds(0).now && c.now <= c.takenAt
  }

  function CompleteReply(cfg: Config, sessions: Sessions, c: Call): Reply
    requires c.Complete? && Sane(c)
  {
    if c.token == "" then MissingField
    else if !Found(sessions, c) then SessionNotFound
    else
      var s := sessions[c.token];
      match WaitFrom(cfg, s, c.rounds, c.now + cfg.loginTimeout, 0)
      case HelperFailed => LoginFailed
      case TimedOut => LoginTimeout
      case Finished =>
        if c.store.Unreadable? then StoreFailed
        else if s.profile !in c.store.profiles then LoginFailed
        else Completed(s.profile, s.domain)
  }

  // ----- how a complete call ends, from what is observed ----------------------------------------------

  /** A helper that was really started has exited. */
  predicate HelperGone(cfg: Config, s: Session, o: Observation) {
    !cfg.dryRun && s.pid != 0 && !o.alive
  }

  /** A round that decides nothing. */
  predicate Undecided(cfg: Config, s: Session, o: Observation, deadline: int) {
    !o.marker && !HelperGone(cfg, s, o) && o.now < deadline
  }

  /** Round `n` is the first that decides. */
  ghost predicate Decides(cfg: Config, s: Session, rounds: nat -> Observation, deadline: int, n: nat) {
    !Undecided(cfg, s, rounds(n), deadline) && forall k: nat :: k < n ==> Undecided(cfg, s, rounds(k), deadline)
  }

  lemma {:induction false} WaitEndsAt(
    cfg: Config, s: Session, rounds: nat -> Observation, deadline: int, k: nat) returns (n: nat)
    requires Paced(rounds) && forall m: nat :: m < k ==> Undecided(cfg, s, rounds(m), deadline)
    ensures Decides(cfg, s, rounds, deadline, n)
    ensures var o := rounds(n);
            WaitFrom(cfg, s, rounds, deadline, k) ==
              if o.marker || (HelperGone(cfg, s, o) && o.present) then Finished
              else if HelperGone(cfg, s, o) then HelperFailed
              else TimedOut
    decreases if rounds(k).now < deadline then deadline - rounds(k).now else 0
  {
    if Undecided(cfg, s, rounds(k), deadline) {
      assert rounds(k + 1).now >= rounds(k).now + POLL;
      n := WaitEndsAt(cfg, s, rounds, deadline, k + 1);
    } else {
      n := k;
    }
  }

  /** The completion marker is there, or the helper has gone and left the profile in the store. */
  predicate LoginSeen(cfg: Config, s: Session, o: Observation) {
    o.marker || (HelperGone(cfg, s, o) && o.present)
  }

  /**
   * A complete call whose token is found ends as the first deciding round says: if the login is seen, in
   * success exactly if the store then has the profile; if the helper has gone without one, in failure; and
   * otherwise in a timeout, at the deadline.
   */
  lemma CompleteEndsAsSeen(cfg: Config, sessions: Sessions, c: Call) returns (n: nat)
    requires c.Complete? && Sane(c) && Found(sessions, c)
    ensures Decides(cfg, sessions[c.token], c.rounds, c.now + cfg.loginTimeout, n)
    ensures var s, o, r := sessions[c.token], c.rounds(n), CompleteReply(cfg, sessions, c);
            && (r.LoginTimeout? <==> !o.marker && !HelperGone(cfg, s, o))
            && (r.LoginTimeout? ==> o.now >= c.now + cfg.loginTimeout)
            && (r.LoginFailed? <==>
                  if LoginSeen(cfg, s, o) then c.store.Readable? && s.profile !in c.store.profiles
                  else HelperGone(cfg, s, o))
            && (r.StoreFailed? <==> LoginSeen(cfg, s, o) && c.store.Unreadable?)
            && (r.Completed? <==> LoginSeen(cfg, s, o) && c.store.Readable? && s.profile in c.store.profiles)
            && (r.Completed? ==> r == Completed(s.profile, s.domain))
  {
    n := WaitEndsAt(cfg, sessions[c.token], c.rounds, c.now + cfg.loginTimeout, 0);
  }

  function AfterComplete(sessions: Sessions, c: Call): Sessions
    requires c.Complete?
  {
    if c.token == "" then sessions
    else if !Found(sessions, c) then Collected(sessions, c.now)
    else Collected(Collected(sessions, c.now), c.takenAt) - {c.token}
  }

  /**
   * A complete call leaves exactly the sessions that are within their lifetime when it last looks, apart from
   * its own: at the lookup if that fails, and at the removal if it passes.
   */
  lemma CompleteSweeps(sessions: Sessions, c: Call, t: string)
    requires c.Complete? && Sane(c) && c.token != ""
    ensures var last := if Found(sessions, c) then c.takenAt else c.now;
            t in AfterComplete(sessions, c) <==>
              t in sessions && last - sessions[t].startedAt < 600_000_000_000 && !(Found(sessions, c) && t == c.token)
  {}

  function Next(cfg: Config, sessions: Sessions, c: Call): Sessions {
    match c
    case Start(_, _, _, _, _, _) => AfterStart(cfg, sessions, c)
    case Complete(_, _, _, _, _) => AfterComplete(sessions, c)
    case Count(now) => Collected(sessions, now)
  }

  class AuthSessionRegistry {
    var sessions: Sessions

    constructor ()
      ensures sessions == map[]
    {
      sessions := map[];
    }

    method Insert(token: string, s: Session)
      modifies this
      ensures sessions == old(sessions)[token := s]
    {
      sessions := sessions[token := s];
    }

    /** Drops the sessions that have reached their lifetime and no others. */
    method Gc(now: int)
      modifies this
      ensures sessions == Collected(old(sessions), now)
    {
      sessions := map t | t in sessions && now - sessions[t].startedAt < SESSION_TTL :: sessions[t];
    }

    method Take(token: string, now: int) returns (s: Option<Session>)
      modifies this
      ensures sessions == Collected(old(sessions), now) - {token}
      ensures s == if token in Collected(old(sessions), now) then Some(old(sessions)[token]) else None
    {
      Gc(now);
      s := if token in sessions then Some(sessions[token]) else None;
      sessions := sessions - {token};
    }

    method Peek(token: string, now: int) returns (s: Option<Session>)
      modifies this
      ensures sessions == Collected(old(sessions), now)
      ensures s == if token in sessions then Some(sessions[token]) else None
    {
      Gc(now);
      s := if token in sessions then Some(sessions[token]) else None;
    }

    method Len(now: int) returns (n: nat)
      modifies this
      ensures sessions == Collected(old(sessions), now) && n == |sessions|
    {
      Gc(now);
      n := |sessions|;
    }

    method HandleStart(cfg: Config, c: Call) returns (r: Reply)
      requires c.Start?
      modifies this
      ensures r == StartReply(cfg, c) && sessions == AfterStart(cfg, old(sessions), c)
    {
      if c.profile == "" || c.url == "" || DomainOf(c) == "" { return MissingField; }
      if BadProfile(c.profile) { return InvalidInput; }
      if !cfg.aup(DomainOf(c), c.url) { return AupRejected; }
      var pid := 0;
      if !cfg.dryRun {
        if c.helper.None? { return SpawnFailed; }
        pid := c.helper.value;
      }
      Insert(c.token, Session(c.profile, DomainOf(c), c.now, pid));
      return Started(c.token, pid);
    }

    method HandleComplete(cfg: Config, c: Call) returns (r: Reply)
      requires c.Complete? && Sane(c)
      modifies this
      ensures r == CompleteReply(cfg, old(sessions), c) && sessions == AfterComplete(old(sessions), c)
      ensures Found(old(sessions), c) ==> c.token !in sessions
    {
      if c.token == "" { return MissingField; }
      var snapshot := Peek(c.token, c.now);
      if snapshot.None? { return SessionNotFound; }
      var verdict, _ := Wait(cfg, snapshot.value, c.rounds, c.now);
      var _ := Take(c.token, c.takenAt);
      match verdict
      case HelperFailed => return LoginFailed;
      case TimedOut => return LoginTimeout;
      case Finished =>
        if c.store.Unreadable? { return StoreFailed; }
        if snapshot.value.profile !in c.store.profiles { return LoginFailed; }
        return Completed(snapshot.value.profile, snapshot.value.domain);
    }
  }

  // ----- whole runs ---------------------------------------------------------------------------------

  function After(cfg: Config, run: seq<Call>): Sessions {
    if run == [] then map[] else Next(cfg, After(cfg, run[..|run| - 1]), run[|run| - 1])
  }

  /** The start call that handed out this token. */
  predicate Issues(cfg: Config, c: Call, token: string) {
    c.Start? && c.token == token && StartReply(cfg, c).Started?
  }

  predicate Asks(c: Call, token: string) {
    c.Complete? && c.token == token
  }

  function Begins(c: Call): int { c.now }
  function Ends(c: Call): int { if c.Complete? then c.takenAt else c.now }

  /** One call after another, and every handed-out token is a new one. */
  ghost predicate Sequential(cfg: Config, run: seq<Call>) {
    && (forall i :: 0 <= i < |run| ==> Sane(run[i]))
    && (forall i, j :: 0 <= i < j < |run| ==> Ends(run[i]) <= Begins(run[j]))
    && (forall i, j :: 0 <= i < j < |run| && run[j].Start? ==> !Issues(cfg, run[i], run[j].token))
    && (forall i :: 0 <= i < |run| && run[i].Start? ==> run[i].token != "")
  }

  /** Issued at `i` and not asked for since. */
  ghost predicate Pending(cfg: Config, run: seq<Call>, i: int, token: string) {
    && 0 <= i < |run| && Issues(cfg, run[i], token)
    && forall k :: i < k < |run| ==> !Asks(run[k], token)
  }

  function SessionOf(cfg: Config, c: Call): Session
    requires c.Start?
  {
    Session(c.profile, DomainOf(c), c.now, if cfg.dryRun || c.helper.None? then 0 else c.helper.value)
  }

  lemma SequentialPrefix(cfg: Config, run: seq<Call>, n: nat)
    requires Sequential(cfg, run) && n <= |run|
    ensures Sequential(cfg, run[..n])
  {}

  lemma PendingPrefix(cfg: Config, run: seq<Call>, i: int, token: string)
    requires run != [] && 0 <= i < |run| - 1
    ensures Pending(cfg, run, i, token) <==> Pending(cfg, run[..|run| - 1], i, token) && !Asks(run[|run| - 1], token)
  {}

  /** Every registered token came from an allowed start and has not been asked for since. */
  lemma {:induction false} LiveTokensAreIssued(cfg: Config, run: seq<Call>, token: string) returns (i: nat)
    requires Sequential(cfg, run) && token in After(cfg, run)
    ensures Pending(cfg, run, i, token) && cfg.aup(DomainOf(run[i]), run[i].url)
    ensures After(cfg, run)[token] == SessionOf(cfg, run[i])
  {
    var n := |run| - 1;
    var init, last := run[..n], run[n];
    SequentialPrefix(cfg, run, n);
    if Issues(cfg, last, token) {
      i := n;
    } else {
      assert token in After(cfg, init) && After(cfg, init)[token] == After(cfg, run)[token];
      i := LiveTokensAreIssued(cfg, init, token);
      assert init[i] == run[i] && token != "";
      assert !Asks(last, token);
      PendingPrefix(cfg, run, i, token);
    }
  }

  /**
   * What is registered is safe to use: a profile name that is neither empty nor path-like, and a domain that
   * the policy allowed with the URL of the start, which is the one that call gave, if it gave one.
   */
  lemma RegisteredIsAllowed(cfg: Config, run: seq<Call>, token: string) returns (i: nat)
    requires Sequential(cfg, run) && token in After(cfg, run)
    ensures i < |run| && run[i].Start? && run[i].token == token
    ensures var s, c := After(cfg, run)[token], run[i];
            && s.profile == c.profile && s.profile != "" && !IsPathLike(s.profile) && c.url != ""
            && IsDomainOf(c, s.domain) && cfg.aup(s.domain, c.url)
            && s.startedAt == c.now
            && (if cfg.dryRun then s.pid == 0 else c.helper == Some(s.pid))
  {
    i := LiveTokensAreIssued(cfg, run, token);
    BadProfileIff(run[i].profile);
  }

  /** A token issued less than a lifetime ago and not asked for since is registered. */
  lemma {:induction false} PendingTokensAreLive(cfg: Config, run: seq<Call>, i: nat, token: string, now: int)
    requires Sequential(cfg, run) && Pending(cfg, run, i, token)
    requires now - run[i].now < SESSION_TTL && forall k :: 0 <= k < |run| ==> Ends(run[k]) <= now
    ensures token in After(cfg, run) && After(cfg, run)[token] == SessionOf(cfg, run[i])
  {
    var n := |run| - 1;
    var init, last := run[..n], run[n];
    if i < n {
      SequentialPrefix(cfg, run, n);
      PendingPrefix(cfg, run, i, token);
      assert forall k :: 0 <= k < n ==> init[k] == run[k];
      PendingTokensAreLive(cfg, init, i, token, now);
      assert Sane(last) && Ends(last) <= now;
      NextKeeps(cfg, After(cfg, init), last, token, now);
    }
  }

  lemma NextKeeps(cfg: Config, sessions: Sessions, c: Call, token: string, now: int)
    requires Sane(c) && Ends(c) <= now && !Asks(c, token)
    requires token in sessions && Fresh(sessions[token], now) && (c.Start? ==> c.token != token)
    ensures token in Next(cfg, sessions, c) && Next(cfg, sessions, c)[token] == sessions[token]
  {}

  /**
   * A complete call passes the lookup if and only if its token was handed out by an allowed start less
   * than the lifetime ago and no complete call has named it in between. Nothing else in the run matters:
   * not other tokens, and not when expired sessions were swept.
   */
  lemma LookupExactly(cfg: Config, run: seq<Call>, j: nat)
    requires Sequential(cfg, run) && j < |run| && run[j].Complete?
    ensures Found(After(cfg, run[..j]), run[j]) <==>
            exists i :: Pending(cfg, run[..j], i, run[j].token) && run[j].now - run[i].now < 600_000_000_000
  {
    var before, c := run[..j], run[j];
    SequentialPrefix(cfg, run, j);
    assert forall k :: 0 <= k < j ==> before[k] == run[k] && Ends(run[k]) <= Begins(c);
    if Found(After(cfg, before), c) {
      var i := LiveTokensAreIssued(cfg, before, c.token);
    } else if i :| Pending(cfg, before, i, c.token) && c.now - run[i].now < SESSION_TTL {
      PendingTokensAreLive(cfg, before, i, c.token, c.now);
    }
  }

  /** In any run, at most one complete call per token passes the lookup. */
  lemma SingleUse(cfg: Config, run: seq<Call>, j: nat, k: nat)
    requires Sequential(cfg, run) && j < |run| && k < |run|
    requires run[j].Complete? && run[k].Complete? && run[j].token == run[k].token
    requires Found(After(cfg, run[..j]), run[j]) && Found(After(cfg, run[..k]), run[k])
    ensures j == k
  {
    if j < k {
      SecondUseFails(cfg, run, j, k);
    } else if k < j {
      SecondUseFails(cfg, run, k, j);
    }
  }

  lemma SecondUseFails(cfg: Config, run: seq<Call>, j: nat, k: nat)
    requires Sequential(cfg, run) && j < k < |run|
    requires run[j].Complete? && run[k].Complete? && run[j].token == run[k].token
    requires Found(After(cfg, run[..j]), run[j])
    ensures !Found(After(cfg, run[..k]), run[k])
  {
    LookupExactly(cfg, run, k);
    NeverPendingAgain(cfg, run, j, k);
  }

  /** After a passed lookup the token is never pending again. */
  lemma NeverPendingAgain(cfg: Config, run: seq<Call>, j: nat, n: nat)
    requires Sequential(cfg, run) && j < n <= |run| && run[j].Complete? && Found(After(cfg, run[..j]), run[j])
    ensures forall i :: !Pending(cfg, run[..n], i, run[j].token)
  {
    var token, upto := run[j].token, run[..n];
    LookupExactly(cfg, run, j);
    var first :| Pending(cfg, run[..j], first, token) && run[j].now - run[first].now < SESSION_TTL;
    assert run[..j][first] == run[first] && Issues(cfg, run[first], token);
    assert upto[j] == run[j] && Asks(upto[j], token);
    forall i ensures !Pending(cfg, upto, i, token) {
      if j < i < n {
        assert upto[i] == run[i];
        assert run[i].Start? ==> !Issues(cfg, run[first], run[i].token);
      }
    }
  }

  /** Once a complete call has passed the lookup, its token is gone and stays gone, however it returned. */
  lemma ConsumedForGood(cfg: Config, run: seq<Call>, j: nat, n: nat)
    requires Sequential(cfg, run) && j < n <= |run| && run[j].Complete? && Found(After(cfg, run[..j]), run[j])
    ensures run[j].token !in After(cfg, run[..n])
  {
    NeverPendingAgain(cfg, run, j, n);
    SequentialPrefix(cfg, run, n);
    if run[j].token in After(cfg, run[..n]) {
      var i := LiveTokensAreIssued(cfg, run[..n], run[j].token);
    }
  }

  /**
   * A complete call that reports success reports the profile and domain of the one start that issued its
   * token, which the policy allowed, and that profile is in the store.
   */
  lemma CompletedMatchesStart(cfg: Config, run: seq<Call>, j: nat) returns (i: nat)
    requires Sequential(cfg, run) && j < |run| && run[j].Complete? && Sane(run[j])
    requires CompleteReply(cfg, After(cfg, run[..j]), run[j]).Completed?
    ensures i < j && Issues(cfg, run[i], run[j].token) && cfg.aup(DomainOf(run[i]), run[i].url)
    ensures CompleteReply(cfg, After(cfg, run[..j]), run[j]) == Completed(run[i].profile, DomainOf(run[i]))
    ensures run[j].store.Readable? && run[i].profile in run[j].store.profiles
    ensures run[j].now - run[i].now < 600_000_000_000
  {
    SequentialPrefix(cfg, run, j);
    i := LiveTokensAreIssued(cfg, run[..j], run[j].token);
    assert run[..j][i] == run[i];
  }
}
