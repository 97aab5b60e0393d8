/** The debugging variant of the moderation list (app/page.tsx): a login that
    refuses to work without a configured password, and a pending-list load
    that clears the list on any failure. */
module DebugAdmin {
  import opened Basics
  import opened Store

  /** Why a load failed: the store reported an error, or the request threw. */
  datatype LoadFailure = StoreError(message: string) | Thrown(message: string)

  datatype DebugPage = DebugPage(
    password: string,
    authed: bool,
    videos: seq<Video>,
    loading: bool,
    errorText: Option<LoadFailure>)

  const InitialPage := DebugPage("", false, [], false, None)

  /** The configured password, or the empty string when none is set. */
  function ConfiguredPassword(env: Option<string>): (pw: string)
    ensures pw == "" <==> env.None? || env == Some("")
    ensures pw != "" ==> env == Some(pw)
  {
    env.GetOr("")
  }

  /** The alerts `login` raises instead of logging in. */
  datatype Alert = PasswordNotConfigured | WrongPassword

  datatype LoginResult = LoginResult(page: DebugPage, alert: Option<Alert>)

  /** `login`: with no configured password it only alerts; otherwise the
      typed password must match it exactly. */
  function Login(p: DebugPage, env: Option<string>): (r: LoginResult)
    ensures ConfiguredPassword(env) == "" ==> r.page == p && r.alert == Some(PasswordNotConfigured)
    ensures ConfiguredPassword(env) != "" && p.password == ConfiguredPassword(env) ==>
      r.page == p.(authed := true) && r.alert == None
    ensures ConfiguredPassword(env) != "" && p.password != ConfiguredPassword(env) ==>
      r.page == p && r.alert == Some(WrongPassword)
  {
    var pw := ConfiguredPassword(env);
    if pw == "" then LoginResult(p, Some(PasswordNotConfigured))
    else if p.password == pw then LoginResult(p.(authed := true), None)
    else LoginResult(p, Some(WrongPassword))
  }

  /** Typing each password of `inputs` in turn and pressing the login button. */
  function LoginAttempts(p: DebugPage, env: Option<string>, inputs: seq<string>): DebugPage
    decreases |inputs|
  {
    if |inputs| == 0 then p
    else LoginAttempts(Login(p.(password := inputs[0]), env).page, env, inputs[1..])
  }

  /** With no configured password nothing typed ever logs in. */
  lemma {:induction false} UnconfiguredNeverAuthenticates(p: DebugPage, env: Option<string>, inputs: seq<string>)
    requires ConfiguredPassword(env) == "" && !p.authed
    ensures !LoginAttempts(p, env, inputs).authed
    decreases |inputs|
  {
    if |inputs| > 0 {
      UnconfiguredNeverAuthenticates(Login(p.(password := inputs[0]), env).page, env, inputs[1..]);
    }
  }

  /** With a configured password, a series of attempts from a logged-out page
      logs in exactly when one of the typed passwords matches it. */
  lemma {:induction false} AuthenticatesIffSomeMatch(p: DebugPage, env: Option<string>, inputs: seq<string>)
    requires ConfiguredPassword(env) != "" && !p.authed
    ensures LoginAttempts(p, env, inputs).authed <==> ConfiguredPassword(env) in inputs
    decreases |inputs|
  {
    if |inputs| > 0 {
      var q := Login(p.(password := inputs[0]), env).page;
      if inputs[0] == ConfiguredPassword(env) {
        StaysAuthenticated(q, env, inputs[1..]);
      } else {
        AuthenticatesIffSomeMatch(q, env, inputs[1..]);
        assert inputs == [inputs[0]] + inputs[1..];
      }
    }
  }

  /** Nothing in `login` logs out. */
  lemma {:induction false} StaysAuthenticated(p: DebugPage, env: Option<string>, inputs: seq<string>)
    requires p.authed
    ensures LoginAttempts(p, env, inputs).authed
    decreases |inputs|
  {
    if |inputs| > 0 {
      StaysAuthenticated(Login(p.(password := inputs[0]), env).page, env, inputs[1..]);
    }
  }

  /** The start of `loadPending`: loading, and no error shown. */
  function BeginLoad(p: DebugPage): (r: DebugPage)
    ensures r.loading && r.errorText == None
    ensures r.videos == p.videos && r.authed == p.authed && r.password == p.password
  {
    p.(loading := true, errorText := None)
  }

  /** The end of `loadPending`, given the store's answer: the pending rows
      newest first, or on any failure an empty list and the error. */
  function FinishLoad(p: DebugPage, vs: seq<Video>, fault: Option<LoadFailure>): (r: DebugPage)
    ensures !r.loading && r.authed == p.authed && r.password == p.password
    ensures fault.Some? ==> r.videos == [] && r.errorText == fault
    ensures fault.None? ==> r.videos == PendingQuery(vs) && r.errorText == p.errorText
  {
    match fault
    case Some(f) => p.(errorText := Some(f), videos := [], loading := false)
    case None => p.(videos := PendingQuery(vs), loading := false)
  }

  /** `loadPending` as a whole. */
  function LoadPending(p: DebugPage, vs: seq<Video>, fault: Option<LoadFailure>): (r: DebugPage)
    ensures !r.loading && r.authed == p.authed && r.password == p.password
    ensures fault.Some? ==> r.videos == [] && r.errorText == fault
    ensures fault.None? ==> r.errorText == None && NewestFirst(r.videos)
    ensures fault.None? ==> forall v :: multiset(r.videos)[v] == if v.status == Pending then multiset(vs)[v] else 0
  {
    FinishLoad(BeginLoad(p), vs, fault)
  }

  /** The "no pending videos" message is shown: only on the logged-in page
      (a logged-out page shows the login form instead), once loading is over,
      with an empty list and no error. */
  predicate ShowsEmptyState(p: DebugPage) {
    p.authed && !p.loading && |p.videos| == 0 && p.errorText == None
  }

  /** After a load the empty-state message shows exactly when the page is
      logged in, the load succeeded and the store holds no pending listing. */
  lemma EmptyStateAfterLoad(p: DebugPage, vs: seq<Video>, fault: Option<LoadFailure>)
    ensures ShowsEmptyState(LoadPending(p, vs, fault)) <==>
      p.authed && fault.None? && forall i :: 0 <= i < |vs| ==> vs[i].status != Pending
  {
    var r := LoadPending(p, vs, fault);
    if fault.None? {
      if |r.videos| == 0 {
        forall i | 0 <= i < |vs| ensures vs[i].status != Pending {
          assert vs[i] in vs;
        }
      } else {
        assert r.videos[0] in r.videos;
      }
    }
  }
}
