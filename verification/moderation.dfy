/** The moderation page (app/admin/page.tsx): a shared-secret login kept in
    local storage, the pending list, and the approve / reject actions, each
    followed by a reload of the list. */
module Moderation {
  import opened Basics
  import opened Store

  /** The local-storage key that remembers a login. */
  const AuthKey := "echi_admin_authed"

  /** The password used when none is configured. */
  const DefaultPassword := "echi-tok-admin"

  /** The browser's local storage. */
  type Storage = map<string, string>

  /** The configured admin password; an unset or empty configuration falls
      back to the default. */
  function AdminPassword(env: Option<string>): (pw: string)
    ensures pw != ""
    ensures env.Some? && env.value != "" ==> pw == env.value
    ensures env.None? || env.value == "" ==> pw == DefaultPassword
  {
    if env.Some? && env.value != "" then env.value else DefaultPassword
  }

  datatype AuthError = WrongPassword

  datatype AdminPage = AdminPage(
    authorized: bool,
    authError: Option<AuthError>,
    videos: seq<Video>,
    loading: bool,
    errorMessage: Option<string>)

  /** Whether a page opened with this storage starts logged in: only when the
      stored flag is exactly "1". */
  predicate StoredLogin(storage: Storage) {
    AuthKey in storage && storage[AuthKey] == "1"
  }

  /** The page once its mount effect has read local storage. */
  function Mount(storage: Storage): (p: AdminPage)
    ensures p.authorized <==> StoredLogin(storage)
    ensures p.videos == [] && p.loading && p.errorMessage == None && p.authError == None
  {
    AdminPage(StoredLogin(storage), None, [], true, None)
  }

  /** The page together with the browser storage it writes. */
  datatype Session = Session(page: AdminPage, storage: Storage)

  /** `handleLogin`: the typed password must equal the admin password exactly. */
  function HandleLogin(s: Session, input: string, env: Option<string>): (r: Session)
    ensures r.page.authorized <==> s.page.authorized || input == AdminPassword(env)
    ensures input == AdminPassword(env) ==>
      r.page == s.page.(authorized := true, authError := None) && r.storage == s.storage[AuthKey := "1"]
    ensures input != AdminPassword(env) ==>
      r.page == s.page.(authError := Some(WrongPassword)) && r.storage == s.storage
  {
    if input == AdminPassword(env) then
      Session(s.page.(authorized := true, authError := None), s.storage[AuthKey := "1"])
    else
      Session(s.page.(authError := Some(WrongPassword)), s.storage)
  }

  /** `handleLogout`: logged out, and the stored flag removed. */
  function HandleLogout(s: Session): (r: Session)
    ensures !r.page.authorized
    ensures r.page == s.page.(authorized := false)
    ensures AuthKey !in r.storage
    ensures forall k :: k != AuthKey ==> (k in r.storage <==> k in s.storage)
    ensures forall k :: k in r.storage ==> r.storage[k] == s.storage[k]
  {
    Session(s.page.(authorized := false), s.storage - {AuthKey})
  }

  /** A successful login is remembered: reopening the page starts logged in. */
  lemma LoginSurvivesReload(s: Session, env: Option<string>)
    ensures Mount(HandleLogin(s, AdminPassword(env), env).storage).authorized
  {
  }

  /** A logout is remembered: reopening the page starts logged out. */
  lemma LogoutSurvivesReload(s: Session)
    ensures !Mount(HandleLogout(s).storage).authorized
  {
  }

  /** A wrong password never logs in from a logged-out page. */
  lemma WrongPasswordStaysOut(s: Session, input: string, env: Option<string>)
    requires !s.page.authorized && input != AdminPassword(env)
    ensures !HandleLogin(s, input, env).page.authorized
    ensures HandleLogin(s, input, env).page.authError == Some(WrongPassword)
  {
  }

  /** `loadVideos`. `vs` is the store's `videos` table and `fault` its error
      message when the query fails. On failure the previous list stays and the
      message is shown; on success the list is replaced and an earlier message
      is left as it was. Loading ends either way. */
  function LoadVideos(p: AdminPage, vs: seq<Video>, fault: Option<string>): (r: AdminPage)
    ensures !r.loading
    ensures r.authorized == p.authorized && r.authError == p.authError
    ensures fault.Some? ==> r.videos == p.videos && r.errorMessage == fault
    ensures fault.None? ==> r.errorMessage == p.errorMessage
    ensures fault.None? ==> NewestFirst(r.videos)
    ensures fault.None? ==> forall v :: multiset(r.videos)[v] == if v.status == Pending then multiset(vs)[v] else 0
  {
    match fault
    case Some(m) => p.(errorMessage := Some(m), loading := false)
    case None => p.(videos := PendingQuery(vs), loading := false)
  }

  /** The effect run whenever `authorized` changes: a logged-in page shows
      its loading state and loads the list. */
  function OnAuthorizedChange(p: AdminPage, vs: seq<Video>, fault: Option<string>): (r: AdminPage)
    ensures !p.authorized ==> r == p
    ensures p.authorized ==> !r.loading && r.authorized && r.authError == p.authError
    ensures p.authorized && fault.Some? ==> r.videos == p.videos && r.errorMessage == fault
    ensures p.authorized && fault.None? ==> r.errorMessage == p.errorMessage && NewestFirst(r.videos)
    ensures p.authorized && fault.None? ==>
      forall v :: multiset(r.videos)[v] == if v.status == Pending then multiset(vs)[v] else 0
  {
    if !p.authorized then p else LoadVideos(p.(loading := true), vs, fault)
  }

  datatype Moderated = Moderated(page: AdminPage, videos: seq<Video>)

  /** Approving the listing `id`: the update's own error is not looked at;
      the list is reloaded afterwards. `writeFault` is the store's answer to
      the update, `loadFault` its answer to the reload. */
  function ApproveVideo(p: AdminPage, vs: seq<Video>, id: string, writeFault: Option<string>, loadFault: Option<string>): (r: Moderated)
    ensures writeFault.None? ==> r.videos == UpdateById(vs, id, ApprovePatch)
    ensures writeFault.Some? ==> r.videos == vs
    ensures r.page.errorMessage == if loadFault.Some? then loadFault else p.errorMessage
    ensures writeFault.None? && loadFault.None? ==> forall v :: v in r.page.videos ==> v.id != id
    ensures !r.page.loading
    ensures r.page.authorized == p.authorized && r.page.authError == p.authError
    ensures loadFault.Some? ==> r.page.videos == p.videos
    ensures loadFault.None? ==> NewestFirst(r.page.videos)
    ensures loadFault.None? ==>
      forall v :: multiset(r.page.videos)[v] == if v.status == Pending then multiset(r.videos)[v] else 0
  {
    var vs' := if writeFault.None? then UpdateById(vs, id, ApprovePatch) else vs;
    ProcessedLeavesQueue(vs, id, ApprovePatch);
    Moderated(LoadVideos(p, vs', loadFault), vs')
  }

  /** The reason a rejection records: what was typed at the prompt, or ""
      when the prompt was cancelled. */
  function PromptedReason(input: Option<string>): (reason: string)
    ensures input.Some? ==> reason == input.value
    ensures input.None? ==> reason == ""
  {
    input.GetOr("")
  }

  /** `rejectVideo`: like approval, with the prompted reason stored verbatim,
      except that the exact empty string is stored as null. */
  function RejectVideo(p: AdminPage, vs: seq<Video>, id: string, prompt: Option<string>, writeFault: Option<string>, loadFault: Option<string>): (r: Moderated)
    ensures writeFault.None? ==> r.videos == UpdateById(vs, id, RejectPatch(PromptedReason(prompt)))
    ensures writeFault.Some? ==> r.videos == vs
    ensures r.page.errorMessage == if loadFault.Some? then loadFault else p.errorMessage
    ensures writeFault.None? && loadFault.None? ==> forall v :: v in r.page.videos ==> v.id != id
    ensures !r.page.loading
    ensures r.page.authorized == p.authorized && r.page.authError == p.authError
    ensures loadFault.Some? ==> r.page.videos == p.videos
    ensures loadFault.None? ==> NewestFirst(r.page.videos)
    ensures loadFault.None? ==>
      forall v :: multiset(r.page.videos)[v] == if v.status == Pending then multiset(r.videos)[v] else 0
  {
    var patch := RejectPatch(PromptedReason(prompt));
    var vs' := if writeFault.None? then UpdateById(vs, id, patch) else vs;
    ProcessedLeavesQueue(vs, id, patch);
    Moderated(LoadVideos(p, vs', loadFault), vs')
  }

  /** What a successful rejection records on each row with that id: status
      rejected, and the typed reason, or null when the prompt was cancelled
      or left empty. */
  lemma RejectRecordsReason(p: AdminPage, vs: seq<Video>, id: string, prompt: Option<string>, loadFault: Option<string>, i: nat)
    requires i < |vs| && vs[i].id == id
    ensures var r := RejectVideo(p, vs, id, prompt, None, loadFault).videos;
      && r[i].status == Rejected
      && r[i].rejectionReason == (if prompt == None || prompt == Some("") then None else prompt)
      && r[i].title == vs[i].title && r[i].createdAt == vs[i].createdAt
    ensures var r := RejectVideo(p, vs, id, prompt, None, loadFault).videos;
      r[i] == vs[i].(status := Rejected, rejectionReason := if prompt == None || prompt == Some("") then None else prompt)
  {
  }

  /** Reversing a decision: a rejected listing can be approved, which clears
      its reason, and an approved one can be rejected again. */
  lemma DecisionsReversible(vs: seq<Video>, id: string, reason: string, i: nat)
    requires i < |vs| && vs[i].id == id
    ensures var back := UpdateById(UpdateById(vs, id, RejectPatch(reason)), id, ApprovePatch);
      back[i].status == Approved && back[i].rejectionReason == None
    ensures var again := UpdateById(UpdateById(vs, id, ApprovePatch), id, RejectPatch(reason));
      again[i].status == Rejected && (reason != "" ==> again[i].rejectionReason == Some(reason))
  {
  }
}
