/** The submission form (app/submit/page.tsx): loading the taxonomy, the
    required-field checks, the insert of a pending listing and the genre link
    rows, and which form fields are reset afterwards. */
module Intake {
  import opened Basics
  import opened Text
  import Embed
  import opened Store
  import opened Taxonomy

  /** The messages the form shows; each failing step has its own. */
  datatype Message =
    | CreatorRequired
    | TitleRequired
    | UrlRequired
    | SubmitFailed(detail: string)
    | TaggingFailed(detail: string)
    | Submitted
    | CategoriesFailed(detail: string)
    | GenresFailed(detail: string)

  /** The form's state. */
  datatype Page = Page(
    creatorName: string,
    email: string,
    title: string,
    videoUrl: string,
    memo: string,
    categories: seq<Category>,
    genres: seq<Genre>,
    activeCat: Option<int>,
    selected: seq<int>,
    msg: Option<Message>)

  /** The state before anything is loaded; the creator name field starts
      pre-filled. */
  const InitialPage := Page("@test_creator2", "", "", "", "", [], [], None, [], None)

  /** The fields the form itself edits are the same in both pages. */
  predicate SameInputs(p: Page, q: Page) {
    && p.creatorName == q.creatorName && p.email == q.email && p.title == q.title
    && p.videoUrl == q.videoUrl && p.memo == q.memo && p.selected == q.selected
  }

  /** The initial load: categories first (an error stops there), then the
      active genres. `cats` and `gens` are the store's answers, already
      ordered by sort order and, for genres, restricted to active ones. */
  function LoadTaxonomy(p: Page, cats: Result<seq<Category>, string>, gens: Result<seq<Genre>, string>): (r: Page)
    ensures SameInputs(r, p)
    ensures cats.Failure? ==> r == p.(msg := Some(CategoriesFailed(cats.error)))
    ensures cats.Success? ==> r.categories == cats.value && r.activeCat == InitialActiveCategory(cats.value)
    ensures cats.Success? && gens.Failure? ==> r.genres == p.genres && r.msg == Some(GenresFailed(gens.error))
    ensures cats.Success? && gens.Success? ==> r.genres == gens.value && r.msg == None
  {
    var p0 := p.(msg := None);
    match cats
    case Failure(e) => p0.(msg := Some(CategoriesFailed(e)))
    case Success(cs) =>
      var p1 := p0.(categories := cs, activeCat := InitialActiveCategory(cs));
      match gens
      case Failure(e) => p1.(msg := Some(GenresFailed(e)))
      case Success(gs) => p1.(genres := gs)
  }

  /** The trimmed required fields of a form that passed the checks. */
  datatype Checked = Checked(creatorName: string, title: string, videoUrl: string)

  /** The required-field checks, in their fixed order: creator name, title,
      URL, each after trimming. */
  function Validate(p: Page): (r: Result<Checked, Message>)
    ensures r == Failure(CreatorRequired) <==> Trim(p.creatorName) == ""
    ensures r == Failure(TitleRequired) <==> Trim(p.creatorName) != "" && Trim(p.title) == ""
    ensures r == Failure(UrlRequired) <==> Trim(p.creatorName) != "" && Trim(p.title) != "" && Trim(p.videoUrl) == ""
    ensures r.Success? <==> Trim(p.creatorName) != "" && Trim(p.title) != "" && Trim(p.videoUrl) != ""
    ensures r.Success? ==> r.value == Checked(Trim(p.creatorName), Trim(p.title), Trim(p.videoUrl))
  {
    var cn := Trim(p.creatorName);
    var tt := Trim(p.title);
    var vu := Trim(p.videoUrl);
    if cn == "" then Failure(CreatorRequired)
    else if tt == "" then Failure(TitleRequired)
    else if vu == "" then Failure(UrlRequired)
    else Success(Checked(cn, tt, vu))
  }

  /** An optional field: its trimmed text, or null when nothing is left. */
  function TrimmedOrNull(s: string): (r: Option<string>)
    ensures r.None? <==> AllTrimmable(s)
    ensures r.Some? ==> r.value == Trim(s) && r.value != ""
  {
    var t := Trim(s);
    if t == "" then None else Some(t)
  }

  /** The insert payload: status is always pending, whatever else the form
      holds; both the trimmed URL and its normalised form are stored. */
  function Payload(c: Checked, email: string, memo: string): (n: NewVideo)
    ensures n.status == Pending
    ensures n.creatorName == c.creatorName && n.title == c.title
    ensures n.videoUrl == c.videoUrl && n.embedUrl == Embed.ToYoutubeEmbed(c.videoUrl)
    ensures n.email == TrimmedOrNull(email) && n.memo == TrimmedOrNull(memo)
  {
    NewVideo(c.creatorName, TrimmedOrNull(email), c.title, c.videoUrl, Embed.ToYoutubeEmbed(c.videoUrl), TrimmedOrNull(memo), Pending)
  }

  /** One `(video_id, genre_id)` row per selected genre. */
  function LinkRows(videoId: string, sel: seq<int>): (rows: seq<Link>)
    ensures |rows| == |sel|
    ensures forall l :: l in rows <==> l.videoId == videoId && l.genreId in sel
    ensures NoDup(sel) ==> NoDup(rows)
  {
    if |sel| == 0 then []
    else [Link(videoId, sel[0])] + LinkRows(videoId, sel[1..])
  }

  /** The link rows are written only for a (truthy) new id and a non-empty
      selection. */
  predicate LinksAttempted(videoId: string, sel: seq<int>) {
    videoId != "" && |sel| > 0
  }

  datatype Submission = Submission(page: Page, db: Db)

  /** `handleSubmit`. The store's answers are parameters: `newId` and `now`
      are the id and timestamp it assigns, `insertFault` and `linkFault`
      its error messages when a write is refused. */
  function Submit(p: Page, db: Db, newId: string, now: int, insertFault: Option<string>, linkFault: Option<string>): (r: Submission)
    // a missing required field: its own message, no write at all
    ensures Validate(p).Failure? ==> r.db == db && r.page == p.(msg := Some(Validate(p).error))
    // the listing insert is refused: nothing written, nothing reset
    ensures Validate(p).Success? && insertFault.Some? ==>
      r.db == db && r.page == p.(msg := Some(SubmitFailed(insertFault.value)))
    // the listing insert succeeds: exactly one new row, pending, with both URLs
    ensures Validate(p).Success? && insertFault.None? ==>
      && |r.db.videos| == |db.videos| + 1
      && r.db.videos[..|db.videos|] == db.videos
      && var v := r.db.videos[|db.videos|];
      && v.id == newId && v.createdAt == now && v.status == Pending && v.rejectionReason == None
      && v.creatorName == Trim(p.creatorName) && v.title == Trim(p.title)
      && v.videoUrl == Trim(p.videoUrl) && v.embedUrl == Some(Embed.ToYoutubeEmbed(Trim(p.videoUrl)))
      && v.email == TrimmedOrNull(p.email) && v.memo == TrimmedOrNull(p.memo) && v.genre == None && v.creatorEmail == None
    // no link write without a new id or without a selection
    ensures !(Validate(p).Success? && insertFault.None? && LinksAttempted(newId, p.selected)) ==> r.db.links == db.links
    // the link write is refused: the listing stays, a distinct message, nothing reset
    ensures Validate(p).Success? && insertFault.None? && LinksAttempted(newId, p.selected) && linkFault.Some? ==>
      r.db.links == db.links && r.page == p.(msg := Some(TaggingFailed(linkFault.value)))
    // full success: one link row per selected genre, and the form is reset
    ensures Validate(p).Success? && insertFault.None? && LinksAttempted(newId, p.selected) && linkFault.None? ==>
      r.db.links == db.links + LinkRows(newId, p.selected)
    ensures r.page.msg == Some(Submitted) ==>
      && r.page == p.(title := "", videoUrl := "", memo := "", selected := [], msg := Some(Submitted))
      && Validate(p).Success? && insertFault.None?
    ensures Validate(p).Success? && insertFault.None? && (!LinksAttempted(newId, p.selected) || linkFault.None?) ==>
      r.page.msg == Some(Submitted)
  {
    match Validate(p)
    case Failure(m) => Submission(p.(msg := Some(m)), db)
    case Success(c) =>
      if insertFault.Some? then Submission(p.(msg := Some(SubmitFailed(insertFault.value))), db)
      else
        var db1 := db.(videos := db.videos + [RowOf(Payload(c, p.email, p.memo), newId, now)]);
        if LinksAttempted(newId, p.selected) && linkFault.Some? then
          Submission(p.(msg := Some(TaggingFailed(linkFault.value))), db1)
        else
          var db2 := if LinksAttempted(newId, p.selected) then db1.(links := db1.links + LinkRows(newId, p.selected)) else db1;
          Submission(p.(title := "", videoUrl := "", memo := "", selected := [], msg := Some(Submitted)), db2)
  }

  /** A fully successful submission leaves the creator name and email in
      place, so a second submission by the same creator only needs a new
      title and URL; it then fails on the title. */
  lemma ResubmitNeedsTitle(p: Page, db: Db, newId: string, now: int, linkFault: Option<string>)
    requires Validate(p).Success? && (!LinksAttempted(newId, p.selected) || linkFault.None?)
    ensures var q := Submit(p, db, newId, now, None, linkFault).page;
      q.creatorName == p.creatorName && q.email == p.email && Validate(q) == Failure(TitleRequired)
  {
    var q := Submit(p, db, newId, now, None, linkFault).page;
    assert Trim(q.title) == "";
  }

  /** A submitted listing is queued for moderation: it is in the pending list
      even when the link write failed. */
  lemma SubmittedIsQueued(p: Page, db: Db, newId: string, now: int, linkFault: Option<string>)
    requires Validate(p).Success?
    ensures var vs := Submit(p, db, newId, now, None, linkFault).db.videos;
      exists v :: v in PendingQuery(vs) && v.id == newId
  {
    var vs := Submit(p, db, newId, now, None, linkFault).db.videos;
    var v := vs[|db.videos|];
    assert v in vs;
  }
}
