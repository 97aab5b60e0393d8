/** The `videos` and `video_genres` tables as an in-memory store, with the
    three requests the pages make of it: insert a listing, update the
    listings with a given id, and the pending query
    `select * where status = 'pending' order by created_at desc`. */
module Store {
  import opened Basics

  datatype Status = Pending | Approved | Rejected

  /** One row of `videos`. The submission form writes `email`; the admin page
      reads `creator_email`; both columns are kept, unreconciled. */
  datatype Video = Video(
    id: string,
    createdAt: int,
    creatorName: string,
    email: Option<string>,
    creatorEmail: Option<string>,
    title: string,
    genre: Option<string>,
    videoUrl: string,
    embedUrl: Option<string>,
    memo: Option<string>,
    status: Status,
    rejectionReason: Option<string>)

  /** One row of `video_genres`. */
  datatype Link = Link(videoId: string, genreId: int)

  datatype Db = Db(videos: seq<Video>, links: seq<Link>)

  /** The columns an insert into `videos` supplies. */
  datatype NewVideo = NewVideo(
    creatorName: string,
    email: Option<string>,
    title: string,
    videoUrl: string,
    embedUrl: string,
    memo: Option<string>,
    status: Status)

  /** The stored row for an insert: the store assigns `id` and `created_at`;
      columns the insert does not name are null. */
  function RowOf(n: NewVideo, id: string, now: int): (v: Video)
    ensures v.id == id && v.createdAt == now && v.status == n.status
    ensures v.creatorName == n.creatorName && v.title == n.title && v.videoUrl == n.videoUrl
    ensures v.email == n.email && v.memo == n.memo && v.embedUrl == Some(n.embedUrl)
    ensures v.genre == None && v.creatorEmail == None && v.rejectionReason == None
  {
    Video(id, now, n.creatorName, n.email, None, n.title, None, n.videoUrl, Some(n.embedUrl), n.memo, n.status, None)
  }

  /** A rejection reason is only present on a rejected listing. */
  predicate ReasonConsistent(v: Video) {
    v.status != Rejected ==> v.rejectionReason == None
  }

  predicate AllReasonsConsistent(vs: seq<Video>) {
    forall i :: 0 <= i < |vs| ==> ReasonConsistent(vs[i])
  }

  // ----- updates -----

  /** The columns an `update` sets. */
  datatype Patch = Patch(status: Status, rejectionReason: Option<string>)

  function ApplyPatch(v: Video, p: Patch): Video {
    v.(status := p.status, rejectionReason := p.rejectionReason)
  }

  /** An update of the rows with a given id: every row with that id is
      patched, every other row is left exactly as it was, and no row is added
      or removed. */
  function UpdateById(vs: seq<Video>, id: string, p: Patch): (r: seq<Video>)
    ensures |r| == |vs|
    ensures forall i :: 0 <= i < |vs| && vs[i].id != id ==> r[i] == vs[i]
    ensures forall i :: 0 <= i < |vs| && vs[i].id == id ==>
      r[i].status == p.status && r[i].rejectionReason == p.rejectionReason
      && r[i] == vs[i].(status := p.status, rejectionReason := p.rejectionReason)
  {
    if |vs| == 0 then []
    else [if vs[0].id == id then ApplyPatch(vs[0], p) else vs[0]] + UpdateById(vs[1..], id, p)
  }

  /** The columns an approval sets: status approved, and the reason cleared to null. */
  const ApprovePatch := Patch(Approved, None)

  /** The columns a rejection sets: status rejected, and the reason, where
      only the exact empty string becomes null; the reason is not trimmed. */
  function RejectPatch(reason: string): (p: Patch)
    ensures p.status == Rejected
    ensures p.rejectionReason == None <==> reason == ""
    ensures p.rejectionReason.Some? ==> p.rejectionReason.value == reason
  {
    Patch(Rejected, if reason == "" then None else Some(reason))
  }

  /** Approving a row twice gives the same row as approving it once. */
  lemma ApproveIdempotent(vs: seq<Video>, id: string)
    ensures UpdateById(UpdateById(vs, id, ApprovePatch), id, ApprovePatch) == UpdateById(vs, id, ApprovePatch)
  {
    var once := UpdateById(vs, id, ApprovePatch);
    var twice := UpdateById(once, id, ApprovePatch);
    forall i | 0 <= i < |vs| ensures twice[i] == once[i] {
    }
  }

  /** Approve and reject keep the rejection-reason invariant of every row. */
  lemma ModerationKeepsReasons(vs: seq<Video>, id: string, reason: string)
    requires AllReasonsConsistent(vs)
    ensures AllReasonsConsistent(UpdateById(vs, id, ApprovePatch))
    ensures AllReasonsConsistent(UpdateById(vs, id, RejectPatch(reason)))
  {
  }

  // ----- the pending query -----

  /** The rows with status pending, in store order. */
  function PendingOf(vs: seq<Video>): (r: seq<Video>)
    ensures forall v :: multiset(r)[v] == if v.status == Pending then multiset(vs)[v] else 0
  {
    if |vs| == 0 then []
    else
      assert vs == [vs[0]] + vs[1..];
      (if vs[0].status == Pending then [vs[0]] else []) + PendingOf(vs[1..])
  }

  /** Newest first: `created_at` never increases along the sequence. */
  predicate NewestFirst(vs: seq<Video>) {
    forall i, j :: 0 <= i < j < |vs| ==> vs[i].createdAt >= vs[j].createdAt
  }

  function InsertNewestFirst(v: Video, vs: seq<Video>): (r: seq<Video>)
    requires NewestFirst(vs)
    ensures NewestFirst(r)
    ensures multiset(r) == multiset(vs) + multiset{v}
    ensures |r| == |vs| + 1
    ensures |vs| > 0 ==> r[0] == v || r[0] == vs[0]
  {
    if |vs| == 0 || v.createdAt >= vs[0].createdAt then [v] + vs
    else
      assert vs == [vs[0]] + vs[1..];
      [vs[0]] + InsertNewestFirst(v, vs[1..])
  }

  /** Ordering by creation time, newest first. The store leaves the order of
      equal timestamps open; this insertion sort keeps them in store order. */
  function SortNewestFirst(vs: seq<Video>): (r: seq<Video>)
    ensures NewestFirst(r)
    ensures multiset(r) == multiset(vs)
  {
    if |vs| == 0 then []
    else
      assert vs == [vs[0]] + vs[1..];
      InsertNewestFirst(vs[0], SortNewestFirst(vs[1..]))
  }

  /** The pending query: exactly the pending rows (with their multiplicity),
      newest first. */
  function PendingQuery(vs: seq<Video>): (r: seq<Video>)
    ensures NewestFirst(r)
    ensures forall v :: multiset(r)[v] == if v.status == Pending then multiset(vs)[v] else 0
    ensures forall v :: v in r <==> v in vs && v.status == Pending
  {
    SortNewestFirst(PendingOf(vs))
  }

  /** After a listing is approved or rejected, a reload of the pending query
      no longer shows any row with that id. */
  lemma ProcessedLeavesQueue(vs: seq<Video>, id: string, p: Patch)
    requires p.status != Pending
    ensures forall v :: v in PendingQuery(UpdateById(vs, id, p)) ==> v.id != id
  {
    var us := UpdateById(vs, id, p);
    forall v | v in PendingQuery(us) ensures v.id != id {
      var i :| 0 <= i < |us| && us[i] == v;
    }
  }

  /** Rows with other ids keep their place in the queue: a pending row with a
      different id is still listed after the update. */
  lemma OthersStayQueued(vs: seq<Video>, id: string, p: Patch, v: Video)
    requires v in vs && v.status == Pending && v.id != id
    ensures v in PendingQuery(UpdateById(vs, id, p))
  {
    var i :| 0 <= i < |vs| && vs[i] == v;
    assert UpdateById(vs, id, p)[i] == v;
  }
}
