/** The YouTube link normaliser of the submission form (`toYoutubeEmbed`).

    Each of its two regular expressions is read as: the leftmost index where
    the literal part occurs and is followed by at least six characters of
    `[A-Za-z0-9_-]`; the captured identifier is the greedy (maximal) run of
    those characters. */
module Embed {
  import opened Basics

  /** The character class `[a-zA-Z0-9_-]`. */
  predicate IsIdChar(c: char) {
    ('a' <= c <= 'z') || ('A' <= c <= 'Z') || ('0' <= c <= '9') || c == '_' || c == '-'
  }

  /** The `{6,}` lower bound of both patterns. */
  const MinIdLength: nat := 6

  /** Length of the greedy run of identifier characters starting at `k`. */
  function RunLength(u: string, k: nat): (n: nat)
    requires k <= |u|
    ensures k + n <= |u|
    ensures forall i :: k <= i < k + n ==> IsIdChar(u[i])
    ensures k + n == |u| || !IsIdChar(u[k + n])
    decreases |u| - k
  {
    if k < |u| && IsIdChar(u[k]) then 1 + RunLength(u, k + 1) else 0
  }

  /** The two patterns, in the order they are tried. */
  datatype Pattern =
    | ShortLink   // the literal `youtu.be/`, then the identifier
    | WatchParam  // `?` or `&`, then `v=`, then the identifier

  const ShortLinkLiteral := "youtu.be/"

  function LiteralLength(p: Pattern): nat {
    match p
    case ShortLink => |ShortLinkLiteral|
    case WatchParam => 3
  }

  /** The literal part of `p` occurs in `u` at index `i`. */
  predicate LiteralAt(p: Pattern, u: string, i: nat) {
    match p
    case ShortLink => i + |ShortLinkLiteral| <= |u| && u[i..i + |ShortLinkLiteral|] == ShortLinkLiteral
    case WatchParam => i + 3 <= |u| && (u[i] == '?' || u[i] == '&') && u[i + 1] == 'v' && u[i + 2] == '='
  }

  /** The whole pattern `p` matches `u` starting at index `i`. */
  predicate MatchAt(p: Pattern, u: string, i: nat) {
    LiteralAt(p, u, i) && RunLength(u, i + LiteralLength(p)) >= MinIdLength
  }

  /** `p` matches somewhere in `u`. */
  ghost predicate Matches(p: Pattern, u: string) {
    exists i: nat :: i <= |u| && MatchAt(p, u, i)
  }

  /** `i` is where the regex engine reports the match: the leftmost one. */
  ghost predicate LeftmostMatch(p: Pattern, u: string, i: nat) {
    MatchAt(p, u, i) && forall j: nat :: j < i ==> !MatchAt(p, u, j)
  }

  /** The identifier captured by a match of `p` at `i`. */
  function CaptureAt(p: Pattern, u: string, i: nat): string
    requires LiteralAt(p, u, i)
  {
    var k := i + LiteralLength(p);
    u[k..k + RunLength(u, k)]
  }

  /** The regex search: the first index at or after `k` where `p` matches. */
  function FirstMatch(p: Pattern, u: string, k: nat): (r: Option<nat>)
    requires k <= |u|
    ensures r.Some? ==> k <= r.value <= |u| && MatchAt(p, u, r.value)
    ensures r.Some? ==> forall j: nat :: k <= j < r.value ==> !MatchAt(p, u, j)
    ensures r.None? ==> forall j: nat :: k <= j <= |u| ==> !MatchAt(p, u, j)
    decreases |u| - k
  {
    if MatchAt(p, u, k) then Some(k)
    else if k == |u| then None
    else FirstMatch(p, u, k + 1)
  }

  /** The identifier captured by the leftmost match of `p` in `u`, if any. */
  function Capture(p: Pattern, u: string): (r: Option<string>)
    ensures r.Some? <==> Matches(p, u)
    ensures forall i: nat :: LeftmostMatch(p, u, i) ==> r == Some(CaptureAt(p, u, i))
    ensures r.Some? ==> |r.value| >= MinIdLength && forall c :: c in r.value ==> IsIdChar(c)
  {
    match FirstMatch(p, u, 0)
    case None => None
    case Some(i) =>
      assert forall j: nat :: LeftmostMatch(p, u, j) ==> j == i;
      Some(CaptureAt(p, u, i))
  }

  const EmbedPrefix := "https://www.youtube.com/embed/"
  const EmbedSuffix := "?autoplay=0&mute=0"

  /** The canonical embeddable form built around an identifier. */
  function EmbedUrl(id: string): string {
    EmbedPrefix + id + EmbedSuffix
  }

  /** `r` has the canonical embeddable form around a valid identifier. */
  predicate IsCanonical(r: string) {
    && |EmbedPrefix| + MinIdLength + |EmbedSuffix| <= |r|
    && r[..|EmbedPrefix|] == EmbedPrefix
    && r[|r| - |EmbedSuffix|..] == EmbedSuffix
    && forall i :: |EmbedPrefix| <= i < |r| - |EmbedSuffix| ==> IsIdChar(r[i])
  }

  /** The link normaliser: the short link is tried first, then the `v=`
      parameter; with neither (and for the empty string) `u` is returned as is.
      The last test of `toYoutubeEmbed`, whether `u` already looks like an embed URL,
      returns `u` on both of its branches, so it is not a separate case here. */
  function ToYoutubeEmbed(u: string): (r: string)
    ensures r == u || IsCanonical(r)
  {
    if u == "" then u
    else match Capture(ShortLink, u)
      case Some(id) => CanonicalEmbedUrl(id); EmbedUrl(id)
      case None =>
        match Capture(WatchParam, u)
        case Some(id) => CanonicalEmbedUrl(id); EmbedUrl(id)
        case None => u
  }

  lemma CanonicalEmbedUrl(id: string)
    requires |id| >= MinIdLength && forall c :: c in id ==> IsIdChar(c)
    ensures IsCanonical(EmbedUrl(id))
  {
    var r := EmbedUrl(id);
    assert r[..|EmbedPrefix|] == EmbedPrefix;
    assert r[|r| - |EmbedSuffix|..] == EmbedSuffix;
    forall i | |EmbedPrefix| <= i < |r| - |EmbedSuffix| ensures IsIdChar(r[i]) {
      assert r[i] == id[i - |EmbedPrefix|];
      assert id[i - |EmbedPrefix|] in id;
    }
  }

  /** Facts about individual characters of a canonical URL. */
  lemma CanonicalChars(r: string, i: nat)
    requires IsCanonical(r) && i < |r|
    ensures i < |EmbedPrefix| ==> r[i] == EmbedPrefix[i]
    ensures |EmbedPrefix| <= i < |r| - |EmbedSuffix| ==> IsIdChar(r[i])
    ensures |r| - |EmbedSuffix| <= i ==> r[i] == EmbedSuffix[i - (|r| - |EmbedSuffix|)]
  {
    if i < |EmbedPrefix| {
      assert r[i] == r[..|EmbedPrefix|][i];
    } else if |r| - |EmbedSuffix| <= i {
      assert r[i] == r[|r| - |EmbedSuffix|..][i - (|r| - |EmbedSuffix|)];
    }
  }

  /** Neither pattern matches a canonical URL. */
  lemma CanonicalHasNoMatch(r: string)
    requires IsCanonical(r)
    ensures !Matches(ShortLink, r) && !Matches(WatchParam, r)
  {
    forall i: nat | i <= |r| ensures !LiteralAt(ShortLink, r, i) {
      NoShortLinkLiteralAt(r, i);
    }
    forall i: nat | i <= |r| ensures !LiteralAt(WatchParam, r, i) {
      NoWatchParamLiteralAt(r, i);
    }
  }

  lemma NoShortLinkLiteralAt(r: string, i: nat)
    requires IsCanonical(r)
    ensures !LiteralAt(ShortLink, r, i)
  {
    if i + 9 <= |r| {
      var a, b := i + 5, i + 8;
      CanonicalChars(r, a);
      CanonicalChars(r, b);
      assert r[i..i + 9][5] == r[a] && r[i..i + 9][8] == r[b];
      assert ShortLinkLiteral[5] == '.' && ShortLinkLiteral[8] == '/';
      assert !(r[a] == '.' && r[b] == '/');
    }
  }

  lemma NoWatchParamLiteralAt(r: string, i: nat)
    requires IsCanonical(r)
    ensures !LiteralAt(WatchParam, r, i)
  {
    if i + 3 <= |r| {
      CanonicalChars(r, i);
      CanonicalChars(r, i + 1);
      assert !((r[i] == '?' || r[i] == '&') && r[i + 1] == 'v');
    }
  }

  /** The input comes back unchanged exactly when it is empty or neither
      pattern matches it. */
  lemma UnchangedIff(u: string)
    ensures ToYoutubeEmbed(u) == u <==> u == "" || (!Matches(ShortLink, u) && !Matches(WatchParam, u))
  {
    var r := ToYoutubeEmbed(u);
    if r != u {
      CanonicalHasNoMatch(r);
    } else if u != "" && (Matches(ShortLink, u) || Matches(WatchParam, u)) {
      var id := if Matches(ShortLink, u) then Capture(ShortLink, u).value else Capture(WatchParam, u).value;
      assert r == EmbedUrl(id);
      CanonicalEmbedUrl(id);
      CanonicalHasNoMatch(r);
      assert false;
    }
  }

  /** A short link wins: the identifier of its leftmost match is used. */
  lemma ShortLinkFirst(u: string, i: nat)
    requires LeftmostMatch(ShortLink, u, i)
    ensures ToYoutubeEmbed(u) == EmbedUrl(CaptureAt(ShortLink, u, i))
  {
  }

  /** Only without a short link is the `v=` parameter used. */
  lemma WatchParamSecond(u: string, i: nat)
    requires !Matches(ShortLink, u) && LeftmostMatch(WatchParam, u, i)
    ensures ToYoutubeEmbed(u) == EmbedUrl(CaptureAt(WatchParam, u, i))
  {
  }

  /** Normalising twice is normalising once. */
  lemma Idempotent(u: string)
    ensures ToYoutubeEmbed(ToYoutubeEmbed(u)) == ToYoutubeEmbed(u)
  {
    var r := ToYoutubeEmbed(u);
    if r != u {
      CanonicalHasNoMatch(r);
      UnchangedIff(r);
    }
  }

  // ----- URLs of the usual shapes -----

  predicate IsId(id: string) {
    |id| >= MinIdLength && forall k :: 0 <= k < |id| ==> IsIdChar(id[k])
  }

  /** A run of identifier characters that reaches the end of `u` is all of
      the rest of `u`. */
  lemma {:induction false} RunToEnd(u: string, k: nat)
    requires k <= |u|
    requires forall i :: k <= i < |u| ==> IsIdChar(u[i])
    ensures RunLength(u, k) == |u| - k
    decreases |u| - k
  {
    if k < |u| {
      RunToEnd(u, k + 1);
    }
  }

  /** The identifier at the end of `u`, from index `k` on, is captured whole. */
  lemma IdAtEnd(u: string, k: nat, id: string)
    requires k <= |u| && u[k..] == id && IsId(id)
    ensures RunLength(u, k) == |id| >= MinIdLength
  {
    forall i | k <= i < |u| ensures IsIdChar(u[i]) {
      assert u[i] == u[k..][i - k];
    }
    RunToEnd(u, k);
  }

  /** `<pre>youtu.be/<id>` with no `y` in `pre` becomes the embed URL of `id`. */
  lemma ShortLinkUrl(pre: string, id: string)
    requires 'y' !in pre && IsId(id)
    ensures ToYoutubeEmbed(pre + ShortLinkLiteral + id) == EmbedUrl(id)
  {
    var u := pre + ShortLinkLiteral + id;
    var k := |pre| + |ShortLinkLiteral|;
    assert u[k..] == id;
    IdAtEnd(u, k, id);
    assert LeftmostMatch(ShortLink, u, |pre|) by {
      assert u[|pre|..k] == ShortLinkLiteral;
      forall j: nat | j < |pre| ensures !LiteralAt(ShortLink, u, j) {
        assert u[j] == pre[j];
        assert j + 9 <= |u| ==> u[j..j + 9][0] == u[j];
      }
    }
    assert CaptureAt(ShortLink, u, |pre|) == id;
    ShortLinkFirst(u, |pre|);
  }

  /** `<pre>?v=<id>` with no `y`, `?` or `&` in `pre` becomes the embed URL
      of `id`. */
  lemma WatchParamUrl(pre: string, id: string)
    requires 'y' !in pre && '?' !in pre && '&' !in pre && IsId(id)
    ensures ToYoutubeEmbed(pre + "?v=" + id) == EmbedUrl(id)
  {
    var u := pre + "?v=" + id;
    var k := |pre| + 3;
    assert u[k..] == id;
    IdAtEnd(u, k, id);
    NoShortLinkInParamUrl(pre, id);
    assert LeftmostMatch(WatchParam, u, |pre|) by {
      assert u[|pre|] == '?' && u[|pre| + 1] == 'v' && u[|pre| + 2] == '=';
      forall j: nat | j < |pre| ensures !LiteralAt(WatchParam, u, j) {
        assert u[j] == pre[j];
      }
    }
    assert CaptureAt(WatchParam, u, |pre|) == id;
    WatchParamSecond(u, |pre|);
  }

  lemma NoShortLinkInParamUrl(pre: string, id: string)
    requires 'y' !in pre && IsId(id)
    ensures !Matches(ShortLink, pre + "?v=" + id)
  {
    var u := pre + "?v=" + id;
    forall j: nat | j + 9 <= |u| ensures !LiteralAt(ShortLink, u, j) {
      assert u[j..j + 9][0] == u[j] && u[j..j + 9][5] == u[j + 5];
      if j < |pre| {
        assert u[j] == pre[j];
      } else {
        NoDotInParam(pre, id, j + 5);
      }
    }
  }

  lemma NoDotInParam(pre: string, id: string, i: nat)
    requires IsId(id) && |pre| <= i < |pre| + 3 + |id|
    ensures (pre + "?v=" + id)[i] != '.'
  {
    var u := pre + "?v=" + id;
    if i >= |pre| + 3 {
      assert u[i] == id[i - |pre| - 3];
    }
  }

  /** Text without `y`, `?` or `&` is never rewritten. */
  lemma PlainTextUnchanged(u: string)
    requires 'y' !in u && '?' !in u && '&' !in u
    ensures ToYoutubeEmbed(u) == u
  {
    forall j: nat | j <= |u| ensures !LiteralAt(ShortLink, u, j) {
      assert j + 9 <= |u| ==> u[j..j + 9][0] == u[j];
    }
    UnchangedIff(u);
  }

  /** The examples of a short link, a watch URL and plain text. */
  lemma ShortLinkExample()
    ensures ToYoutubeEmbed("https://" + ShortLinkLiteral + "abcdef12345") == EmbedUrl("abcdef12345")
  {
    var id := "abcdef12345";
    assert IsId(id);
    ShortLinkUrl("https://", id);
  }

  lemma WatchParamExample()
    ensures ToYoutubeEmbed("https://x.com/watch" + "?v=" + "abcdef12345") == EmbedUrl("abcdef12345")
  {
    var id := "abcdef12345";
    assert IsId(id);
    WatchParamUrl("https://x.com/watch", id);
  }

  lemma PlainTextExample()
    ensures ToYoutubeEmbed("not a url") == "not a url"
  {
    PlainTextUnchanged("not a url");
  }
}
