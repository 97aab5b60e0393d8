/** The age gate wrapped around every page (components/AgeGate.tsx): a lookup
    of the `age_verified` cookie, a monotone `verified` flag, and the choice
    between rendering nothing, the page, or the gate. */
module AgeGate {
  import opened Basics
  import opened Text

  const CookieName := "age_verified"
  const CookiePrefix := "age_verified="

  /** The `"; "` that separates pairs in `document.cookie`. */
  const PairSeparator := "; "

  /** The first row that starts with the cookie prefix, if any. */
  function FindCookie(rows: seq<string>): (r: Option<string>)
    ensures r.None? <==> forall i :: 0 <= i < |rows| ==> !StartsWith(rows[i], CookiePrefix)
    ensures r.Some? ==> exists i :: 0 <= i < |rows| && rows[i] == r.value && FirstCookieAt(rows, i)
  {
    if |rows| == 0 then None
    else if StartsWith(rows[0], CookiePrefix) then Some(rows[0])
    else
      var r := FindCookie(rows[1..]);
      assert r.Some? ==> exists i :: 0 <= i < |rows| && rows[i] == r.value && FirstCookieAt(rows, i) by {
        if r.Some? {
          var i :| 0 <= i < |rows| - 1 && rows[1..][i] == r.value && FirstCookieAt(rows[1..], i);
          assert FirstCookieAt(rows, i + 1);
        }
      }
      r
  }

  /** `rows[i]` is the first row that starts with the cookie prefix. */
  predicate FirstCookieAt(rows: seq<string>, i: nat)
    requires i < |rows|
  {
    StartsWith(rows[i], CookiePrefix) && forall j :: 0 <= j < i ==> !StartsWith(rows[j], CookiePrefix)
  }

  /** The lookup returns the first row with the prefix. */
  lemma FindFirstCookie(rows: seq<string>, i: nat)
    requires i < |rows| && FirstCookieAt(rows, i)
    ensures FindCookie(rows) == Some(rows[i])
  {
    var found := FindCookie(rows).value;
    var k :| 0 <= k < |rows| && rows[k] == found && FirstCookieAt(rows, k);
    assert !(k < i) && !(k > i);
  }

  /** The lookup the mount effect does: the first `age_verified=` pair, whose
      second `"="`-separated field must be exactly "true". */
  function CookieSaysVerified(cookie: string): (b: bool)
    ensures b ==> FindCookie(Split(cookie, PairSeparator)).Some?
  {
    match FindCookie(Split(cookie, PairSeparator))
    case None => false
    case Some(row) =>
      var fields := Split(row, "=");
      |fields| > 1 && fields[1] == "true"
  }

  /** The text after the prefix is "true", possibly followed by a further
      `=` and anything. */
  predicate TrueValue(rest: string) {
    rest == "true" || StartsWith(rest, "true=")
  }

  /** The second `=`-field of an `age_verified=` pair is "true" exactly when
      the rest of the pair is "true", or "true=" followed by anything. */
  lemma SecondFieldIsTrue(row: string)
    requires StartsWith(row, CookiePrefix)
    ensures var fields := Split(row, "=");
      (|fields| > 1 && fields[1] == "true") <==> TrueValue(row[|CookiePrefix|..])
  {
    var rest := row[|CookiePrefix|..];
    SplitAfterName(row);
    FirstFieldIsTrue(rest);
  }

  /** Splitting an `age_verified=` pair at `=` gives the name, then the
      pieces of the rest. */
  lemma SplitAfterName(row: string)
    requires StartsWith(row, CookiePrefix)
    ensures Split(row, "=") == [CookieName] + Split(row[|CookiePrefix|..], "=")
  {
    var n := |CookieName|;
    assert row[..n] == CookieName by {
      assert row[..|CookiePrefix|][..n] == row[..n];
    }
    assert OccursAt(row, "=", n) by {
      assert row[n..n + 1] == [row[n]];
      assert row[..|CookiePrefix|][n] == row[n];
    }
    forall j | 0 <= j < n ensures !OccursAt(row, "=", j) {
      assert row[j..j + 1][0] == row[j] == row[..n][j] == CookieName[j];
    }
    FindFromFirst(row, "=", n);
  }

  /** The first `=`-piece of `rest` is "true" exactly when `TrueValue(rest)`. */
  lemma FirstFieldIsTrue(rest: string)
    ensures Split(rest, "=")[0] == "true" <==> TrueValue(rest)
  {
    assert |rest| >= 5 ==> rest[4..5] == [rest[4]] && rest[..5][4] == rest[4] && rest[..5][..4] == rest[..4];
    match FindFrom(rest, "=", 0)
    case None =>
      assert !OccursAt(rest, "=", 4);
    case Some(k) =>
      assert rest[k..k + 1][0] == rest[k];
      if StartsWith(rest, "true=") {
        forall j | 0 <= j < 4 ensures !OccursAt(rest, "=", j) {
          assert rest[j..j + 1][0] == rest[j] == rest[..5][j];
        }
        FindFromFirst(rest, "=", 4);
      }
  }

  /** `rows[i]` is the first `age_verified=` pair and its value passes
      `TrueValue`. */
  predicate VerifiedAt(rows: seq<string>, i: nat)
    requires i < |rows|
  {
    FirstCookieAt(rows, i) && TrueValue(rows[i][|CookiePrefix|..])
  }

  /** The cookie check as the effect performs it, stated without splitting:
      the first `age_verified=` pair exists and its value is "true", or
      "true=" followed by anything. */
  lemma CookieSaysVerifiedIff(cookie: string)
    ensures CookieSaysVerified(cookie) <==>
      exists i :: 0 <= i < |Split(cookie, PairSeparator)| && VerifiedAt(Split(cookie, PairSeparator), i)
  {
    var rows := Split(cookie, PairSeparator);
    match FindCookie(rows)
    case None =>
    case Some(row) =>
      var i :| 0 <= i < |rows| && rows[i] == row && FirstCookieAt(rows, i);
      SecondFieldIsTrue(row);
      assert CookieSaysVerified(cookie) == TrueValue(row[|CookiePrefix|..]);
      if TrueValue(row[|CookiePrefix|..]) {
        assert VerifiedAt(rows, i);
        assert CookieSaysVerified(cookie);
        assert exists k :: 0 <= k < |Split(cookie, PairSeparator)| && VerifiedAt(Split(cookie, PairSeparator), k);
      } else {
        forall j | 0 <= j < |rows| ensures !VerifiedAt(rows, j) {
          if FirstCookieAt(rows, j) {
            FindFirstCookie(rows, j);
          }
        }
      }
  }

  /** A cookie string of one pair is read as that pair. */
  lemma SinglePair(c: string)
    requires ';' !in c
    ensures Split(c, PairSeparator) == [c]
  {
    SplitJoin([c], PairSeparator);
  }

  /** A one-pair cookie string is verified exactly when the pair's value
      passes `TrueValue`. */
  lemma OnePairCookie(c: string)
    requires ';' !in c && StartsWith(c, CookiePrefix)
    ensures CookieSaysVerified(c) <==> TrueValue(c[|CookiePrefix|..])
  {
    SinglePair(c);
    SecondFieldIsTrue(c);
  }

  /** Only the second `=`-field counts: a trailing field is ignored, and the
      value is compared case-sensitively. */
  lemma TrailingFieldExample()
    ensures CookieSaysVerified("age_verified=true=x")
  {
    var c := "age_verified=true=x";
    OnePairCookie(c);
    var rest := c[|CookiePrefix|..];
    assert rest == "true=x";
    assert rest[..5] == "true=";
  }

  lemma UppercaseExample()
    ensures !CookieSaysVerified("age_verified=TRUE")
  {
    var c := "age_verified=TRUE";
    OnePairCookie(c);
    assert c[|CookiePrefix|..] == "TRUE";
  }

  /** For a cookie string made of pairs without `;`, the first
      `age_verified=` pair decides, whatever the other pairs say. */
  lemma FirstPairDecides(rows: seq<string>, n: nat)
    requires forall i :: 0 <= i < |rows| ==> ';' !in rows[i]
    requires n < |rows| && FirstCookieAt(rows, n)
    ensures CookieSaysVerified(Join(rows, PairSeparator)) <==> TrueValue(rows[n][|CookiePrefix|..])
  {
    SplitJoin(rows, PairSeparator);
    DecidedByRow(Join(rows, PairSeparator), rows, n);
  }

  /** The verdict on a cookie string is the verdict on its first
      `age_verified=` row. */
  lemma DecidedByRow(cookie: string, rows: seq<string>, i: nat)
    requires Split(cookie, PairSeparator) == rows
    requires i < |rows| && FirstCookieAt(rows, i)
    ensures CookieSaysVerified(cookie) <==> TrueValue(rows[i][|CookiePrefix|..])
  {
    FindFirstCookie(rows, i);
    SecondFieldIsTrue(rows[i]);
  }

  // ----- the gate's state -----

  datatype Gate = Gate(checked: bool, verified: bool)

  const InitialGate := Gate(false, false)

  /** The mount effect: `verified` is raised when the cookie says so (and is
      never lowered); `checked` becomes true whatever the lookup found. */
  function CheckCookie(g: Gate, cookie: string): (r: Gate)
    ensures r.checked
    ensures r.verified <==> g.verified || CookieSaysVerified(cookie)
  {
    Gate(true, g.verified || CookieSaysVerified(cookie))
  }

  /** `handleAllow`: the visitor confirmed their age. */
  function Allow(g: Gate): (r: Gate)
    ensures r.verified && r.checked == g.checked
  {
    g.(verified := true)
  }

  datatype View = Nothing | Content | AgePrompt

  /** What the component renders. */
  function Render(g: Gate): (v: View)
    ensures v == Nothing <==> !g.checked
    ensures v == Content <==> g.checked && g.verified
    ensures v == AgePrompt <==> g.checked && !g.verified
  {
    if !g.checked then Nothing
    else if g.verified then Content
    else AgePrompt
  }

  /** What can happen to the gate: the mount effect reading a cookie string,
      the allow button, and the deny button (which only navigates away). */
  datatype Event = Mounted(cookie: string) | Allowed | Denied

  function Step(g: Gate, e: Event): Gate {
    match e
    case Mounted(c) => CheckCookie(g, c)
    case Allowed => Allow(g)
    case Denied => g
  }

  function Run(g: Gate, es: seq<Event>): Gate
    decreases |es|
  {
    if |es| == 0 then g else Run(Step(g, es[0]), es[1..])
  }

  /** No sequence of events lowers `verified` or `checked`. */
  lemma {:induction false} Monotone(g: Gate, es: seq<Event>)
    ensures g.verified ==> Run(g, es).verified
    ensures g.checked ==> Run(g, es).checked
    decreases |es|
  {
    if |es| > 0 {
      Monotone(Step(g, es[0]), es[1..]);
    }
  }

  /** Once the gate has been passed, the page's content stays shown. */
  lemma {:induction false} ContentStays(g: Gate, es: seq<Event>)
    requires Render(g) == Content
    ensures Render(Run(g, es)) == Content
  {
    Monotone(g, es);
  }

  // ----- the round trip through the browser's cookie jar -----

  /** A cookie of this site's domain with path `/`: the only cookies the
      jar below holds. */
  datatype Cookie = Cookie(name: string, value: string)

  /** A cookie as browsers keep it: the name is not empty and has no `=`
      or `;`, and the value has no `;`. */
  predicate WellFormed(c: Cookie) {
    && |c.name| > 0
    && (forall k :: 0 <= k < |c.name| ==> c.name[k] != '=' && c.name[k] != ';')
    && (forall k :: 0 <= k < |c.value| ==> c.value[k] != ';')
  }

  function PairText(c: Cookie): string {
    c.name + "=" + c.value
  }

  function PairTexts(jar: seq<Cookie>): (r: seq<string>)
    ensures |r| == |jar|
    ensures forall i :: 0 <= i < |jar| ==> r[i] == PairText(jar[i])
  {
    if |jar| == 0 then [] else [PairText(jar[0])] + PairTexts(jar[1..])
  }

  /** What `document.cookie` reads back: the pairs joined by `"; "`. */
  function CookieString(jar: seq<Cookie>): string {
    Join(PairTexts(jar), PairSeparator)
  }

  /** Writing a cookie: an existing cookie of that name takes the new value
      in place; otherwise the cookie is added at the end. Cookies of other
      names are kept. */
  function SetCookie(jar: seq<Cookie>, c: Cookie): (r: seq<Cookie>)
    ensures forall i :: 0 <= i < |r| && r[i].name == c.name ==> r[i] == c
    ensures exists i :: 0 <= i < |r| && r[i] == c
    ensures forall i :: 0 <= i < |r| ==> r[i] == c || r[i] in jar
    ensures forall d :: d in jar && d.name != c.name ==> d in r
    // a cookie of that name exists: same length, the others in their places
    ensures (exists i :: 0 <= i < |jar| && jar[i].name == c.name) ==>
      |r| == |jar| && forall i :: 0 <= i < |jar| && jar[i].name != c.name ==> r[i] == jar[i]
    // no cookie of that name: the new one is added at the end
    ensures (forall i :: 0 <= i < |jar| ==> jar[i].name != c.name) ==> r == jar + [c]
  {
    if exists i :: 0 <= i < |jar| && jar[i].name == c.name then
      var r := seq(|jar|, i requires 0 <= i < |jar| => if jar[i].name == c.name then c else jar[i]);
      var k :| 0 <= k < |jar| && jar[k].name == c.name;
      assert r[k] == c;
      assert forall d :: d in jar && d.name != c.name ==> d in r by {
        forall d | d in jar && d.name != c.name ensures d in r {
          var i :| 0 <= i < |jar| && jar[i] == d;
          assert r[i] == d;
        }
      }
      r
    else
      var r := jar + [c];
      assert r[|jar|] == c;
      r
  }

  /** The pair `handleAllow` writes (its `path` and `max-age` attributes are
      not read back by `document.cookie`). */
  const AllowCookie := Cookie(CookieName, "true")

  /** A well-formed pair starts with the prefix exactly when its name is
      `age_verified`. */
  lemma PairStartsWithPrefix(c: Cookie)
    requires WellFormed(c)
    ensures StartsWith(PairText(c), CookiePrefix) <==> c.name == CookieName
  {
    var t := PairText(c);
    if c.name != CookieName && |CookiePrefix| <= |t| {
      var n := |c.name|;
      if n < |CookieName| {
        assert t[n] == '=';
        assert t[..|CookiePrefix|][n] == t[n];
        assert CookiePrefix[n] != '=';
      } else if n > |CookieName| {
        assert t[|CookieName|] == c.name[|CookieName|];
        assert t[..|CookiePrefix|][|CookieName|] == t[|CookieName|];
      } else {
        assert t[..n] == c.name;
        assert t[..|CookiePrefix|][..n] == t[..n];
        assert CookiePrefix[..n] == CookieName;
      }
    }
  }

  lemma PairHasNoSemicolon(c: Cookie)
    requires WellFormed(c)
    ensures ';' !in PairText(c)
  {
    var t := PairText(c);
    forall k | 0 <= k < |t| ensures t[k] != ';' {
      if k < |c.name| {
        assert t[k] == c.name[k];
      } else if k > |c.name| {
        assert t[k] == c.value[k - |c.name| - 1];
      }
    }
  }

  /** Reading back a jar of well-formed cookies and splitting at `"; "`
      gives one row per cookie. */
  lemma SplitCookieString(jar: seq<Cookie>)
    requires |jar| > 0
    requires forall i :: 0 <= i < |jar| ==> WellFormed(jar[i])
    ensures Split(CookieString(jar), PairSeparator) == PairTexts(jar)
  {
    var rows := PairTexts(jar);
    forall i | 0 <= i < |rows| ensures PairSeparator[0] !in rows[i] {
      PairHasNoSemicolon(jar[i]);
    }
    SplitJoin(rows, PairSeparator);
  }

  /** In a jar whose every `age_verified` cookie is the allow cookie, and
      which holds it, the lookup finds the allow cookie's pair. */
  lemma {:induction false} FindAllowCookie(jar: seq<Cookie>)
    requires forall i :: 0 <= i < |jar| ==> WellFormed(jar[i])
    requires forall i :: 0 <= i < |jar| && jar[i].name == CookieName ==> jar[i] == AllowCookie
    requires exists i :: 0 <= i < |jar| && jar[i] == AllowCookie
    ensures FindCookie(PairTexts(jar)) == Some(PairText(AllowCookie))
  {
    var rows := PairTexts(jar);
    PairStartsWithPrefix(jar[0]);
    if jar[0].name != CookieName {
      assert rows[1..] == PairTexts(jar[1..]);
      assert jar[0] != AllowCookie;
      FindAllowCookie(jar[1..]);
    }
  }

  /** Round trip: after the allow button has written its cookie into any jar
      of well-formed cookies, the next visit's cookie check says verified. */
  lemma AllowCookieIsRecognised(jar: seq<Cookie>)
    requires forall i :: 0 <= i < |jar| ==> WellFormed(jar[i])
    ensures CookieSaysVerified(CookieString(SetCookie(jar, AllowCookie)))
  {
    var jar' := SetCookie(jar, AllowCookie);
    assert WellFormed(AllowCookie);
    forall i | 0 <= i < |jar'| ensures WellFormed(jar'[i]) {
      if jar'[i] != AllowCookie {
        var j :| 0 <= j < |jar| && jar[j] == jar'[i];
      }
    }
    SplitCookieString(jar');
    FindAllowCookie(jar');
    var row := PairText(AllowCookie);
    SecondFieldIsTrue(row);
    assert row[|CookiePrefix|..] == "true";
  }
}
