/** Small text helpers of aktuelles.js: the rewrite of a letter's German date into a form
    `Date` can parse, and the `PHPSESSID` cookie header. */
module PortalText {
  import opened Common

  /** `\d` of a JavaScript regular expression without the `u` flag: an ASCII digit. */
  predicate IsDigit(c: char)
  {
    '0' <= c <= '9'
  }

  /** `s[i..i+n]` exists and holds `n` digits. */
  predicate DigitsAt(s: string, i: nat, n: nat)
  {
    i + n <= |s| && forall k :: i <= k < i + n ==> IsDigit(s[k])
  }

  /** The end of the run of spaces that starts at `p`. */
  function SpaceRunEnd(s: string, p: nat): (q: nat)
    requires p <= |s|
    ensures p <= q <= |s|
    ensures forall k :: p <= k < q ==> s[k] == ' '
    ensures q == |s| || s[q] != ' '
    decreases |s| - p
  {
    if p == |s| || s[p] != ' ' then p else SpaceRunEnd(s, p + 1)
  }

  /** `hh:mm:ss` starts at `j`. */
  predicate TimeAt(s: string, j: nat)
  {
    && j + 8 <= |s|
    && DigitsAt(s, j, 2) && s[j + 2] == ':'
    && DigitsAt(s, j + 3, 2) && s[j + 5] == ':'
    && DigitsAt(s, j + 6, 2)
  }

  /** `DD.MM.YYYY` starts at `i`. */
  predicate GermanDayAt(s: string, i: nat)
  {
    && i + 10 <= |s|
    && DigitsAt(s, i, 2) && s[i + 2] == '.'
    && DigitsAt(s, i + 3, 2) && s[i + 5] == '.'
    && DigitsAt(s, i + 6, 4)
  }

  /** The pattern `(\d\d)\.(\d\d)\.(\d\d\d\d) +(\d\d:\d\d:\d\d)` matches at `i`. Since a
      digit is never a space, ` +` can only stop where the run of spaces ends, so the time
      is looked for right after the whole run. */
  predicate DateAt(s: string, i: nat)
  {
    && GermanDayAt(s, i)
    && var j := SpaceRunEnd(s, i + 10);
    && j > i + 10
    && TimeAt(s, j)
  }

  /** The backtracking reading of the pattern: some number `m >= 1` of spaces after the day,
      then the time. It agrees with `DateAt`. */
  lemma DateAtIsRegexMatch(s: string, i: nat)
    ensures DateAt(s, i) <==>
      && GermanDayAt(s, i)
      && exists m: nat :: m >= 1 && TimeAfterDay(s, i, m)
  {
    if GermanDayAt(s, i) {
      var j := SpaceRunEnd(s, i + 10);
      if DateAt(s, i) {
        assert TimeAfterDay(s, i, j - (i + 10));
      }
      if m: nat :| m >= 1 && TimeAfterDay(s, i, m) {
        // The time starts with a digit, so the spaces end exactly there.
        assert IsDigit(s[i + 10 + m]);
        SpaceRunEndAt(s, i + 10, m);
      }
    }
  }

  /** `s[p..p+m]` exists and is all spaces. */
  predicate SpacesAt(s: string, p: nat, m: nat)
  {
    p + m <= |s| && forall k :: p <= k < p + m ==> s[k] == ' '
  }

  /** `m` spaces from `p`, then `hh:mm:ss`. */
  predicate SpacedTimeAt(s: string, p: nat, m: nat)
  {
    SpacesAt(s, p, m) && TimeAt(s, p + m)
  }

  /** `m` spaces and then `hh:mm:ss` follow the day that starts at `i`. */
  predicate TimeAfterDay(s: string, i: nat, m: nat)
  {
    SpacedTimeAt(s, i + 10, m)
  }

  /** `String.prototype.match` from position `from`: the leftmost position where the
      pattern matches, or `None` when it matches nowhere. */
  function FindDate(s: string, from: nat): (r: Option<nat>)
    requires from <= |s|
    ensures r.Some? ==> from <= r.value <= |s| && DateAt(s, r.value)
    ensures r.Some? ==> forall k: nat :: from <= k < r.value ==> !DateAt(s, k)
    ensures r.None? ==> forall k: nat :: from <= k ==> !DateAt(s, k)
    decreases |s| - from
  {
    if DateAt(s, from) then Some(from)
    else if from == |s| then None
    else FindDate(s, from + 1)
  }

  /** The date in the text of a letter as `readLetters` rewrites it: year, month and day of
      the first match, then the time. `None` stands for the TypeError the script raises when
      the text holds no date, as it then indexes into `null`. */
  function RewriteDate(text: string): (r: Option<string>)
    ensures r.Some? <==> exists i: nat :: DateAt(text, i)
    ensures r.Some? ==> |r.value| == 19
  {
    match FindDate(text, 0)
    case None => None
    case Some(i) =>
      var j := SpaceRunEnd(text, i + 10);
      Some(text[i + 6..i + 10] + "-" + text[i + 3..i + 5] + "-" + text[i..i + 2] + " " + text[j..j + 8])
  }

  /** A date and time as the portal shows them, by field. */
  datatype Stamp = Stamp(day: string, month: string, year: string, time: string)

  predicate WellFormedStamp(c: Stamp)
  {
    && |c.day| == 2 && DigitsAt(c.day, 0, 2)
    && |c.month| == 2 && DigitsAt(c.month, 0, 2)
    && |c.year| == 4 && DigitsAt(c.year, 0, 4)
    && |c.time| == 8 && TimeAt(c.time, 0)
  }

  /** `DD.MM.YYYY`, the spaces `gap`, then `hh:mm:ss`. */
  function German(c: Stamp, gap: string): string
  {
    c.day + "." + c.month + "." + c.year + gap + c.time
  }

  /** `YYYY-MM-DD hh:mm:ss`. */
  function Iso(c: Stamp): string
  {
    c.year + "-" + c.month + "-" + c.day + " " + c.time
  }

  /** In `lead + German(c, gap) + rest`, the pattern matches right after `lead`, with the
      fields of `c` at their places. */
  lemma GermanDateFields(lead: string, c: Stamp, gap: string, rest: string)
    requires WellFormedStamp(c)
    requires |gap| >= 1 && forall k :: 0 <= k < |gap| ==> gap[k] == ' '
    ensures var s := lead + German(c, gap) + rest;
      var i := |lead|;
      && GermanDayAt(s, i)
      && SpacedTimeAt(s, i + 10, |gap|)
      && s[i..i + 2] == c.day && s[i + 3..i + 5] == c.month && s[i + 6..i + 10] == c.year
      && s[i + 10 + |gap|..i + 10 + |gap| + 8] == c.time
  {
    var s := lead + German(c, gap) + rest;
    var i := |lead|;
    var g := German(c, gap);
    assert s[i..i + |g|] == g;
    assert g[0..2] == c.day;
    assert g[3..5] == c.month;
    assert g[6..10] == c.year;
    assert g[10..10 + |gap|] == gap;
    assert g[10 + |gap|..10 + |gap| + 8] == c.time;
    assert s[i..i + 2] == g[0..2];
    assert s[i + 3..i + 5] == g[3..5];
    assert s[i + 6..i + 10] == g[6..10];
    assert s[i + 10..i + 10 + |gap|] == g[10..10 + |gap|];
    assert s[i + 10 + |gap|..i + 10 + |gap| + 8] == g[10 + |gap|..10 + |gap| + 8];
  }

  /** The rewrite turns the portal's date into the ISO-like form when no earlier match starts
      in the text before it, however many spaces separate date and time, and whatever
      follows. */
  lemma RewriteGermanDate(lead: string, c: Stamp, gap: string, rest: string)
    requires forall k: nat :: k < |lead| ==> !DateAt(lead + German(c, gap) + rest, k)
    requires WellFormedStamp(c)
    requires |gap| >= 1 && forall k :: 0 <= k < |gap| ==> gap[k] == ' '
    ensures RewriteDate(lead + German(c, gap) + rest) == Some(Iso(c))
  {
    var s := lead + German(c, gap) + rest;
    var i := |lead|;
    var j := i + 10 + |gap|;
    GermanDateMatches(lead, c, gap, rest);
    GermanDateIso(lead, c, gap, rest);
    RewriteAt(s, i, j, Iso(c));
  }

  /** When the first match is at `i` and its time starts at `j`, the rewrite is the fields
      read there. */
  lemma RewriteAt(s: string, i: nat, j: nat, x: string)
    requires DateAt(s, i) && forall k: nat :: k < i ==> !DateAt(s, k)
    requires SpaceRunEnd(s, i + 10) == j && j + 8 <= |s|
    requires s[i + 6..i + 10] + "-" + s[i + 3..i + 5] + "-" + s[i..i + 2] + " " + s[j..j + 8] == x
    ensures RewriteDate(s) == Some(x)
  {
    FindDateSkips(s, 0, i);
    RewriteFromMatch(s, i, j);
  }

  /** The pattern matches right after `lead`, and its spaces end where the time begins. */
  lemma GermanDateMatches(lead: string, c: Stamp, gap: string, rest: string)
    requires WellFormedStamp(c)
    requires |gap| >= 1 && forall k :: 0 <= k < |gap| ==> gap[k] == ' '
    ensures var s := lead + German(c, gap) + rest;
      var i := |lead|;
      DateAt(s, i) && SpaceRunEnd(s, i + 10) == i + 10 + |gap|
  {
    var s := lead + German(c, gap) + rest;
    var i := |lead|;
    var j := i + 10 + |gap|;
    GermanDateFields(lead, c, gap, rest);
    DateAtIsRegexMatch(s, i);
    assert TimeAfterDay(s, i, |gap|);
    assert IsDigit(s[j]);
    SpaceRunEndAt(s, i + 10, |gap|);
  }

  /** The fields read right after `lead` spell `Iso(c)`. */
  lemma GermanDateIso(lead: string, c: Stamp, gap: string, rest: string)
    requires WellFormedStamp(c)
    requires |gap| >= 1 && forall k :: 0 <= k < |gap| ==> gap[k] == ' '
    ensures var s := lead + German(c, gap) + rest;
      var i := |lead|;
      var j := i + 10 + |gap|;
      j + 8 <= |s| &&
      s[i + 6..i + 10] + "-" + s[i + 3..i + 5] + "-" + s[i..i + 2] + " " + s[j..j + 8] == Iso(c)
  {
    var s := lead + German(c, gap) + rest;
    GermanDateFields(lead, c, gap, rest);
    IsoFromFields(s, |lead|, |lead| + 10 + |gap|, c);
  }

  /** The rewrite reads its fields at the leftmost match `i`, with the time after the run of
      spaces that ends at `j`. */
  lemma RewriteFromMatch(s: string, i: nat, j: nat)
    requires FindDate(s, 0) == Some(i) && SpaceRunEnd(s, i + 10) == j
    ensures j + 8 <= |s|
    ensures RewriteDate(s) == Some(s[i + 6..i + 10] + "-" + s[i + 3..i + 5] + "-" + s[i..i + 2] + " " + s[j..j + 8])
  {
  }

  lemma IsoFromFields(s: string, i: nat, j: nat, c: Stamp)
    requires i + 10 <= j && j + 8 <= |s|
    requires s[i..i + 2] == c.day && s[i + 3..i + 5] == c.month && s[i + 6..i + 10] == c.year
    requires s[j..j + 8] == c.time
    ensures s[i + 6..i + 10] + "-" + s[i + 3..i + 5] + "-" + s[i..i + 2] + " " + s[j..j + 8] == Iso(c)
  {
  }

  /** In particular, any text without digits may come before the date. */
  lemma RewriteAfterDigitFreeLead(lead: string, c: Stamp, gap: string, rest: string)
    requires forall k :: 0 <= k < |lead| ==> !IsDigit(lead[k])
    requires WellFormedStamp(c)
    requires |gap| >= 1 && forall k :: 0 <= k < |gap| ==> gap[k] == ' '
    ensures RewriteDate(lead + German(c, gap) + rest) == Some(Iso(c))
  {
    var s := lead + German(c, gap) + rest;
    assert forall k :: 0 <= k < |lead| ==> s[k] == lead[k];
    NoDateInLead(s, |lead|);
    RewriteGermanDate(lead, c, gap, rest);
  }

  /** Nothing matches inside digit-free text, since the pattern starts with a digit. */
  lemma NoDateInLead(s: string, n: nat)
    requires n <= |s| && forall k :: 0 <= k < n ==> !IsDigit(s[k])
    ensures forall k: nat :: k < n ==> !DateAt(s, k)
  {
    forall k: nat | k < n
      ensures !DateAt(s, k)
    {
      assert !IsDigit(s[k]);
    }
  }

  /** The search starting at `from` finds `i` when nothing matches before it. */
  lemma {:induction false} FindDateSkips(s: string, from: nat, i: nat)
    requires from <= i <= |s| && DateAt(s, i)
    requires forall k: nat :: from <= k < i ==> !DateAt(s, k)
    ensures FindDate(s, from) == Some(i)
    decreases i - from
  {
    if from < i {
      FindDateSkips(s, from + 1, i);
    }
  }

  /** A run of exactly `m` spaces followed by a non-space ends at `p + m`. */
  lemma {:induction false} SpaceRunEndAt(s: string, p: nat, m: nat)
    requires SpacesAt(s, p, m) && p + m < |s| && s[p + m] != ' '
    ensures SpaceRunEnd(s, p) == p + m
    decreases m
  {
    if m > 0 {
      SpaceRunEndAt(s, p + 1, m - 1);
    }
  }

  /** A cookie as `page.cookies()` lists it. */
  datatype Cookie = Cookie(name: string, value: string)

  const SessionCookieName: string := "PHPSESSID"

  /** The cookies named `PHPSESSID`, in list order. */
  function SessionCookies(cookies: seq<Cookie>): (r: seq<Cookie>)
    ensures forall c :: c in r ==> c in cookies && c.name == SessionCookieName
  {
    if cookies == [] then []
    else
      (if cookies[0].name == SessionCookieName then [cookies[0]] else [])
      + SessionCookies(cookies[1..])
  }

  /** `getPhpSessionIdAsCookie`: `name=value` of the session cookie when there is exactly
      one, otherwise the empty string. */
  function PhpSessionIdAsCookie(cookies: seq<Cookie>): (r: string)
    ensures r != "" ==> |r| > |SessionCookieName| && r[..|SessionCookieName| + 1] == SessionCookieName + "="
  {
    var id := SessionCookies(cookies);
    if |id| == 1 then
      assert id[0] in id;
      var header := id[0].name + "=" + id[0].value;
      assert header[..|SessionCookieName| + 1] == SessionCookieName + "=";
      header
    else ""
  }

  /** Cookie `j` is the only one named `PHPSESSID`. */
  predicate UniqueSessionAt(cookies: seq<Cookie>, j: int)
  {
    && 0 <= j < |cookies|
    && cookies[j].name == SessionCookieName
    && forall k :: 0 <= k < |cookies| && k != j ==> cookies[k].name != SessionCookieName
  }

  /** The header is non-empty exactly when one cookie alone is named `PHPSESSID`, and it is
      then `PHPSESSID=` followed by that cookie's value. */
  lemma SessionCookieHeader(cookies: seq<Cookie>)
    ensures PhpSessionIdAsCookie(cookies) != "" <==> exists j :: UniqueSessionAt(cookies, j)
    ensures forall j :: UniqueSessionAt(cookies, j) ==>
      PhpSessionIdAsCookie(cookies) == "PHPSESSID=" + cookies[j].value
  {
    if j :| UniqueSessionAt(cookies, j) {
      OnlySessionCookie(cookies, j);
      forall j' | UniqueSessionAt(cookies, j')
        ensures j' == j
      {
      }
    } else if j :| 0 <= j < |cookies| && cookies[j].name == SessionCookieName {
      assert !UniqueSessionAt(cookies, j);
      var k :| 0 <= k < |cookies| && k != j && cookies[k].name == SessionCookieName;
      if j < k {
        TwoSessionCookies(cookies, j, k);
      } else {
        TwoSessionCookies(cookies, k, j);
      }
    } else {
      NoSessionCookie(cookies);
    }
  }

  lemma {:induction false} OnlySessionCookie(cookies: seq<Cookie>, j: int)
    requires UniqueSessionAt(cookies, j)
    ensures SessionCookies(cookies) == [cookies[j]]
    decreases |cookies|
  {
    if j == 0 {
      NoSessionCookie(cookies[1..]);
    } else {
      OnlySessionCookie(cookies[1..], j - 1);
    }
  }

  lemma {:induction false} NoSessionCookie(cookies: seq<Cookie>)
    requires forall k :: 0 <= k < |cookies| ==> cookies[k].name != SessionCookieName
    ensures SessionCookies(cookies) == []
    decreases |cookies|
  {
    if cookies != [] {
      NoSessionCookie(cookies[1..]);
    }
  }

  lemma {:induction false} SomeSessionCookie(cookies: seq<Cookie>, j: int)
    requires 0 <= j < |cookies| && cookies[j].name == SessionCookieName
    ensures |SessionCookies(cookies)| >= 1
    decreases |cookies|
  {
    if j > 0 {
      SomeSessionCookie(cookies[1..], j - 1);
    }
  }

  lemma {:induction false} TwoSessionCookies(cookies: seq<Cookie>, j: int, k: int)
    requires 0 <= j < k < |cookies|
    requires cookies[j].name == SessionCookieName && cookies[k].name == SessionCookieName
    ensures |SessionCookies(cookies)| >= 2
    decreases |cookies|
  {
    if j == 0 {
      SomeSessionCookie(cookies[1..], k - 1);
    } else {
      TwoSessionCookies(cookies[1..], j - 1, k - 1);
    }
  }
}
