/**
 * The settings form's custom-CSS save: every `<script` up to the nearest following
 * `</script>` is removed (letter case ignored), scanning left to right, and the result is
 * written as the CSS of the signed-in user.
 *
 * The pattern is a non-Unicode, case-insensitive regular expression with a lazy body, so only
 * ASCII letters fold, and each match ends at the first closing tag after its opening tag.
 */
module Settings {
  import opened Wrappers
  import opened Schema
  import Auth
  import Users

  const OPEN_TAG: string := "<script"
  const CLOSE_TAG: string := "</script>"

  /** Case folding under a non-Unicode `i` flag: ASCII letters only. */
  function FoldAscii(c: char): char
  {
    if 'A' <= c <= 'Z' then (c as int + 32) as char else c
  }

  /** The lower-case pattern `pat` matches `s` at `i`, ignoring ASCII letter case. */
  predicate MatchesAt(s: string, pat: string, i: int)
  {
    0 <= i && i + |pat| <= |s| && forall k :: 0 <= k < |pat| ==> FoldAscii(s[i + k]) == pat[k]
  }

  /** The first position at or after `from` where `pat` matches, or -1. */
  function FirstMatch(s: string, pat: string, from: nat): (r: int)
    ensures r == -1 || (from <= r && r + |pat| <= |s|)
    decreases |s| - from
  {
    if from + |pat| > |s| then -1
    else if MatchesAt(s, pat, from) then from
    else FirstMatch(s, pat, from + 1)
  }

  /** The search finds a match, and no match lies between `from` and it; -1 means there is
      no match at or after `from`. */
  lemma {:induction false} FirstMatchIsFirst(s: string, pat: string, from: nat)
    ensures var r := FirstMatch(s, pat, from);
            (r >= 0 ==> MatchesAt(s, pat, r)) &&
            forall j :: from <= j && (r == -1 || j < r) ==> !MatchesAt(s, pat, j)
    decreases |s| - from
  {
    if from + |pat| <= |s| && !MatchesAt(s, pat, from) {
      FirstMatchIsFirst(s, pat, from + 1);
    }
  }

  /** `s` holds a `<script` with a `</script>` starting at or after its end. */
  predicate HasScriptSpan(s: string)
  {
    exists i, j :: 0 <= i < |s| && i + |OPEN_TAG| <= j < |s| &&
                   MatchesAt(s, OPEN_TAG, i) && MatchesAt(s, CLOSE_TAG, j)
  }

  /** Where a span starts, where its closing tag starts, and where it ends. */
  datatype Span = NoSpan | Span(start: nat, close: nat, end: nat)

  /** The leftmost `<script`, up to the nearest `</script>` after it: the next match of the
      lazy pattern. */
  function FirstSpan(s: string): (r: Span)
    ensures r.Span? ==> r.start + |OPEN_TAG| <= r.close && r.end == r.close + |CLOSE_TAG| <= |s|
  {
    var i := FirstMatch(s, OPEN_TAG, 0);
    if i == -1 then NoSpan
    else
      var j := FirstMatch(s, CLOSE_TAG, i + |OPEN_TAG|);
      if j == -1 then NoSpan else Span(i, j, j + |CLOSE_TAG|)
  }

  /** A span is found exactly when the text holds one; the one found starts at the first
      `<script` and ends with the first `</script>` after that tag. */
  lemma FirstSpanIsFirst(s: string)
    ensures FirstSpan(s).NoSpan? <==> !HasScriptSpan(s)
    ensures FirstSpan(s).Span? ==>
              var a, c := FirstSpan(s).start, FirstSpan(s).close;
              && MatchesAt(s, OPEN_TAG, a)
              && MatchesAt(s, CLOSE_TAG, c)
              && (forall j :: 0 <= j < a ==> !MatchesAt(s, OPEN_TAG, j))
              && (forall j :: a + |OPEN_TAG| <= j < c ==> !MatchesAt(s, CLOSE_TAG, j))
  {
    var i := FirstMatch(s, OPEN_TAG, 0);
    FirstMatchIsFirst(s, OPEN_TAG, 0);
    if i != -1 {
      var j := FirstMatch(s, CLOSE_TAG, i + |OPEN_TAG|);
      FirstMatchIsFirst(s, CLOSE_TAG, i + |OPEN_TAG|);
      if j != -1 {
        assert 0 <= i < |s| && i + |OPEN_TAG| <= j < |s| &&
               MatchesAt(s, OPEN_TAG, i) && MatchesAt(s, CLOSE_TAG, j);
      }
    }
    if HasScriptSpan(s) {
      var a, b :| 0 <= a < |s| && a + |OPEN_TAG| <= b < |s| &&
                  MatchesAt(s, OPEN_TAG, a) && MatchesAt(s, CLOSE_TAG, b);
      assert i != -1 && i <= a;
      var j := FirstMatch(s, CLOSE_TAG, i + |OPEN_TAG|);
      assert j != -1;
    }
  }

  /** `customCss.replace(/<script[\s\S]*?<\/script>/gi, '')`: cut out the first span, then
      go on after it. */
  function StripScripts(s: string): (r: string)
    ensures |r| <= |s|
    decreases |s|
  {
    match FirstSpan(s)
    case NoSpan => s
    case Span(a, _, e) => s[..a] + StripScripts(s[e..])
  }

  /** Text without a closed span comes back unchanged, and text with one always loses at
      least the sixteen characters of the two tags. */
  lemma StripScriptsChangesIff(s: string)
    ensures !HasScriptSpan(s) ==> StripScripts(s) == s
    ensures HasScriptSpan(s) ==> |StripScripts(s)| <= |s| - |OPEN_TAG| - |CLOSE_TAG|
  {
    FirstSpanIsFirst(s);
  }

  /** The character a match puts at each position. */
  lemma CharOfMatch(s: string, pat: string, i: int, k: int)
    requires MatchesAt(s, pat, i) && 0 <= k < |pat|
    ensures FoldAscii(s[i + k]) == pat[k]
  {
  }

  /** No `</script>` starts inside a `<script`, nor a `<script` inside a `</script>`: neither
      tag holds a '<' after its first character, and they differ in the second. */
  lemma TagsDoNotOverlap(s: string, i: int, j: int)
    requires MatchesAt(s, OPEN_TAG, i) && MatchesAt(s, CLOSE_TAG, j)
    ensures j + |CLOSE_TAG| <= i || i + |OPEN_TAG| <= j
  {
    if i <= j < i + |OPEN_TAG| {
      CharOfMatch(s, CLOSE_TAG, j, 0);
      CharOfMatch(s, OPEN_TAG, i, j - i);
      if j == i {
        CharOfMatch(s, CLOSE_TAG, j, 1);
        CharOfMatch(s, OPEN_TAG, i, 1);
      }
    } else if j < i < j + |CLOSE_TAG| {
      CharOfMatch(s, OPEN_TAG, i, 0);
      CharOfMatch(s, CLOSE_TAG, j, i - j);
    }
  }

  /** Matches in a suffix are matches in the whole, shifted by the suffix's offset. */
  lemma MatchInSuffix(s: string, off: nat, pat: string, m: int)
    requires off <= |s|
    ensures MatchesAt(s[off..], pat, m) <==> m >= 0 && MatchesAt(s, pat, m + off)
  {
    var t := s[off..];
    if m >= 0 && m + |pat| <= |t| {
      assert forall k :: m <= k < m + |pat| ==> t[k] == s[k + off];
    }
  }

  /** Stripping one span: the text before it, then the stripped rest. */
  lemma StripScriptsStep(s: string, a: nat, c: nat, e: nat)
    requires FirstSpan(s) == Span(a, c, e)
    ensures StripScripts(s) == s[..a] + StripScripts(s[e..])
  {
  }

  /** The closing tag that ends the first span lies before an unclosed `<script` at `i`, so
      that `<script` is unclosed in the rest of the text as well. */
  lemma UnclosedInRest(s: string, i: int, b: int, off: int)
    requires MatchesAt(s, OPEN_TAG, i) && MatchesAt(s, CLOSE_TAG, b) && off == b + |CLOSE_TAG|
    requires forall j :: i + |OPEN_TAG| <= j ==> !MatchesAt(s, CLOSE_TAG, j)
    ensures off <= i
    ensures MatchesAt(s[off..], OPEN_TAG, i - off)
    ensures forall j :: i - off + |OPEN_TAG| <= j ==> !MatchesAt(s[off..], CLOSE_TAG, j)
  {
    TagsDoNotOverlap(s, i, b);
    MatchInSuffix(s, off, OPEN_TAG, i - off);
    forall j | i - off + |OPEN_TAG| <= j ensures !MatchesAt(s[off..], CLOSE_TAG, j) {
      MatchInSuffix(s, off, CLOSE_TAG, j);
    }
  }

  /** `r` ends with `x`. */
  predicate EndsWith(r: string, x: string)
  {
    |x| <= |r| && r[|r| - |x|..] == x
  }

  /** Text put in front keeps what a sequence ends with. */
  lemma EndsWithAfterPrefix(p: string, r: string, x: string)
    requires EndsWith(r, x)
    ensures EndsWith(p + r, x)
  {
    assert (p + r)[|p + r| - |x|..] == r[|r| - |x|..];
  }

  /** Past the first span, the unclosed `<script` is still there and still unclosed. */
  lemma UnclosedAfterSpan(s: string, i: int, a: nat, c: nat, e: nat)
    requires FirstSpan(s) == Span(a, c, e)
    requires MatchesAt(s, OPEN_TAG, i)
    requires forall j :: i + |OPEN_TAG| <= j ==> !MatchesAt(s, CLOSE_TAG, j)
    ensures e <= i && MatchesAt(s[e..], OPEN_TAG, i - e)
    ensures forall j :: i - e + |OPEN_TAG| <= j ==> !MatchesAt(s[e..], CLOSE_TAG, j)
  {
    FirstSpanIsFirst(s);
    UnclosedInRest(s, i, c, e);
  }

  /** What the rest of the text ends with after stripping, the whole output ends with. */
  lemma EndsWithAfterSpan(s: string, i: int, a: nat, c: nat, e: nat)
    requires FirstSpan(s) == Span(a, c, e)
    requires e <= i <= |s|
    requires EndsWith(StripScripts(s[e..]), s[e..][i - e..])
    ensures EndsWith(StripScripts(s), s[i..])
  {
    StripScriptsStep(s, a, c, e);
    assert s[e..][i - e..] == s[i..];
    EndsWithAfterPrefix(s[..a], StripScripts(s[e..]), s[i..]);
  }

  /** A `<script` never followed by `</script>` is kept, together with everything after it:
      the output ends with that part of the input. */
  lemma {:induction false} UnclosedScriptKept(s: string, i: int)
    requires MatchesAt(s, OPEN_TAG, i)
    requires forall j :: i + |OPEN_TAG| <= j ==> !MatchesAt(s, CLOSE_TAG, j)
    ensures EndsWith(StripScripts(s), s[i..])
    decreases |s|
  {
    match FirstSpan(s)
    case NoSpan =>
    case Span(a, c, e) =>
      UnclosedAfterSpan(s, i, a, c, e);
      UnclosedScriptKept(s[e..], i - e);
      EndsWithAfterSpan(s, i, a, c, e);
  }

  /** The text left after the first span: the tail of a `<script` tag split around that span,
      then a closing tag. */
  const REST: string := "script" + CLOSE_TAG

  /** A text whose first span splits a second `<script` tag around itself. */
  const NESTED: string := "<" + OPEN_TAG + CLOSE_TAG + REST

  /** A position where `s` shows a character other than the pattern's rules out a match. */
  lemma CharOfMatchFails(s: string, pat: string, i: int, k: int)
    requires 0 <= k < |pat| && 0 <= i + k < |s| && FoldAscii(s[i + k]) != pat[k]
    ensures !MatchesAt(s, pat, i)
  {
  }

  /** No match at `from`: the search moves on. */
  lemma FirstMatchSkip(s: string, pat: string, from: nat)
    requires from + |pat| <= |s| && !MatchesAt(s, pat, from)
    ensures FirstMatch(s, pat, from) == FirstMatch(s, pat, from + 1)
  {
  }

  /** A match at `from` is the first one from there. */
  lemma FirstMatchHere(s: string, pat: string, from: nat)
    requires MatchesAt(s, pat, from)
    ensures FirstMatch(s, pat, from) == from
  {
  }

  /** A pattern without upper-case ASCII letters matches wherever it is written out. */
  lemma MatchesWhereWritten(p: string, pat: string, q: string)
    requires forall k :: 0 <= k < |pat| ==> FoldAscii(pat[k]) == pat[k]
    ensures MatchesAt(p + pat + q, pat, |p|)
  {
    var s := p + pat + q;
    forall k | 0 <= k < |pat| ensures s[|p| + k] == pat[k] {
    }
  }

  /** A match stays a match when text is appended. */
  lemma MatchesExtended(s: string, pat: string, i: int, x: string)
    requires MatchesAt(s, pat, i)
    ensures MatchesAt(s + x, pat, i)
  {
    forall k | i <= k < i + |pat| ensures (s + x)[k] == s[k] {
    }
  }

  lemma TagsAreLowerCase()
    ensures forall k :: 0 <= k < |OPEN_TAG| ==> FoldAscii(OPEN_TAG[k]) == OPEN_TAG[k]
    ensures forall k :: 0 <= k < |CLOSE_TAG| ==> FoldAscii(CLOSE_TAG[k]) == CLOSE_TAG[k]
  {
  }

  /** In `<` + `<script` + `</script>` + `x`, the first span is the two tags. */
  lemma SplitTagFirstSpan(x: string)
    ensures FirstSpan("<" + OPEN_TAG + CLOSE_TAG + x) == Span(1, 8, 17)
  {
    var s := "<" + OPEN_TAG + CLOSE_TAG + x;
    TagsAreLowerCase();
    assert FirstMatch(s, OPEN_TAG, 0) == 1 by {
      CharOfMatchFails(s, OPEN_TAG, 0, 1);
      FirstMatchSkip(s, OPEN_TAG, 0);
      MatchesWhereWritten("<", OPEN_TAG, CLOSE_TAG);
      MatchesExtended("<" + OPEN_TAG + CLOSE_TAG, OPEN_TAG, 1, x);
      FirstMatchHere(s, OPEN_TAG, 1);
    }
    assert FirstMatch(s, CLOSE_TAG, 8) == 8 by {
      MatchesWhereWritten("<" + OPEN_TAG, CLOSE_TAG, x);
      FirstMatchHere(s, CLOSE_TAG, 8);
    }
  }

  /** Stripping `<` + `<script` + `</script>` + `x` keeps the `<` and strips `x`. */
  lemma SplitTagStrip(x: string)
    ensures StripScripts("<" + OPEN_TAG + CLOSE_TAG + x) == "<" + StripScripts(x)
  {
    var s := "<" + OPEN_TAG + CLOSE_TAG + x;
    SplitTagFirstSpan(x);
    StripScriptsStep(s, 1, 8, 17);
    assert s[..1] == "<";
    assert s[17..] == x;
  }

  /** The rest holds no `<script` and so is left as it is. */
  lemma RestUntouched()
    ensures StripScripts(REST) == REST
  {
    forall j | 0 <= j ensures !MatchesAt(REST, OPEN_TAG, j) {
      if j + |OPEN_TAG| <= |REST| {
        if j == 6 {
          CharOfMatchFails(REST, OPEN_TAG, j, 1);
        } else {
          CharOfMatchFails(REST, OPEN_TAG, j, 0);
        }
      }
    }
    FirstMatchIsFirst(REST, OPEN_TAG, 0);
  }

  /** The two tags side by side form a closed span. */
  lemma TagsMakeSpan()
    ensures HasScriptSpan(OPEN_TAG + CLOSE_TAG)
  {
    TagsAreLowerCase();
    MatchesWhereWritten([], OPEN_TAG, CLOSE_TAG);
    MatchesWhereWritten(OPEN_TAG, CLOSE_TAG, []);
    assert [] + OPEN_TAG + CLOSE_TAG == OPEN_TAG + CLOSE_TAG + [] == OPEN_TAG + CLOSE_TAG;
  }

  /** The `<` left in front of the rest completes the split tag. */
  lemma SplitTagRejoined()
    ensures "<" + REST == OPEN_TAG + CLOSE_TAG
  {
    assert "<" + "script" == OPEN_TAG;
    assert "<" + ("script" + CLOSE_TAG) == ("<" + "script") + CLOSE_TAG;
  }

  /** One pass is not enough: a span hidden inside another reappears once the outer one is
      cut out, so the stored text can still hold a closed `<script` span. */
  lemma StripScriptsNotIdempotent()
    ensures StripScripts(NESTED) == OPEN_TAG + CLOSE_TAG
    ensures HasScriptSpan(StripScripts(NESTED))
  {
    SplitTagStrip(REST);
    RestUntouched();
    SplitTagRejoined();
    TagsMakeSpan();
  }

  /** What the form handler ends in. */
  datatype SaveOutcome = Saved | AuthFailed(failure: Auth.AuthFailure)

  /** `saveCustomCss`: require a session, then write the stripped text as the CSS of the
      session's DID, and of no other user. The session is the one the request had cached or,
      failing that, the one its signed cookie resolves to; the request is left as
      `requireAuth` leaves it. */
  method SaveCustomCss(ev: Auth.RequestEvent, deps: Auth.AuthDeps, db: Database, customCss: string,
                       now: int)
    returns (r: SaveOutcome)
    modifies ev, db`users
    ensures var a := Auth.Authenticate(old(ev.auth), deps, old(ev.cookies));
            && ev.auth == (if a.Success? then Some(a.value) else None)
            && ev.cookies == Auth.CookiesAfter(old(ev.auth), deps, old(ev.cookies))
            && (r.Saved? <==> a.Success?)
            && (r.AuthFailed? ==> a.Failure? && r.failure == a.error)
    ensures r.AuthFailed? ==> db.users == old(db.users)
    ensures r.Saved? ==>
              var did := Auth.Authenticate(old(ev.auth), deps, old(ev.cookies)).value.session.did;
              && db.users.Keys == old(db.users).Keys
              && (forall d :: d in db.users && d != did ==> db.users[d] == old(db.users)[d])
              && (did in db.users ==>
                    db.users[did] == old(db.users)[did].(customCss := Some(StripScripts(customCss)),
                                                          updatedAt := now))
    ensures Users.WellKeyed(old(db.users)) ==> Users.WellKeyed(db.users)
  {
    var auth := Auth.RequireAuth(ev, deps);
    if auth.Failure? {
      return AuthFailed(auth.error);
    }
    var sanitized := StripScripts(customCss);
    Users.UpdateUserCss(db, auth.value.session.did, Some(sanitized), now);
    r := Saved;
  }
}
