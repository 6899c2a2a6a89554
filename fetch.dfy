/**
  The redirect step of fetch.ts (`fetchRedirect`) and of download.py.

  The picture page is requested at a fixed prefix followed by the id; its
  body carries the picture's address after a `url=` key, up to the next `"`.
  Both programs find it with the regular expression `(?<=url=).*?(?=")`: the
  earliest position right after a `url=` from which a `"` can be reached
  without crossing a line break (the regular-expression `.` does not match
  one), and the shortest text up to that `"`. JavaScript and Python differ in
  what counts as a line break. fetch.ts then rejects the home-page address,
  which the service returns for an invalid id, and unescapes `&amp;`.
 */
module Fetch {
  import opened Wrappers
  import opened Strings

  /** The page that turns an id into the picture's address. */
  const Prefix: string := "https://m.facebook.com/photo/view_full_size/?fbid="

  /** The address the service sends an invalid id to. */
  const Home: string := "https://mbasic.facebook.com/home.php"

  /** The request made for an id: the prefix, then the id. */
  function RequestUrl(fbid: string): string {
    Prefix + fbid
  }

  datatype Dialect = JavaScript | Python

  /** The characters the regular-expression `.` does not match. */
  predicate LineBreak(d: Dialect, c: char) {
    c == '\n' || (d == JavaScript && (c == '\r' || c == '\U{2028}' || c == '\U{2029}'))
  }

  /** `url=` ends right before position `at`. */
  predicate KeyBefore(body: string, at: nat) {
    4 <= at <= |body| && body[at - 4..at] == "url="
  }

  /** No line break in `body[from..to]`: `.*` can cover it. */
  ghost predicate Reachable(d: Dialect, body: string, from: nat, to: nat)
    requires from <= to <= |body|
  {
    forall k :: from <= k < to ==> !LineBreak(d, body[k])
  }

  /** The pattern matches from `from` to `to`: after a `url=`, up to the first `"`, on one line. */
  ghost predicate MatchesAt(d: Dialect, body: string, from: nat, to: nat) {
    && from <= to < |body|
    && KeyBefore(body, from)
    && body[to] == '"'
    && Reachable(d, body, from, to)
    && '"' !in body[from..to]
  }

  /** The pattern matches from `from` to some `"`. */
  ghost predicate MatchesFrom(d: Dialect, body: string, from: nat) {
    from <= |body| && KeyBefore(body, from)
    && exists to :: from <= to < |body| && body[to] == '"' && Reachable(d, body, from, to)
  }

  /** The first `"` from `at` on, unless a line break comes first. */
  function QuoteAfter(d: Dialect, body: string, at: nat): (r: Option<nat>)
    requires at <= |body|
    ensures r.Some? ==> at <= r.value < |body| && body[r.value] == '"'
    decreases |body| - at
  {
    if at == |body| then None
    else if body[at] == '"' then Some(at)
    else if LineBreak(d, body[at]) then None
    else QuoteAfter(d, body, at + 1)
  }

  /** The leftmost match starting at `from` or later, as start and end positions. */
  function FirstMatch(d: Dialect, body: string, from: nat): (r: Option<(nat, nat)>)
    requires from <= |body|
    ensures r.Some? ==> from <= r.value.0 <= r.value.1 < |body| && KeyBefore(body, r.value.0)
    decreases |body| - from
  {
    var q := QuoteAfter(d, body, from);
    if KeyBefore(body, from) && q.Some? then Some((from, q.value))
    else if from == |body| then None
    else FirstMatch(d, body, from + 1)
  }

  /** `/(?<=url=).*?(?=")/.exec(body)` (or `re.search`): the matched text, if any. */
  function Extract(d: Dialect, body: string): Option<string> {
    match FirstMatch(d, body, 0)
    case None => None
    case Some((from, to)) => Some(body[from..to])
  }

  /** `QuoteAfter` finds the first `"` reachable from `at`, and finds none exactly when none is reachable. */
  lemma {:induction false} QuoteAfterSpec(d: Dialect, body: string, at: nat)
    requires at <= |body|
    ensures var r := QuoteAfter(d, body, at);
      && (r.Some? ==> (at <= r.value < |body| && body[r.value] == '"'
                       && Reachable(d, body, at, r.value) && '"' !in body[at..r.value]))
      && (r.None? ==> forall to :: at <= to < |body| && body[to] == '"' ==> !Reachable(d, body, at, to))
    decreases |body| - at
  {
    if at < |body| && body[at] != '"' && !LineBreak(d, body[at]) {
      QuoteAfterSpec(d, body, at + 1);
      var r := QuoteAfter(d, body, at + 1);
      if r.Some? {
        assert body[at..r.value] == [body[at]] + body[at + 1..r.value];
      } else {
        forall to | at <= to < |body| && body[to] == '"' ensures !Reachable(d, body, at, to) {
          if to > at {
            assert !Reachable(d, body, at + 1, to);
          }
        }
      }
    } else if at < |body| && body[at] == '"' {
      assert body[at..at] == [];
    }
  }

  /** `FirstMatch` finds the leftmost position from `from` on at which the pattern matches, and its end. */
  lemma {:induction false} FirstMatchSpec(d: Dialect, body: string, from: nat)
    requires from <= |body|
    ensures var r := FirstMatch(d, body, from);
      && (r.Some? ==> (from <= r.value.0 && MatchesAt(d, body, r.value.0, r.value.1)
                       && forall p :: from <= p < r.value.0 ==> !MatchesFrom(d, body, p)))
      && (r.None? ==> forall p :: from <= p <= |body| ==> !MatchesFrom(d, body, p))
    decreases |body| - from
  {
    QuoteAfterSpec(d, body, from);
    if from < |body| {
      FirstMatchSpec(d, body, from + 1);
    }
  }

  /** The match holds no `"` and no line break, and there is none exactly when the pattern matches nowhere. */
  lemma ExtractSpec(d: Dialect, body: string)
    ensures var r := Extract(d, body);
      && (r.Some? ==> '"' !in r.value && forall k :: 0 <= k < |r.value| ==> !LineBreak(d, r.value[k]))
      && (r.None? <==> forall p :: 0 <= p <= |body| ==> !MatchesFrom(d, body, p))
  {
    FirstMatchSpec(d, body, 0);
    var m := FirstMatch(d, body, 0);
    if m.Some? {
      var (from, to) := m.value;
      assert MatchesFrom(d, body, from);
      forall k | 0 <= k < to - from ensures !LineBreak(d, body[from..to][k]) {
        assert body[from..to][k] == body[from + k];
      }
    }
  }

  /** `s.replace(/&amp;/g, '&')`: every `&amp;`, left to right and not overlapping, becomes `&`. */
  function Unescape(s: string): (r: string)
    ensures |r| <= |s|
    decreases |s|
  {
    if |s| >= 5 && s[..5] == "&amp;" then "&" + Unescape(s[5..])
    else if s == [] then []
    else [s[0]] + Unescape(s[1..])
  }

  /** Every `&` written as `&amp;`: the escaping that `Unescape` undoes. */
  function Escape(s: string): string
    decreases |s|
  {
    if s == [] then [] else (if s[0] == '&' then "&amp;" else [s[0]]) + Escape(s[1..])
  }

  /**
    fetchRedirect after the page is fetched: nothing when the pattern does not
    match or matches the home-page address, else the match unescaped. A
    returned address is never the home page.
   */
  function RedirectTarget(body: string): (r: Option<string>)
    ensures r.None? <==> Extract(JavaScript, body) in {None, Some(Home)}
    ensures r.Some? ==> r.value == Unescape(Extract(JavaScript, body).value) && r.value != Home
  {
    match Extract(JavaScript, body)
    case None => None
    case Some(found) =>
      if found == Home then None
      else
        UnescapeIsHome(found);
        Some(Unescape(found))
  }

  /** download.py's redirect step: the match unescaped, with no home-page check; `None` stops the script. */
  function LegacyRedirectTarget(body: string): (r: Option<string>)
    ensures r.None? <==> Extract(Python, body).None?
    ensures r.Some? ==> r.value == Unescape(Extract(Python, body).value)
  {
    match Extract(Python, body)
    case None => None
    case Some(found) => Some(Unescape(found))
  }

  // ---------------------------------------------------------------------------
  // Properties

  /** Unescaping leaves a text without `&` alone. */
  lemma {:induction false} UnescapeWithoutAmp(s: string)
    requires '&' !in s
    ensures Unescape(s) == s
    decreases |s|
  {
    if s != [] {
      assert s[0] != '&';
      UnescapeWithoutAmp(s[1..]);
    }
  }

  /** Unescaping keeps every `&` there is and makes none where there was none. */
  lemma {:induction false} UnescapeKeepsAmp(s: string)
    ensures '&' in Unescape(s) <==> '&' in s
    decreases |s|
  {
    if |s| >= 5 && s[..5] == "&amp;" {
      assert s[0] == '&';
      assert '&' in Unescape(s) by {
        assert Unescape(s)[0] == '&';
      }
    } else if s != [] {
      UnescapeKeepsAmp(s[1..]);
      assert s == [s[0]] + s[1..];
    }
  }

  /**
    Checking for the home page before or after unescaping comes to the same:
    the home-page address has no `&`, and unescaping keeps `&`s.
   */
  lemma UnescapeIsHome(found: string)
    ensures Unescape(found) == Home <==> found == Home
  {
    assert '&' !in Home by {
      forall k | 0 <= k < |Home| ensures Home[k] != '&' {}
    }
    if '&' in found {
      UnescapeKeepsAmp(found);
    } else {
      UnescapeWithoutAmp(found);
    }
  }

  /** Unescaping undoes escaping. */
  lemma {:induction false} UnescapeEscape(s: string)
    ensures Unescape(Escape(s)) == s
    decreases |s|
  {
    if s != [] {
      var rest := Escape(s[1..]);
      UnescapeEscape(s[1..]);
      if s[0] == '&' {
        assert Escape(s) == "&amp;" + rest;
        assert (Escape(s))[..5] == "&amp;" && (Escape(s))[5..] == rest;
      } else {
        assert Escape(s) == [s[0]] + rest;
        assert (Escape(s))[1..] == rest;
        assert |Escape(s)| >= 5 ==> Escape(s)[0] != '&';
      }
    }
  }

  /** One pass only: `&amp;amp;` becomes `&amp;`, not `&`. */
  lemma UnescapeOnce()
    ensures Unescape("&amp;amp;") == "&amp;"
  {
    assert "&amp;amp;"[..5] == "&amp;";
    assert "&amp;amp;"[5..] == "amp;";
    UnescapeWithoutAmp("amp;");
  }

  /** The home-page sentinel is rejected. */
  lemma HomeIsRejected(body: string)
    requires Extract(JavaScript, body) == Some(Home)
    ensures RedirectTarget(body) == None
  {
  }

  lemma {:induction false} QuoteAfterAgrees(body: string, at: nat)
    requires at <= |body|
    requires forall k :: 0 <= k < |body| ==> (LineBreak(JavaScript, body[k]) <==> LineBreak(Python, body[k]))
    ensures QuoteAfter(JavaScript, body, at) == QuoteAfter(Python, body, at)
    decreases |body| - at
  {
    if at < |body| {
      QuoteAfterAgrees(body, at + 1);
    }
  }

  lemma {:induction false} FirstMatchAgrees(body: string, from: nat)
    requires from <= |body|
    requires forall k :: 0 <= k < |body| ==> (LineBreak(JavaScript, body[k]) <==> LineBreak(Python, body[k]))
    ensures FirstMatch(JavaScript, body, from) == FirstMatch(Python, body, from)
    decreases |body| - from
  {
    QuoteAfterAgrees(body, from);
    if from < |body| {
      FirstMatchAgrees(body, from + 1);
    }
  }

  /**
    On a body without `\r`, U+2028 or U+2029 the two scripts extract the same
    text; fetch.ts alone then turns the home-page address away.
   */
  lemma DialectsAgree(body: string)
    requires forall k :: 0 <= k < |body| ==> body[k] != '\r' && body[k] != '\U{2028}' && body[k] != '\U{2029}'
    ensures Extract(JavaScript, body) == Extract(Python, body)
    ensures Extract(JavaScript, body) != Some(Home) ==> RedirectTarget(body) == LegacyRedirectTarget(body)
  {
    FirstMatchAgrees(body, 0);
  }

  /** A `\r` ends the JavaScript match but not the Python one. */
  lemma CarriageReturnDiffers()
    ensures Extract(JavaScript, "url=a\r\"") == None
    ensures Extract(Python, "url=a\r\"") == Some("a\r")
  {
    var body := "url=a\r\"";
    assert KeyBefore(body, 4);
    assert Reachable(Python, body, 4, 6);
    assert QuoteAfter(Python, body, 4) == Some(6);
    forall p | 0 <= p <= |body|
      ensures !MatchesFrom(JavaScript, body, p)
    {
      if KeyBefore(body, p) {
        assert p == 4;
        forall to | 4 <= to < |body| && body[to] == '"'
          ensures !Reachable(JavaScript, body, 4, to)
        {
          assert LineBreak(JavaScript, body[5]);
        }
      }
    }
    assert FirstMatch(Python, body, 4) == Some((4, 6));
    assert !KeyBefore(body, 3);
    assert FirstMatch(Python, body, 3) == Some((4, 6));
    assert !KeyBefore(body, 2);
    assert FirstMatch(Python, body, 2) == Some((4, 6));
    assert !KeyBefore(body, 1);
    assert FirstMatch(Python, body, 1) == Some((4, 6));
    assert !KeyBefore(body, 0);
    assert FirstMatch(Python, body, 0) == Some((4, 6));
    assert body[4..6] == "a\r";
  }
}
