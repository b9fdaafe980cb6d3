// The URL handling rajce.py relies on: Python's urllib.parse.urlsplit and the
// path of urlparse (as of Python 3.12), the album/gallery test of download
// (rajce.py:175-176), and the credential recovery of getUrl (rajce.py:111-113).

module Urls {
  import opened Text

  /** The five parts urlsplit returns. */
  datatype UrlParts = UrlParts(scheme: string, netloc: string, path: string, query: string, fragment: string)

  /** `_WHATWG_C0_CONTROL_OR_SPACE`: the characters with codes 0 to 32, removed from the front of a URL. */
  const C0_CONTROL_OR_SPACE: set<char> := set i: int | 0 <= i <= 32 :: i as char

  /** `_UNSAFE_URL_BYTES_TO_REMOVE`: tab, carriage return and newline are deleted everywhere. */
  const UNSAFE: set<char> := {'\t', '\r', '\n'}

  predicate IsAsciiLetter(c: char)
  {
    'a' <= c <= 'z' || 'A' <= c <= 'Z'
  }

  /** `scheme_chars`: letters, digits and `+-.` */
  predicate IsSchemeChar(c: char)
  {
    IsAsciiLetter(c) || '0' <= c <= '9' || c == '+' || c == '-' || c == '.'
  }

  /** `str.lower` on the characters a scheme can hold. */
  function LowerChar(c: char): (r: char)
    ensures !('A' <= r <= 'Z')
    ensures !('A' <= c <= 'Z') ==> r == c
  {
    if 'A' <= c <= 'Z' then (c as int + 32) as char else c
  }

  function Lower(s: string): string
  {
    seq(|s|, i requires 0 <= i < |s| => LowerChar(s[i]))
  }

  /** The URL after `lstrip(_WHATWG_C0_CONTROL_OR_SPACE)` and the removal of tab, CR and LF. */
  function Sanitize(url: string): string
  {
    var u := StripLeft(url, C0_CONTROL_OR_SPACE);
    Delete(Delete(Delete(u, '\t'), '\r'), '\n')
  }

  /** Sanitizing only removes characters, and leaves no tab, CR or LF. */
  lemma SanitizeSpec(url: string)
    ensures forall c :: c in Sanitize(url) ==> c in url && c !in UNSAFE
  {
    var u := StripLeft(url, C0_CONTROL_OR_SPACE);
    StripLeftSpec(url, C0_CONTROL_OR_SPACE);
    DeleteSpec(u, '\t');
    DeleteSpec(Delete(u, '\t'), '\r');
    DeleteSpec(Delete(Delete(u, '\t'), '\r'), '\n');
    assert forall c :: c in u ==> c in url;
  }

  /**
   * The scheme test: the text before the first `:` is a scheme when it is
   * non-empty, starts with an ASCII letter and holds only scheme characters.
   */
  predicate HasScheme(u: string)
  {
    var i := FindFirst(u, {':'}, 0);
    0 < i < |u| && IsAsciiLetter(u[0]) && forall j :: 0 <= j < i ==> IsSchemeChar(u[j])
  }

  /** The lower-cased scheme and the rest after its `:`, or no scheme and all of `u`. */
  function SplitScheme(u: string): (string, string)
  {
    if HasScheme(u) then
      var i := FindFirst(u, {':'}, 0);
      (Lower(u[..i]), u[i + 1..])
    else ([], u)
  }

  /** With a scheme, `u` is the scheme as written, `:`, and the rest, and the scheme comes back lower-cased; without one, all of `u` is the rest. */
  lemma SplitSchemeSpec(u: string)
    ensures var r := SplitScheme(u);
      && (HasScheme(u) ==> 0 < |r.0| < |u| && u == u[..|r.0|] + ":" + r.1 && r.0 == Lower(u[..|r.0|]))
      && (!HasScheme(u) ==> r == ([], u))
  {
    if HasScheme(u) {
      var i := FindFirst(u, {':'}, 0);
      FindFirstSpec(u, {':'}, 0);
      assert u == u[..i] + ":" + u[i + 1..];
    }
  }

  /** After a leading `//` the network location runs up to the first `/`, `?` or `#`. */
  function SplitNetloc(rest: string): (string, string)
  {
    if |rest| >= 2 && rest[..2] == "//" then
      var d := FindFirst(rest, {'/', '?', '#'}, 2);
      (rest[2..d], rest[d..])
    else ([], rest)
  }

  /** The network location holds none of `/?#`; after `//` it and the tail make up the rest, the tail starting with one of them. */
  lemma SplitNetlocSpec(rest: string)
    ensures var r := SplitNetloc(rest);
      && '/' !in r.0 && '?' !in r.0 && '#' !in r.0
      && (|rest| >= 2 && rest[..2] == "//" ==> rest == "//" + r.0 + r.1 && (r.1 != [] ==> r.1[0] in {'/', '?', '#'}))
      && (!(|rest| >= 2 && rest[..2] == "//") ==> r == ([], rest))
  {
    if |rest| >= 2 && rest[..2] == "//" {
      var d := FindFirst(rest, {'/', '?', '#'}, 2);
      FindFirstSpec(rest, {'/', '?', '#'}, 2);
      assert rest == rest[..2] + rest[2..d] + rest[d..];
      assert forall j :: 0 <= j < d - 2 ==> rest[2..d][j] == rest[j + 2];
    }
  }

  /** `s.split(c, 1)` when `c in s`; otherwise `s` and the empty text. */
  function SplitAt(s: string, c: char): (string, string)
  {
    var i := FindFirst(s, {c}, 0);
    if i < |s| then (s[..i], s[i + 1..]) else (s, [])
  }

  /** The first part holds no `c`; with a `c` the parts and it make up `s`, without one the first part is all of `s`. */
  lemma SplitAtSpec(s: string, c: char)
    ensures var r := SplitAt(s, c);
      && c !in r.0
      && (c in s ==> s == r.0 + [c] + r.1)
      && (c !in s ==> r == (s, []))
  {
    var i := FindFirst(s, {c}, 0);
    FindFirstSpec(s, {c}, 0);
    assert forall j :: 0 <= j < i ==> s[..i][j] == s[j];
    if i < |s| {
      assert s == s[..i] + [c] + s[i + 1..];
    }
  }

  /** `urllib.parse.urlsplit(url)` */
  function SplitUrl(url: string): UrlParts
  {
    var u := Sanitize(url);
    var (scheme, rest) := SplitScheme(u);
    var (netloc, rest) := SplitNetloc(rest);
    var (rest, fragment) := SplitAt(rest, '#');
    var (path, query) := SplitAt(rest, '?');
    UrlParts(scheme, netloc, path, query, fragment)
  }

  /** urlsplit's parts hold no delimiter of a later part. */
  lemma SplitUrlSpec(url: string)
    ensures var r := SplitUrl(url);
      && '/' !in r.netloc && '?' !in r.netloc && '#' !in r.netloc
      && '?' !in r.path && '#' !in r.path && '#' !in r.query
  {
    var u := Sanitize(url);
    var (scheme, rest) := SplitScheme(u);
    SplitNetlocSpec(rest);
    var (netloc, rest2) := SplitNetloc(rest);
    SplitAtSpec(rest2, '#');
    var (rest3, fragment) := SplitAt(rest2, '#');
    SplitAtSpec(rest3, '?');
    assert forall c :: c in SplitAt(rest3, '?').0 ==> c in rest3;
  }

  /** `s.rfind(c)`, with None for -1. */
  function FindLast(s: string, c: char): (r: Option<nat>)
    ensures r.Some? ==> r.value < |s|
    decreases |s|
  {
    if s == [] then None
    else if s[|s| - 1] == c then Some(|s| - 1)
    else FindLast(s[..|s| - 1], c)
  }

  /** rfind finds the last `c`, and -1 only when there is none. */
  lemma {:induction false} FindLastSpec(s: string, c: char)
    ensures var r := FindLast(s, c);
      && (r.Some? ==> s[r.value] == c && forall j :: r.value < j < |s| ==> s[j] != c)
      && (r.None? ==> c !in s)
    decreases |s|
  {
    if s != [] && s[|s| - 1] != c {
      FindLastSpec(s[..|s| - 1], c);
      assert forall j :: 0 <= j < |s| - 1 ==> s[..|s| - 1][j] == s[j];
      assert s == s[..|s| - 1] + [s[|s| - 1]];
    }
  }

  /**
   * `_splitparams(path)[0]`: the path without the `;params` of its last
   * segment, which start at the first `;` after the last `/`.
   */
  function WithoutParams(path: string): string
  {
    var start := match FindLast(path, '/') case Some(l) => l case None => 0;
    path[..FindFirst(path, {';'}, start)]
  }

  /**
   * The path is cut at the first `;` after its last `/` (after its start
   * when it has no `/`), or kept whole when there is no such `;`.
   */
  lemma WithoutParamsSpec(path: string)
    ensures var r := WithoutParams(path);
      var start := match FindLast(path, '/') case Some(l) => l case None => 0;
      && start <= |r| <= |path| && r == path[..|r|]
      && (|r| < |path| ==> path[|r|] == ';')
      && (forall j :: start <= j < |r| ==> path[j] != ';')
      && (forall j :: |r| <= j < |path| ==> path[j] != '/')
      && (';' !in path ==> r == path)
  {
    FindLastSpec(path, '/');
    var start := match FindLast(path, '/') case Some(l) => l case None => 0;
    FindFirstSpec(path, {';'}, start);
  }

  /** `uses_params`: the schemes whose URLs urlparse splits `;params` from. */
  const USES_PARAMS: set<string> :=
    {"", "ftp", "hdl", "prospero", "http", "imap", "https", "shttp", "rtsp", "rtsps", "rtspu", "sip", "sips", "mms", "sftp", "tel"}

  /** `urllib.parse.urlparse(url).path` */
  function ParsedPath(url: string): (r: string)
    ensures |r| <= |SplitUrl(url).path| && r == SplitUrl(url).path[..|r|]
  {
    var parts := SplitUrl(url);
    if parts.scheme in USES_PARAMS then WithoutParams(parts.path) else parts.path
  }

  /** rajce.py:175-176: a URL names a single album exactly when its path holds a character other than `/`. */
  predicate IsAlbumUrl(url: string)
    ensures IsAlbumUrl(url) ==> ParsedPath(url) != []
  {
    Strip(ParsedPath(url), {'/'}) != []
  }

  lemma AlbumUrlPath(url: string)
    ensures IsAlbumUrl(url) <==> exists i :: 0 <= i < |ParsedPath(url)| && ParsedPath(url)[i] != '/'
  {
    StripSpec(ParsedPath(url), {'/'});
  }

  // ---------------------------------------------------------------------
  // Putting the parts together again

  predicate NoneOf(s: string, cs: set<char>)
  {
    forall c :: c in s ==> c !in cs
  }

  /** Parts that urlsplit reproduces from their composition. */
  predicate WellFormed(p: UrlParts)
  {
    && p.scheme != [] && 'a' <= p.scheme[0] <= 'z'
    && (forall c :: c in p.scheme ==> IsSchemeChar(c) && !('A' <= c <= 'Z'))
    && NoneOf(p.netloc, UNSAFE + {'/', '?', '#'})
    && NoneOf(p.path, UNSAFE + {'?', '#'}) && (p.path == [] || p.path[0] == '/')
    && NoneOf(p.query, UNSAFE + {'#'})
    && NoneOf(p.fragment, UNSAFE)
  }

  function QueryPart(p: UrlParts): string
  {
    if p.query == [] then [] else "?" + p.query
  }

  function FragmentPart(p: UrlParts): string
  {
    if p.fragment == [] then [] else "#" + p.fragment
  }

  /** What follows the network location: the path, then `?query` and `#fragment` when they are non-empty. */
  function Tail(p: UrlParts): string
  {
    p.path + QueryPart(p) + FragmentPart(p)
  }

  /** `scheme://netloc path ?query #fragment`, leaving out an empty query or fragment with its delimiter. */
  function Compose(p: UrlParts): string
  {
    p.scheme + "://" + p.netloc + Tail(p)
  }

  lemma SanitizeClean(u: string)
    requires u != [] && u[0] !in C0_CONTROL_OR_SPACE && NoneOf(u, UNSAFE)
    ensures Sanitize(u) == u
  {
    DeleteSpec(u, '\t');
    DeleteSpec(u, '\r');
    DeleteSpec(u, '\n');
  }

  lemma SchemeOf(scheme: string, rest: string)
    requires scheme != [] && IsAsciiLetter(scheme[0])
    requires forall c :: c in scheme ==> IsSchemeChar(c) && !('A' <= c <= 'Z')
    ensures SplitScheme(scheme + ":" + rest) == (scheme, rest)
  {
    var u := scheme + ":" + rest;
    assert forall j :: 0 <= j < |scheme| ==> u[j] == scheme[j] && scheme[j] in scheme;
    FindFirstIs(u, {':'}, 0, |scheme|);
    assert u[..|scheme|] == scheme;
    assert Lower(scheme) == scheme;
    assert u[|scheme| + 1..] == rest;
  }

  lemma NetlocOf(netloc: string, tail: string)
    requires NoneOf(netloc, {'/', '?', '#'})
    requires tail != [] ==> tail[0] in {'/', '?', '#'}
    ensures SplitNetloc("//" + netloc + tail) == (netloc, tail)
  {
    var rest := "//" + netloc + tail;
    assert rest[..2] == "//";
    assert forall j :: 2 <= j < 2 + |netloc| ==> rest[j] == netloc[j - 2] && netloc[j - 2] in netloc;
    FindFirstIs(rest, {'/', '?', '#'}, 2, 2 + |netloc|);
    assert rest[2..2 + |netloc|] == netloc;
    assert rest[2 + |netloc|..] == tail;
  }

  lemma SplitAtOf(a: string, c: char, b: string)
    requires c !in a
    ensures SplitAt(a + [c] + b, c) == (a, b)
  {
    var s := a + [c] + b;
    assert forall j :: 0 <= j < |a| ==> s[j] == a[j] && a[j] in a;
    FindFirstIs(s, {c}, 0, |a|);
    assert s[..|a|] == a && s[|a| + 1..] == b;
  }

  /** The fragment and then the query come off the tail as they were put on. */
  lemma TailSplits(p: UrlParts)
    requires WellFormed(p)
    ensures SplitAt(Tail(p), '#') == (p.path + QueryPart(p), p.fragment)
    ensures SplitAt(p.path + QueryPart(p), '?') == (p.path, p.query)
  {
    FragmentSplits(p);
    QuerySplits(p);
  }

  lemma FragmentSplits(p: UrlParts)
    requires WellFormed(p)
    ensures SplitAt(Tail(p), '#') == (p.path + QueryPart(p), p.fragment)
  {
    var pq := p.path + QueryPart(p);
    assert '#' !in pq;
    if p.fragment == [] {
      assert Tail(p) == pq;
      SplitAtSpec(pq, '#');
    } else {
      assert Tail(p) == pq + ['#'] + p.fragment;
      SplitAtOf(pq, '#', p.fragment);
    }
  }

  lemma QuerySplits(p: UrlParts)
    requires WellFormed(p)
    ensures SplitAt(p.path + QueryPart(p), '?') == (p.path, p.query)
  {
    if p.query == [] {
      assert p.path + QueryPart(p) == p.path;
      SplitAtSpec(p.path, '?');
    } else {
      assert p.path + QueryPart(p) == p.path + ['?'] + p.query;
      SplitAtOf(p.path, '?', p.query);
    }
  }

  lemma ComposeClean(p: UrlParts)
    requires WellFormed(p)
    ensures Compose(p)[0] == p.scheme[0] && NoneOf(Compose(p), UNSAFE)
  {
    assert NoneOf(Tail(p), UNSAFE);
    assert forall c :: c in p.scheme ==> c !in UNSAFE;
  }

  lemma TailStart(p: UrlParts)
    requires WellFormed(p)
    ensures Tail(p) != [] ==> Tail(p)[0] in {'/', '?', '#'}
  {
  }

  /** SplitUrl in terms of its stages. */
  lemma SplitUrlStages(url: string, rest: string, tail: string, pq: string, p: UrlParts)
    requires SplitScheme(Sanitize(url)) == (p.scheme, rest)
    requires SplitNetloc(rest) == (p.netloc, tail)
    requires SplitAt(tail, '#') == (pq, p.fragment)
    requires SplitAt(pq, '?') == (p.path, p.query)
    ensures SplitUrl(url) == p
  {
  }

  /** urlsplit gives back the parts of a well-formed composed URL. */
  lemma SplitCompose(p: UrlParts)
    requires WellFormed(p)
    ensures SplitUrl(Compose(p)) == p
  {
    var rest := "//" + p.netloc + Tail(p);
    ComposeSanitized(p);
    ComposeScheme(p);
    TailStart(p);
    NetlocOf(p.netloc, Tail(p));
    TailSplits(p);
    SplitUrlStages(Compose(p), rest, Tail(p), p.path + QueryPart(p), p);
  }

  lemma ComposeSanitized(p: UrlParts)
    requires WellFormed(p)
    ensures Sanitize(Compose(p)) == Compose(p)
  {
    ComposeClean(p);
    SanitizeClean(Compose(p));
  }

  lemma ComposeScheme(p: UrlParts)
    requires WellFormed(p)
    ensures SplitScheme(Compose(p)) == (p.scheme, "//" + p.netloc + Tail(p))
  {
    var rest := "//" + p.netloc + Tail(p);
    assert Compose(p) == p.scheme + ":" + rest;
    SchemeOf(p.scheme, rest);
  }

  // ---------------------------------------------------------------------
  // getUrl: `re.search('login=(.+)&password=(.+)', url)` (rajce.py:112-113)

  /**
   * The pattern matches at `p` with a login group of `k` characters; the
   * password group needs at least one character, and `.` is any character
   * but a newline.
   */
  predicate CredMatchAt(s: string, p: nat, k: nat)
  {
    var q := p + 6 + k + 10;
    && 1 <= k
    && q < |s|
    && OccursAt(s, "login=", p)
    && '\n' !in s[p + 6..p + 6 + k]
    && OccursAt(s, "&password=", p + 6 + k)
    && s[q] != '\n'
  }

  /** The greedy login group: the longest length, at most `k`, that lets the pattern match at `p`. */
  function LongestLogin(s: string, p: nat, k: nat): (r: Option<nat>)
    ensures r.Some? ==> CredMatchAt(s, p, r.value)
    decreases k
  {
    if k == 0 then None
    else if CredMatchAt(s, p, k) then Some(k)
    else LongestLogin(s, p, k - 1)
  }

  /** LongestLogin finds the greatest login length up to `k` at which the pattern matches, and None only when there is none. */
  lemma {:induction false} LongestLoginSpec(s: string, p: nat, k: nat)
    ensures var r := LongestLogin(s, p, k);
      && (r.Some? ==> r.value <= k && CredMatchAt(s, p, r.value))
      && (r.Some? ==> forall j :: r.value < j <= k ==> !CredMatchAt(s, p, j))
      && (r.None? ==> forall j: nat :: j <= k ==> !CredMatchAt(s, p, j))
    decreases k
  {
    if k > 0 && !CredMatchAt(s, p, k) {
      LongestLoginSpec(s, p, k - 1);
      var r := LongestLogin(s, p, k - 1);
      assert LongestLogin(s, p, k) == r;
      forall j: nat | j <= k && (r.Some? ==> r.value < j) ensures !CredMatchAt(s, p, j) {
        assert j == k || j <= k - 1;
      }
    }
  }

  /** The leftmost start from `p` on at which the pattern matches, with its greedy login length. */
  function CredSearch(s: string, p: nat): (r: Option<(nat, nat)>)
    ensures r.Some? ==> CredMatchAt(s, r.value.0, r.value.1)
    decreases |s| + 1 - p
  {
    if p > |s| then None
    else match LongestLogin(s, p, |s|)
      case Some(k) => Some((p, k))
      case None => CredSearch(s, p + 1)
  }

  /** CredSearch finds the leftmost start from `p` on and, there, the longest login; None only when nothing matches. */
  lemma {:induction false} CredSearchSpec(s: string, p: nat)
    ensures var r := CredSearch(s, p);
      && (r.Some? ==> p <= r.value.0 && CredMatchAt(s, r.value.0, r.value.1))
      && (r.Some? ==> forall q: nat, j: nat :: p <= q < r.value.0 ==> !CredMatchAt(s, q, j))
      && (r.Some? ==> forall j: nat :: r.value.1 < j ==> !CredMatchAt(s, r.value.0, j))
      && (r.None? ==> forall q: nat, j: nat :: p <= q ==> !CredMatchAt(s, q, j))
    decreases |s| + 1 - p
  {
    if p <= |s| {
      var n := LongestLogin(s, p, |s|);
      LongestLoginSpec(s, p, |s|);
      assert forall j: nat :: |s| < j ==> !CredMatchAt(s, p, j);
      if n.None? {
        CredSearchSpec(s, p + 1);
        var r := CredSearch(s, p + 1);
        assert CredSearch(s, p) == r;
        forall q: nat, j: nat | p <= q && (r.Some? ==> q < r.value.0) ensures !CredMatchAt(s, q, j) {
          if q == p {
            assert j <= |s| || |s| < j;
          }
        }
      } else {
        assert CredSearch(s, p) == Some((p, n.value));
      }
    } else {
      assert forall q: nat, j: nat :: p <= q ==> !CredMatchAt(s, q, j);
    }
  }

  /** Groups 1 and 2 of the credential pattern: the greedy password group runs to the end of the line. */
  function Credentials(url: string): Option<(string, string)>
  {
    match CredSearch(url, 0)
    case None => None
    case Some((p, k)) => Some(Groups(url, p, k))
  }

  /** The two groups of a match at `p` with a login of `k` characters: the password group stops at the first newline. */
  function Groups(url: string, p: nat, k: nat): (string, string)
    requires p + 6 + k + 10 <= |url|
  {
    var q := p + 6 + k + 10;
    (url[p + 6..p + 6 + k], url[q..FindFirst(url, {'\n'}, q)])
  }

  /** With no newline after the login, the password group is the rest of the text. */
  lemma GroupsToEnd(s: string, p: nat, k: nat)
    requires p + 6 + k + 10 <= |s| && '\n' !in s[p + 6 + k + 10..]
    ensures Groups(s, p, k) == (s[p + 6..p + 6 + k], s[p + 6 + k + 10..])
  {
    var q := p + 6 + k + 10;
    var tail := s[q..];
    forall j | q <= j < |s| ensures s[j] != '\n' {
      assert s[j] == tail[j - q];
    }
    FindFirstIs(s, {'\n'}, q, |s|);
    assert s[q..FindFirst(s, {'\n'}, q)] == tail;
  }

  /** The pattern is found exactly when it matches somewhere, and both groups are non-empty lines. */
  lemma CredentialsSpec(url: string)
    ensures var r := Credentials(url);
      && (r.Some? <==> exists p: nat, k: nat :: CredMatchAt(url, p, k))
      && (r.Some? ==> |r.value.0| > 0 && |r.value.1| > 0 && '\n' !in r.value.0 && '\n' !in r.value.1)
  {
    CredSearchSpec(url, 0);
    if CredSearch(url, 0).Some? {
      var (p, k) := CredSearch(url, 0).value;
      FindFirstSpec(url, {'\n'}, p + 6 + k + 10);
      assert Credentials(url).value == Groups(url, p, k);
    }
  }

  /**
   * The request getUrl sends: the URL and the form it encodes as the body.
   * The body is given even when the form is empty (it is then `b''`), so
   * every request is a POST; the form is `login`/`code` when the credential
   * pattern matches and empty otherwise.
   */
  datatype Request = Request(url: string, form: seq<(string, string)>)

  function GetUrlRequest(url: string): Request
  {
    match Credentials(url)
    case None => Request(url, [])
    case Some((login, password)) => Request(url, [("login", login), ("code", password)])
  }

  /** getUrl posts to the URL itself, and the form it posts is non-empty exactly when the credential pattern matches somewhere in it. */
  lemma GetUrlRequestSpec(url: string)
    ensures GetUrlRequest(url).url == url
    ensures GetUrlRequest(url).form == [] <==> !exists p: nat, k: nat :: CredMatchAt(url, p, k)
  {
    CredentialsSpec(url);
  }

  /** The login pattern cannot start before the `login=` that follows `base + "/?"` when `base` holds none. */
  lemma NoLoginBefore(base: string, rest: string, q: nat)
    requires !Contains(base, "login=") && q < |base| + 2
    ensures !OccursAt(base + "/?" + rest, "login=", q)
  {
    var s := base + "/?" + rest;
    if q + 6 <= |s| {
      if q + 6 <= |base| {
        assert s[q..q + 6] == base[q..q + 6];
        assert !OccursAt(base, "login=", q);
      } else {
        var m := if q <= |base| then |base| else |base| + 1;
        assert s[m] in "/?";
        assert s[q..q + 6][m - q] == s[m];
      }
    }
  }

  /** No `&password=` starts after the one that ends the login, when the password holds none. */
  lemma NoLaterPassword(head: string, password: string, t: nat)
    requires !Contains(password, "&password=") && |head| < t
    ensures !OccursAt(head + "&password=" + password, "&password=", t)
  {
    var s := head + "&password=" + password;
    if t + 10 <= |s| {
      if t < |head| + 10 {
        assert s[t] == "&password="[t - |head|];
        assert s[t..t + 10][0] == s[t];
      } else {
        var o := t - |head| - 10;
        assert s[|head| + 10..] == password;
        assert s[t..t + 10] == s[|head| + 10..][o..o + 10];
        assert !OccursAt(password, "&password=", o);
      }
    }
  }

  /** The contract of CredSearch determines its result. */
  lemma CredSearchIs(s: string, p: nat, k: nat)
    requires CredMatchAt(s, p, k)
    requires forall r: nat :: r < p ==> !OccursAt(s, "login=", r)
    requires forall t: nat :: p + 6 + k < t ==> !OccursAt(s, "&password=", t)
    ensures CredSearch(s, 0) == Some((p, k))
  {
    var m := CredSearch(s, 0);
    CredSearchSpec(s, 0);
    assert m.value.0 == p;
    assert OccursAt(s, "&password=", p + 6 + m.value.1);
  }

  /** The pieces of the URL rajce.py:99 builds, where the pattern finds them. */
  lemma BuiltUrl(base: string, login: string, password: string)
    ensures var s := base + "/?login=" + login + "&password=" + password;
      var p, k := |base| + 2, |login|;
      && |s| == p + 6 + k + 10 + |password|
      && s[p..p + 6] == "login=" && s[p + 6..p + 6 + k] == login
      && s[p + 6 + k..p + 6 + k + 10] == "&password=" && s[p + 6 + k + 10..] == password
  {
  }

  lemma BuiltMatch(base: string, login: string, password: string)
    requires |login| > 0 && |password| > 0 && '\n' !in login && '\n' !in password
    ensures CredMatchAt(base + "/?login=" + login + "&password=" + password, |base| + 2, |login|)
  {
    var s := base + "/?login=" + login + "&password=" + password;
    BuiltUrl(base, login, password);
    assert password[0] == s[|base| + 2 + 6 + |login| + 10];
  }

  lemma BuiltNoEarlierLogin(base: string, login: string, password: string)
    requires !Contains(base, "login=")
    ensures var s := base + "/?login=" + login + "&password=" + password;
      forall r: nat :: r < |base| + 2 ==> !OccursAt(s, "login=", r)
  {
    var s := base + "/?login=" + login + "&password=" + password;
    assert s == base + "/?" + ("login=" + login + "&password=" + password);
    forall r: nat | r < |base| + 2 ensures !OccursAt(s, "login=", r) {
      NoLoginBefore(base, "login=" + login + "&password=" + password, r);
    }
  }

  lemma BuiltNoLaterPassword(base: string, login: string, password: string)
    requires !Contains(password, "&password=")
    ensures var s := base + "/?login=" + login + "&password=" + password;
      forall t: nat :: |base| + 2 + 6 + |login| < t ==> !OccursAt(s, "&password=", t)
  {
    var s := base + "/?login=" + login + "&password=" + password;
    assert s == (base + "/?login=" + login) + "&password=" + password;
    forall t: nat | |base| + 2 + 6 + |login| < t ensures !OccursAt(s, "&password=", t) {
      NoLaterPassword(base + "/?login=" + login, password, t);
    }
  }

  /** Where the pattern matches in the URL rajce.py:99 builds. */
  lemma CredSearchBuilt(base: string, login: string, password: string)
    requires !Contains(base, "login=")
    requires |login| > 0 && |password| > 0 && '\n' !in login && '\n' !in password
    requires !Contains(password, "&password=")
    ensures CredSearch(base + "/?login=" + login + "&password=" + password, 0) == Some((|base| + 2, |login|))
  {
    BuiltMatch(base, login, password);
    BuiltNoEarlierLogin(base, login, password);
    BuiltNoLaterPassword(base, login, password);
    CredSearchIs(base + "/?login=" + login + "&password=" + password, |base| + 2, |login|);
  }

  /** With the match at `p` and no newline after the login, the password group is the rest of the text. */
  lemma CredentialsAt(s: string, p: nat, k: nat)
    requires CredSearch(s, 0) == Some((p, k))
    requires p + 6 + k + 10 <= |s| && '\n' !in s[p + 6 + k + 10..]
    ensures Credentials(s) == Some((s[p + 6..p + 6 + k], s[p + 6 + k + 10..]))
  {
    GroupsToEnd(s, p, k);
  }

  /**
   * The URL rajce.py:99 builds gives its login and password back: the login
   * pattern starts at the first `login=`, and the greedy login group takes it
   * up to the last `&password=`.
   */
  lemma CredentialsOf(base: string, login: string, password: string)
    requires !Contains(base, "login=")
    requires |login| > 0 && |password| > 0 && '\n' !in login && '\n' !in password
    requires !Contains(password, "&password=")
    ensures Credentials(base + "/?login=" + login + "&password=" + password) == Some((login, password))
  {
    CredSearchBuilt(base, login, password);
    BuiltUrl(base, login, password);
    CredentialsAt(base + "/?login=" + login + "&password=" + password, |base| + 2, |login|);
  }

  /** The form getUrl posts for such a URL holds that login and password. */
  lemma RequestOf(base: string, login: string, password: string)
    requires !Contains(base, "login=")
    requires |login| > 0 && |password| > 0 && '\n' !in login && '\n' !in password
    requires !Contains(password, "&password=")
    ensures var url := base + "/?login=" + login + "&password=" + password;
      GetUrlRequest(url) == Request(url, [("login", login), ("code", password)])
  {
    CredentialsOf(base, login, password);
  }
}
