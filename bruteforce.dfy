// bruteForce (rajce.py:81-109): the album URL after redirects, cut at `?` and
// stripped of `/`, gives two candidate names, the first label of its host
// and its path. Every ordered pair of candidates, a candidate paired with
// itself included, is tried as login and password, logins in the outer loop,
// until a response's configuration holds `photos`.

module BruteForce {
  import opened Text
  import opened AlbumConfig
  import opened Urls

  /** `url.split('?')[0].strip('/')` of the URL the redirects end at. */
  function BaseUrl(resolved: string): string
  {
    Strip(Before(resolved, "?"), {'/'})
  }

  /** The base holds no `?` and only characters of the resolved URL, and neither starts nor ends with `/`. */
  lemma BaseUrlSpec(resolved: string)
    ensures var r := BaseUrl(resolved);
      && (forall c :: c in r ==> c in resolved && c != '?')
      && (r != [] ==> r[0] != '/' && r[|r| - 1] != '/')
  {
    var b := Before(resolved, "?");
    assert forall j :: 0 <= j < |b| ==> b[j] != '?' by {
      forall j | 0 <= j < |b| ensures b[j] != '?' {
        assert !OccursAt(resolved, "?", j);
        assert resolved[j..j + 1] == [b[j]];
      }
    }
    StripSpec(b, {'/'});
  }

  /** `urlsplit(url).netloc.split('.')[0]`: the first label of the host. */
  function HostLabel(base: string): string
  {
    Before(SplitUrl(base).netloc, ".")
  }

  /** `urlsplit(url).path.strip('/')` */
  function PathName(base: string): string
  {
    Strip(SplitUrl(base).path, {'/'})
  }

  /**
   * `list(set([a, b]))`: the two names without a repeat. The order of a
   * two-element set depends on string hashing, so it is the input `swapped`.
   */
  function Candidates(a: string, b: string, swapped: bool): (r: seq<string>)
    ensures forall x :: x in r <==> x == a || x == b
    ensures forall i, j :: 0 <= i < j < |r| ==> r[i] != r[j]
    ensures |r| == if a == b then 1 else 2
  {
    if a == b then [a] else if swapped then [b, a] else [a, b]
  }

  /** The logins and passwords of rajce.py:96-97, logins in the outer loop. */
  function Row(login: string, passwords: seq<string>): (r: seq<(string, string)>)
    ensures |r| == |passwords| && forall j :: 0 <= j < |r| ==> r[j] == (login, passwords[j])
  {
    seq(|passwords|, j requires 0 <= j < |passwords| => (login, passwords[j]))
  }

  function AllPairs(logins: seq<string>, passwords: seq<string>): (r: seq<(string, string)>)
    decreases |logins|
  {
    if logins == [] then []
    else AllPairs(logins[..|logins| - 1], passwords) + Row(logins[|logins| - 1], passwords)
  }

  /** The URL rajce.py:99 tries. */
  function AttemptUrl(base: string, login: string, password: string): string
  {
    base + "/?login=" + login + "&password=" + password
  }

  function AttemptUrls(base: string, pairs: seq<(string, string)>): (r: seq<string>)
    ensures |r| == |pairs|
    ensures forall k :: 0 <= k < |pairs| ==> r[k] == AttemptUrl(base, pairs[k].0, pairs[k].1)
  {
    seq(|pairs|, k requires 0 <= k < |pairs| => AttemptUrl(base, pairs[k].0, pairs[k].1))
  }

  /** The URLs bruteForce may try for `url`, in order. */
  function Attempts(url: string, resolve: string -> string, swapped: bool): seq<string>
  {
    var base := BaseUrl(resolve(url));
    var names := Candidates(HostLabel(base), PathName(base), swapped);
    AttemptUrls(base, AllPairs(names, names))
  }

  /** A response that arrived (no URLError) and whose configuration holds `photos`. */
  predicate Accepts(response: Option<seq<string>>)
  {
    response.Some? && "photos" in Config(response.value)
  }

  /** The index of the first request at or after `i` that `ok` holds for, or |reqs|. */
  function FirstAccepted(reqs: seq<string>, ok: string -> bool, i: nat): (r: nat)
    requires i <= |reqs|
    ensures i <= r <= |reqs|
    ensures forall k :: i <= k < r ==> !ok(reqs[k])
    ensures r < |reqs| ==> ok(reqs[r])
    decreases |reqs| - i
  {
    if i == |reqs| || ok(reqs[i]) then i else FirstAccepted(reqs, ok, i + 1)
  }

  /** The contract of FirstAccepted determines its result. */
  lemma FirstAcceptedIs(reqs: seq<string>, ok: string -> bool, r: nat)
    requires r <= |reqs|
    requires forall k :: 0 <= k < r ==> !ok(reqs[k])
    requires r < |reqs| ==> ok(reqs[r])
    ensures FirstAccepted(reqs, ok, 0) == r
  {
    var f := FirstAccepted(reqs, ok, 0);
  }

  /** Whether the response to a request is accepted. */
  function AcceptedBy(page: string -> Option<seq<string>>): string -> bool
  {
    (q: string) => Accepts(page(q))
  }

  /** What the loops of bruteForce return for the URLs `reqs`: the first accepted response, or the empty response. */
  function SearchResult(reqs: seq<string>, page: string -> Option<seq<string>>): (r: seq<string>)
    ensures r != [] ==> "photos" in Config(r)
  {
    var k := FirstAccepted(reqs, AcceptedBy(page), 0);
    if k < |reqs| then page(reqs[k]).value else []
  }

  /** The URLs the loops try: all of them up to and including the first accepted one. */
  function SearchSent(reqs: seq<string>, page: string -> Option<seq<string>>): seq<string>
  {
    var k := FirstAccepted(reqs, AcceptedBy(page), 0);
    reqs[..if k < |reqs| then k + 1 else |reqs|]
  }

  /** What bruteForce returns for `url`. */
  function BruteForceResult(url: string, resolve: string -> string, page: string -> Option<seq<string>>, swapped: bool): seq<string>
  {
    SearchResult(Attempts(url, resolve, swapped), page)
  }

  /** The URLs bruteForce tries for `url`. */
  function Sent(url: string, resolve: string -> string, page: string -> Option<seq<string>>, swapped: bool): seq<string>
  {
    SearchSent(Attempts(url, resolve, swapped), page)
  }

  lemma {:induction false} AllPairsPrefix(logins: seq<string>, passwords: seq<string>, i: nat)
    requires i < |logins|
    ensures AllPairs(logins[..i], passwords) + Row(logins[i], passwords) <= AllPairs(logins, passwords)
    decreases |logins|
  {
    var n := |logins| - 1;
    assert logins[..i + 1][..i] == logins[..i];
    if i < n {
      AllPairsPrefix(logins[..n], passwords, i);
      assert logins[..n][..i] == logins[..i];
      assert logins[..n][..i + 1] == logins[..i + 1];
      AllPairsSelfPrefix(logins[..n], passwords, i + 1);
    } else {
      assert logins[..n] == logins[..i];
    }
  }

  lemma {:induction false} AllPairsSelfPrefix(logins: seq<string>, passwords: seq<string>, i: nat)
    requires i <= |logins|
    ensures AllPairs(logins[..i], passwords) <= AllPairs(logins, passwords)
    decreases |logins|
  {
    if i < |logins| {
      var n := |logins| - 1;
      AllPairsSelfPrefix(logins[..n], passwords, i);
      assert logins[..n][..i] == logins[..i];
    } else {
      assert logins[..i] == logins;
    }
  }

  /** The pairs tried before password `j` of login `i` lead the whole sequence of pairs. */
  lemma TriedPrefix(logins: seq<string>, passwords: seq<string>, i: nat, j: nat)
    requires i < |logins| && j <= |passwords|
    ensures AllPairs(logins[..i], passwords) + Row(logins[i], passwords[..j]) <= AllPairs(logins, passwords)
  {
    AllPairsPrefix(logins, passwords, i);
    var row := Row(logins[i], passwords);
    assert Row(logins[i], passwords[..j]) == row[..j];
  }

  /** The next pair after password `j` of a login. */
  lemma RowStep(login: string, passwords: seq<string>, j: nat)
    requires j < |passwords|
    ensures Row(login, passwords[..j + 1]) == Row(login, passwords[..j]) + [(login, passwords[j])]
  {
  }

  /** After the last password of login `i`, the pairs of the next login follow. */
  lemma AllPairsStep(logins: seq<string>, passwords: seq<string>, i: nat)
    requires i < |logins|
    ensures AllPairs(logins[..i + 1], passwords) == AllPairs(logins[..i], passwords) + Row(logins[i], passwords[..|passwords|])
  {
    var pre := logins[..i + 1];
    assert pre[..|pre| - 1] == logins[..i];
    assert pre[|pre| - 1] == logins[i];
    assert AllPairs(pre, passwords) == AllPairs(logins[..i], passwords) + Row(logins[i], passwords);
    assert passwords[..|passwords|] == passwords;
  }

  lemma AttemptUrlsAppend(base: string, pairs: seq<(string, string)>, login: string, password: string)
    ensures AttemptUrls(base, pairs + [(login, password)]) == AttemptUrls(base, pairs) + [AttemptUrl(base, login, password)]
  {
  }

  lemma AttemptUrlsPrefix(base: string, pairs: seq<(string, string)>, all: seq<(string, string)>)
    requires pairs <= all
    ensures AttemptUrls(base, pairs) <= AttemptUrls(base, all)
  {
  }

  /** Stopping at the first accepted URL gives the search's result and the URLs it tried. */
  lemma Stop(reqs: seq<string>, page: string -> Option<seq<string>>, sent: seq<string>)
    requires sent != [] && sent <= reqs
    requires forall k :: 0 <= k < |sent| - 1 ==> !Accepts(page(sent[k]))
    requires Accepts(page(sent[|sent| - 1]))
    ensures SearchResult(reqs, page) == page(sent[|sent| - 1]).value && SearchSent(reqs, page) == sent
  {
    FirstAcceptedIs(reqs, AcceptedBy(page), |sent| - 1);
  }

  /** With no URL accepted, the result is empty and every URL was tried. */
  lemma Exhausted(reqs: seq<string>, page: string -> Option<seq<string>>)
    requires forall k :: 0 <= k < |reqs| ==> !Accepts(page(reqs[k]))
    ensures SearchResult(reqs, page) == [] && SearchSent(reqs, page) == reqs
  {
    FirstAcceptedIs(reqs, AcceptedBy(page), |reqs|);
  }

  // ---------------------------------------------------------------------
  // What the search promises

  /** AllPairs holds every (login, password) combination and nothing else, one per combination. */
  lemma {:induction false} AllPairsMembers(logins: seq<string>, passwords: seq<string>)
    ensures |AllPairs(logins, passwords)| == |logins| * |passwords|
    ensures forall x :: x in AllPairs(logins, passwords) <==> x.0 in logins && x.1 in passwords
    decreases |logins|
  {
    if logins != [] {
      var init := logins[..|logins| - 1];
      var last := logins[|logins| - 1];
      AllPairsMembers(init, passwords);
      assert logins == init + [last];
      forall x ensures x in AllPairs(logins, passwords) <==> x.0 in logins && x.1 in passwords {
        if x in Row(last, passwords) {
          var j :| 0 <= j < |passwords| && Row(last, passwords)[j] == x;
        }
        if x.0 == last && x.1 in passwords {
          var j :| 0 <= j < |passwords| && passwords[j] == x.1;
          assert Row(last, passwords)[j] == x;
        }
      }
    }
  }

  /**
   * bruteForce tries the ordered pairs of the two candidate names: one pair
   * when they coincide, four otherwise, each a pair of the names and every
   * such pair among them.
   */
  lemma PairsShape(a: string, b: string, swapped: bool)
    ensures var names := Candidates(a, b, swapped);
      var pairs := AllPairs(names, names);
      && |pairs| == (if a == b then 1 else 4)
      && (forall k :: 0 <= k < |pairs| ==> pairs[k].0 in {a, b} && pairs[k].1 in {a, b})
      && (forall l, p :: l in {a, b} && p in {a, b} ==> (l, p) in pairs)
  {
    var names := Candidates(a, b, swapped);
    var pairs := AllPairs(names, names);
    AllPairsMembers(names, names);
    forall k | 0 <= k < |pairs| ensures pairs[k].0 in {a, b} && pairs[k].1 in {a, b} {
      assert pairs[k] in pairs;
    }
  }

  /** An empty response has an empty configuration, so it is never accepted. */
  lemma EmptyNotAccepted()
    ensures !Accepts(Some([]))
  {
    assert Parsed([]) == [];
  }

  /**
   * The search returns a non-empty response exactly when some URL is
   * accepted; it is then the response to the first accepted URL, and the
   * URLs tried are those up to it. Otherwise it returns the empty response
   * after trying every URL.
   */
  lemma SearchResultSpec(reqs: seq<string>, page: string -> Option<seq<string>>)
    ensures var r := SearchResult(reqs, page);
      r != [] <==> exists k :: 0 <= k < |reqs| && Accepts(page(reqs[k]))
    ensures var r, sent := SearchResult(reqs, page), SearchSent(reqs, page);
      r != [] ==> exists k :: (0 <= k < |reqs|
        && page(reqs[k]) == Some(r) && "photos" in Config(r)
        && (forall j :: 0 <= j < k ==> !Accepts(page(reqs[j])))
        && sent == reqs[..k + 1])
    ensures SearchResult(reqs, page) == [] ==> SearchSent(reqs, page) == reqs
  {
    var k := FirstAccepted(reqs, AcceptedBy(page), 0);
    EmptyNotAccepted();
    if k < |reqs| {
      assert Accepts(page(reqs[k]));
    } else {
      assert reqs[..|reqs|] == reqs;
    }
  }

  /** Each attempt posts its login and password as the form, when the names keep the credential pattern unambiguous. */
  lemma AttemptRequest(base: string, login: string, password: string)
    requires !Contains(base, "login=")
    requires |login| > 0 && |password| > 0 && '\n' !in login && '\n' !in password
    requires !Contains(password, "&password=")
    ensures GetUrlRequest(AttemptUrl(base, login, password)).form == [("login", login), ("code", password)]
  {
    RequestOf(base, login, password);
  }

  /**
   * rajce.py:84-109. `resolve` stands for following the redirects of
   * `urlopen(url).geturl()` and `page` for getUrl, the response lines for a
   * URL or None for a URLError. `sent` lists the URLs tried, in order.
   */
  method BruteForce(url: string, resolve: string -> string, page: string -> Option<seq<string>>, swapped: bool)
    returns (response: seq<string>, sent: seq<string>)
    ensures response == BruteForceResult(url, resolve, page, swapped)
    ensures sent == Sent(url, resolve, page, swapped)
  {
    var base := BaseUrl(resolve(url));
    var nameList := Candidates(HostLabel(base), PathName(base), swapped);
    response, sent := TryPairs(base, nameList, page);
  }

  /** The nested loops of rajce.py:96-109: every login with every password, stopping at the first accepted response. */
  method TryPairs(base: string, nameList: seq<string>, page: string -> Option<seq<string>>)
    returns (response: seq<string>, sent: seq<string>)
    ensures var reqs := AttemptUrls(base, AllPairs(nameList, nameList));
      response == SearchResult(reqs, page) && sent == SearchSent(reqs, page)
  {
    var pwrdList := nameList;
    ghost var tried: seq<(string, string)> := [];
    sent := [];
    var i := 0;
    while i < |nameList|
      invariant 0 <= i <= |nameList|
      invariant tried == AllPairs(nameList[..i], pwrdList)
      invariant sent == AttemptUrls(base, tried)
      invariant forall k :: 0 <= k < |sent| ==> !Accepts(page(sent[k]))
    {
      var found, r, s, t, j := TryLogin(base, nameList[i], pwrdList, page, tried, sent);
      if found {
        response, sent := r, s;
        TriedPrefix(nameList, pwrdList, i, j + 1);
        AttemptUrlsPrefix(base, t, AllPairs(nameList, pwrdList));
        Stop(AttemptUrls(base, AllPairs(nameList, nameList)), page, sent);
        return;
      }
      sent, tried := s, t;
      AllPairsStep(nameList, pwrdList, i);
      i := i + 1;
    }
    assert nameList[..|nameList|] == nameList;
    Exhausted(AttemptUrls(base, AllPairs(nameList, nameList)), page);
    response := [];
  }

  /**
   * The inner loop of rajce.py:97-109 for one login, after the URLs `sent0`
   * of the pairs `done`, none accepted: it tries the passwords in order and
   * stops at the first accepted response, having then tried `j + 1` of them.
   */
  method TryLogin(base: string, login: string, pwrdList: seq<string>, page: string -> Option<seq<string>>,
                  ghost done: seq<(string, string)>, sent0: seq<string>)
    returns (found: bool, response: seq<string>, sent: seq<string>, ghost tried: seq<(string, string)>, j: nat)
    requires sent0 == AttemptUrls(base, done)
    requires forall k :: 0 <= k < |sent0| ==> !Accepts(page(sent0[k]))
    ensures sent == AttemptUrls(base, tried)
    ensures !found ==> tried == done + Row(login, pwrdList)
    ensures !found ==> forall k :: 0 <= k < |sent| ==> !Accepts(page(sent[k]))
    ensures found ==> j < |pwrdList| && tried == done + Row(login, pwrdList[..j + 1])
    ensures found ==> sent != [] && (forall k :: 0 <= k < |sent| - 1 ==> !Accepts(page(sent[k])))
    ensures found ==> Accepts(page(sent[|sent| - 1])) && response == page(sent[|sent| - 1]).value
  {
    found, response, sent, tried, j := false, [], sent0, done, 0;
    while j < |pwrdList|
      invariant 0 <= j <= |pwrdList|
      invariant tried == done + Row(login, pwrdList[..j])
      invariant sent == AttemptUrls(base, tried)
      invariant forall k :: 0 <= k < |sent| ==> !Accepts(page(sent[k]))
    {
      var password := pwrdList[j];
      var attempt := base + "/?login=" + login + "&password=" + password;
      RowStep(login, pwrdList, j);
      AttemptUrlsAppend(base, tried, login, password);
      assert done + Row(login, pwrdList[..j + 1]) == tried + [(login, password)];
      tried := tried + [(login, password)];
      sent := sent + [attempt];
      var r := page(attempt);
      if r.Some? {
        var config := GetAlbumConfig(r.value);
        if "photos" in config {
          found, response := true, r.value;
          return;
        }
      }
      j := j + 1;
    }
    assert pwrdList[..|pwrdList|] == pwrdList;
  }
}
