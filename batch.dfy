// What downloadAlbum does with a link table (rajce.py:183-214): the files to
// fetch, skipping sources already in the history when it is on, and the
// history lines written for the downloads that succeeded.

module Batch {
  import opened Text
  import opened MediaLinks

  /** The links whose file downloadAlbum fetches: all, or with history on those whose source is not in it. */
  function Kept(links: seq<Link>, useHistory: bool, history: seq<string>): (r: seq<Link>)
    ensures |r| <= |links|
    ensures !useHistory ==> r == links
    decreases |links|
  {
    if links == [] then []
    else
      var rest := Kept(links[1..], useHistory, history);
      if useHistory && links[0].src in history then rest else [links[0]] + rest
  }

  /** `fileList` of rajce.py:203-204. */
  function FileList(links: seq<Link>, useHistory: bool, history: seq<string>): (r: seq<Path>)
    ensures |r| <= |links|
  {
    Keys(Kept(links, useHistory, history))
  }

  /** A kept link is a link of the table, and a link is kept exactly when history is off or its source is new. */
  lemma {:induction false} KeptMembers(links: seq<Link>, useHistory: bool, history: seq<string>, l: Link)
    ensures l in Kept(links, useHistory, history) <==> l in links && (useHistory ==> l.src !in history)
    decreases |links|
  {
    if links != [] {
      KeptMembers(links[1..], useHistory, history, l);
      assert links == [links[0]] + links[1..];
    }
  }

  /** The positions in the table of the kept links, in the order Kept gives them. */
  ghost function KeptPositions(links: seq<Link>, useHistory: bool, history: seq<string>): (r: seq<nat>)
    ensures |r| == |Kept(links, useHistory, history)|
    decreases |links|
  {
    if links == [] then []
    else
      var shifted := Shifted(KeptPositions(links[1..], useHistory, history));
      if useHistory && links[0].src in history then shifted else [0] + shifted
  }

  /** Positions in the tail of a table, as positions in the table. */
  ghost function Shifted(t: seq<nat>): (r: seq<nat>)
    ensures |r| == |t|
  {
    seq(|t|, i requires 0 <= i < |t| => t[i] + 1)
  }

  /** `p` gives, in increasing order, a position in the table for each link of `k`. */
  predicate AtPositions(links: seq<Link>, k: seq<Link>, p: seq<nat>)
  {
    && |p| == |k|
    && (forall x :: 0 <= x < |p| ==> p[x] < |links| && links[p[x]] == k[x])
    && (forall x, y :: 0 <= x < y < |p| ==> p[x] < p[y])
  }

  /** Positions of links in the tail, shifted by one, are their positions in the table, and none is the first. */
  lemma ShiftedAt(links: seq<Link>, k: seq<Link>, t: seq<nat>)
    requires links != [] && AtPositions(links[1..], k, t)
    ensures AtPositions(links, k, Shifted(t)) && forall x :: 0 <= x < |t| ==> Shifted(t)[x] > 0
  {
    var s := Shifted(t);
    forall x | 0 <= x < |s| ensures s[x] < |links| && links[s[x]] == k[x] {
      assert s[x] == t[x] + 1;
      assert links[1..][t[x]] == k[x];
    }
  }

  /** The table's first link, at position 0, can be put in front of links at later positions. */
  lemma ConsAt(links: seq<Link>, k: seq<Link>, p: seq<nat>)
    requires links != [] && AtPositions(links, k, p) && forall x :: 0 <= x < |p| ==> p[x] > 0
    ensures AtPositions(links, [links[0]] + k, [0] + p)
  {
    var k', p' := [links[0]] + k, [0] + p;
    forall x | 0 < x < |p'| ensures p'[x] == p[x - 1] && k'[x] == k[x - 1] {
    }
  }

  /** Each kept link sits at its position in the table, and the positions increase. */
  lemma {:induction false} KeptPositionsSpec(links: seq<Link>, useHistory: bool, history: seq<string>)
    ensures AtPositions(links, Kept(links, useHistory, history), KeptPositions(links, useHistory, history))
    decreases |links|
  {
    if links != [] {
      var tail := links[1..];
      var t, rest := KeptPositions(tail, useHistory, history), Kept(tail, useHistory, history);
      KeptPositionsSpec(tail, useHistory, history);
      ShiftedAt(links, rest, t);
      if !(useHistory && links[0].src in history) {
        ConsAt(links, rest, Shifted(t));
      }
    }
  }

  /** The links of `r` come in the order of their keys in the table. */
  predicate InOrder(links: seq<Link>, r: seq<Link>)
  {
    forall x, y :: 0 <= x < y < |r| ==> FindKey(links, r[x].dest) < FindKey(links, r[y].dest)
  }

  /** Kept links keep their order in the table (each comes from a later position than the one before). */
  lemma KeptOrder(links: seq<Link>, useHistory: bool, history: seq<string>)
    requires UniqueKeys(links)
    ensures InOrder(links, Kept(links, useHistory, history))
  {
    var k := Kept(links, useHistory, history);
    var p := KeptPositions(links, useHistory, history);
    KeptPositionsSpec(links, useHistory, history);
    forall x, y | 0 <= x < y < |k| ensures FindKey(links, k[x].dest) < FindKey(links, k[y].dest) {
      FindKeyAt(links, p[x]);
      FindKeyAt(links, p[y]);
    }
  }

  /** In a table with unique keys, the key of the link at position `i` is found at `i`. */
  lemma FindKeyAt(links: seq<Link>, i: nat)
    requires UniqueKeys(links) && i < |links|
    ensures FindKey(links, links[i].dest) == i
  {
    FindKeyIs(links, links[i].dest, i);
  }

  /**
   * With history on, the file list is exactly the keys whose source is not in
   * the history; with it off, every key.
   */
  lemma FileListMembers(links: seq<Link>, useHistory: bool, history: seq<string>, k: Path)
    requires UniqueKeys(links)
    ensures k in FileList(links, useHistory, history) <==> HasKey(links, k) && (useHistory ==> Lookup(links, k).value !in history)
  {
    if k in FileList(links, useHistory, history) {
      FileListSound(links, useHistory, history, k);
    }
    if HasKey(links, k) && (useHistory ==> Lookup(links, k).value !in history) {
      FileListComplete(links, useHistory, history, k);
    }
  }

  /** A key of the file list is a key of the table whose source is new when history is on. */
  lemma FileListSound(links: seq<Link>, useHistory: bool, history: seq<string>, k: Path)
    requires UniqueKeys(links) && k in FileList(links, useHistory, history)
    ensures HasKey(links, k) && (useHistory ==> Lookup(links, k).value !in history)
  {
    var kept := Kept(links, useHistory, history);
    var x :| 0 <= x < |kept| && kept[x].dest == k;
    KeptMembers(links, useHistory, history, kept[x]);
    var i :| 0 <= i < |links| && links[i] == kept[x];
    FindKeyIs(links, k, i);
  }

  /** A key of the table whose source is new when history is on is in the file list. */
  lemma FileListComplete(links: seq<Link>, useHistory: bool, history: seq<string>, k: Path)
    requires HasKey(links, k) && (useHistory ==> Lookup(links, k).value !in history)
    ensures k in FileList(links, useHistory, history)
  {
    var kept := Kept(links, useHistory, history);
    var i := FindKey(links, k);
    KeptMembers(links, useHistory, history, links[i]);
    var x :| 0 <= x < |kept| && kept[x] == links[i];
    assert FileList(links, useHistory, history)[x] == k;
  }

  /** With history off, every key is fetched, in table order. */
  lemma {:induction false} FileListAll(links: seq<Link>, history: seq<string>)
    ensures FileList(links, false, history) == Keys(links)
    decreases |links|
  {
    if links != [] {
      FileListAll(links[1..], history);
    }
  }

  // ---------------------------------------------------------------------
  // downloadFile and the history lines

  /**
   * How `urlretrieve` ends, among the outcomes downloadFile handles: the
   * file arrived, or one of the three errors it catches. Any other exception
   * is not caught and is not modelled.
   */
  datatype FetchOutcome = Fetched | HttpError | ContentTooShort | UrlError

  /** downloadFile's result, rajce.py:186-198: the source URL when the file arrived, False (None) on any caught error. */
  function FileResult(url: string, outcome: FetchOutcome): (r: Option<string>)
    ensures r.Some? <==> outcome == Fetched
    ensures r.Some? ==> r.value == url
  {
    if outcome == Fetched then Some(url) else None
  }

  /** rajce.py:213: only a truthy result is written, so an empty URL is not. */
  predicate Records(useHistory: bool, result: Option<string>)
  {
    useHistory && result.Some? && result.value != []
  }

  /** The URLs, in order, that the loop of rajce.py:212-214 writes for the results of the files. */
  function Recorded(results: seq<Option<string>>, useHistory: bool): seq<string>
    decreases |results|
  {
    if results == [] then []
    else
      var init := Recorded(results[..|results| - 1], useHistory);
      var last := results[|results| - 1];
      if Records(useHistory, last) then init + [last.value] else init
  }

  /** One more result writes at most its own URL after the lines before. */
  lemma RecordedStep(results: seq<Option<string>>, useHistory: bool, k: nat)
    requires k < |results|
    ensures Recorded(results[..k + 1], useHistory) ==
      Recorded(results[..k], useHistory) + (if Records(useHistory, results[k]) then [results[k].value] else [])
  {
    assert results[..k + 1][..k] == results[..k];
  }

  /**
   * The results downloadFile gives for the files of the list, in order, as
   * `imap` yields them. Every file of the list is a key of the table; a file
   * that were not would have no URL to fetch and no result.
   */
  function Results(links: seq<Link>, files: seq<Path>, fetch: string -> FetchOutcome): (r: seq<Option<string>>)
    ensures |r| == |files|
  {
    seq(|files|, k requires 0 <= k < |files| =>
      match Lookup(links, files[k])
      case None => None
      case Some(url) => FileResult(url, fetch(url)))
  }

  /** A URL is written exactly when history is on and some file's download returned it, non-empty. */
  lemma {:induction false} RecordedMembers(results: seq<Option<string>>, useHistory: bool, u: string)
    ensures u in Recorded(results, useHistory) <==>
      useHistory && u != [] && exists k :: 0 <= k < |results| && results[k] == Some(u)
    decreases |results|
  {
    if results != [] {
      var init := results[..|results| - 1];
      RecordedMembers(init, useHistory, u);
      assert forall k :: 0 <= k < |init| ==> init[k] == results[k];
      if useHistory && u != [] && (exists k :: 0 <= k < |results| && results[k] == Some(u)) {
        var k :| 0 <= k < |results| && results[k] == Some(u);
        if k < |init| {
          assert init[k] == Some(u);
        }
      }
    }
  }

  /** With history off nothing is written. */
  lemma {:induction false} RecordedOff(results: seq<Option<string>>)
    ensures Recorded(results, false) == []
    decreases |results|
  {
    if results != [] {
      RecordedOff(results[..|results| - 1]);
    }
  }

  /** Writing is in order: the lines for a longer run of results extend those for a shorter one. */
  lemma {:induction false} RecordedPrefix(results: seq<Option<string>>, useHistory: bool, n: nat)
    requires n <= |results|
    ensures Recorded(results[..n], useHistory) <= Recorded(results, useHistory)
    decreases |results|
  {
    if n < |results| {
      var init := results[..|results| - 1];
      assert init[..n] == results[..n];
      RecordedPrefix(init, useHistory, n);
    } else {
      assert results[..n] == results;
    }
  }

  /** No failed download is written: every written URL has a successful download in the list. */
  lemma RecordedFetched(links: seq<Link>, files: seq<Path>, fetch: string -> FetchOutcome, useHistory: bool, u: string)
    requires forall k :: 0 <= k < |files| ==> HasKey(links, files[k])
    requires u in Recorded(Results(links, files, fetch), useHistory)
    ensures useHistory && u != [] && fetch(u) == Fetched
    ensures exists k :: 0 <= k < |files| && Lookup(links, files[k]) == Some(u)
  {
    var results := Results(links, files, fetch);
    RecordedMembers(results, useHistory, u);
    var k :| 0 <= k < |results| && results[k] == Some(u);
    assert Lookup(links, files[k]) == Some(u);
  }
}
