// The downloader object (rajce.py:13-215): it holds the settings, the
// history read at start-up and the link table of the album in hand, and it
// appends to the history file as files arrive. The network and the file
// system are the inputs gathered in `Net`.

module Downloader {
  import opened Text
  import opened AlbumConfig
  import opened Urls
  import opened MediaLinks
  import opened BruteForce
  import opened Batch
  import opened History

  /**
   * What the outside world answers. `page` is getUrl: the lines of the page
   * a URL serves, or None for a URLError (the only exception of getUrl that
   * its callers catch). `resolve` follows redirects.
   * `swapped` is the iteration order of the two-name set bruteForce builds
   * for an album URL. `decode` is `json.loads` of the `photos` value,
   * `mkdir` whether the album folder could be made, `fetch` how the download
   * of a source URL ends, and `gallery` the album links the RSS feed of a
   * user page lists (none when it cannot be fetched).
   */
  datatype Net = Net(
    page: string -> Option<seq<string>>,
    resolve: string -> string,
    swapped: string -> bool,
    decode: string -> seq<Photo>,
    mkdir: Path -> bool,
    fetch: string -> FetchOutcome,
    gallery: string -> seq<string>)

  /** The configuration getMediaLinks settles on for the first response: brute force replaces it only when it lacks `photos` and brute force gave a response. */
  function SettledConfig(url: string, response: seq<string>, net: Net, useBruteForce: bool): map<string, string>
  {
    var config := Config(response);
    if "photos" !in config && useBruteForce then
      var forced := BruteForceResult(url, net.resolve, net.page, net.swapped(url));
      if |forced| > 0 then Config(forced) else config
    else config
  }

  /**
   * rajce.py:126-130: the configuration is kept when it holds `photos` or
   * brute force is off. Otherwise brute force settles it: the result holds
   * `photos` exactly when some attempt is accepted, and it is the first
   * page's configuration again when none is.
   */
  lemma SettledConfigSpec(url: string, response: seq<string>, net: Net, useBruteForce: bool)
    ensures "photos" in Config(response) || !useBruteForce ==> SettledConfig(url, response, net, useBruteForce) == Config(response)
    ensures var reqs := Attempts(url, net.resolve, net.swapped(url));
      "photos" !in Config(response) && useBruteForce ==>
        && ("photos" in SettledConfig(url, response, net, useBruteForce) <==> exists k :: 0 <= k < |reqs| && Accepts(net.page(reqs[k])))
        && ((forall k :: 0 <= k < |reqs| ==> !Accepts(net.page(reqs[k]))) ==> SettledConfig(url, response, net, useBruteForce) == Config(response))
  {
    if "photos" !in Config(response) && useBruteForce {
      var reqs := Attempts(url, net.resolve, net.swapped(url));
      var forced := SearchResult(reqs, net.page);
      assert forced == BruteForceResult(url, net.resolve, net.page, net.swapped(url));
      assert SettledConfig(url, response, net, useBruteForce) == if |forced| > 0 then Config(forced) else Config(response);
      SearchResultSpec(reqs, net.page);
    }
  }

  /** The link table getMediaLinks returns for `url` (rajce.py:120-160). */
  function MediaLinksOf(url: string, net: Net, path: Path, useBruteForce: bool): (r: seq<Link>)
    ensures UniqueKeys(r)
  {
    match net.page(url)
    case None => []
    case Some(response) => LinksFromConfig(path, SettledConfig(url, response, net, useBruteForce), net.decode, net.mkdir)
  }

  /** The file list of the table names only keys of the table. */
  lemma FileListKeys(links: seq<Link>, useHistory: bool, history: seq<string>)
    requires UniqueKeys(links)
    ensures var files := FileList(links, useHistory, history);
      forall k :: 0 <= k < |files| ==> HasKey(links, files[k])
  {
    var files := FileList(links, useHistory, history);
    forall k | 0 <= k < |files| ensures HasKey(links, files[k]) {
      FileListMembers(links, useHistory, history, files[k]);
    }
  }

  /** The URLs downloadAlbum writes to the history file for a link table. */
  function AlbumWrites(links: seq<Link>, useHistory: bool, history: seq<string>, fetch: string -> FetchOutcome): seq<string>
  {
    var files := FileList(links, useHistory, history);
    Recorded(Results(links, files, fetch), useHistory)
  }

  /**
   * A URL is written for a table exactly when history is on, the URL is a
   * non-empty source of the table that is not yet in the history, and its
   * download succeeded.
   */
  lemma AlbumWritesMembers(links: seq<Link>, useHistory: bool, history: seq<string>, fetch: string -> FetchOutcome, u: string)
    requires UniqueKeys(links)
    ensures u in AlbumWrites(links, useHistory, history, fetch) <==>
      && useHistory && u != [] && u !in history && fetch(u) == Fetched
      && exists k :: HasKey(links, k) && Lookup(links, k) == Some(u)
  {
    FileListKeys(links, useHistory, history);
    var files := FileList(links, useHistory, history);
    var results := Results(links, files, fetch);
    RecordedMembers(results, useHistory, u);
    if u in AlbumWrites(links, useHistory, history, fetch) {
      var k :| 0 <= k < |results| && results[k] == Some(u);
      FileListMembers(links, useHistory, history, files[k]);
      assert Lookup(links, files[k]) == Some(u);
    }
    if && useHistory && u != [] && u !in history && fetch(u) == Fetched
       && exists k :: HasKey(links, k) && Lookup(links, k) == Some(u)
    {
      var key :| HasKey(links, key) && Lookup(links, key) == Some(u);
      FileListMembers(links, useHistory, history, key);
      var k :| 0 <= k < |files| && files[k] == key;
      assert results[k] == Some(u);
    }
  }

  /** With history off, downloadAlbum writes nothing. */
  lemma AlbumWritesOff(links: seq<Link>, history: seq<string>, fetch: string -> FetchOutcome)
    ensures AlbumWrites(links, false, history, fetch) == []
  {
    RecordedOff(Results(links, FileList(links, false, history), fetch));
  }

  /** The lists `f` gives for the items, one after the other. */
  function Flatten(items: seq<string>, f: string -> seq<string>): seq<string>
    decreases |items|
  {
    if items == [] then [] else Flatten(items[..|items| - 1], f) + f(items[|items| - 1])
  }

  /** Flattening holds exactly what `f` gives for some item. */
  lemma {:induction false} FlattenMembers(items: seq<string>, f: string -> seq<string>, a: string)
    ensures a in Flatten(items, f) <==> exists i :: 0 <= i < |items| && a in f(items[i])
    decreases |items|
  {
    if items != [] {
      var init := items[..|items| - 1];
      FlattenMembers(init, f, a);
      assert forall i :: 0 <= i < |init| ==> init[i] == items[i];
      if exists i :: 0 <= i < |items| && a in f(items[i]) {
        var i :| 0 <= i < |items| && a in f(items[i]);
        if i < |init| {
          assert init[i] == items[i];
        }
      }
    }
  }

  /** Flattening a concatenation concatenates the flattenings. */
  lemma {:induction false} FlattenAppend(q1: seq<string>, q2: seq<string>, f: string -> seq<string>)
    ensures Flatten(q1 + q2, f) == Flatten(q1, f) + Flatten(q2, f)
    decreases |q2|
  {
    if q2 != [] {
      var q := q1 + q2;
      assert q[..|q| - 1] == q1 + q2[..|q2| - 1];
      FlattenAppend(q1, q2[..|q2| - 1], f);
    } else {
      assert q1 + q2 == q1;
    }
  }

  /** What download makes of one URL it is given (rajce.py:175-181): an album URL is itself, a user page its gallery's albums. */
  function Expand(gallery: string -> seq<string>): string -> seq<string>
  {
    (u: string) => if IsAlbumUrl(u) then [u] else gallery(u)
  }

  /** The albums download takes from one URL it is given: the album itself, or the albums of a user page's gallery. */
  method AlbumsOf(url: string, gallery: string -> seq<string>) returns (albums: seq<string>)
    ensures albums == Expand(gallery)(url)
  {
    if IsAlbumUrl(url) {
      albums := [url];
    } else {
      albums := gallery(url);
    }
  }

  /** Flattening one more item appends what `f` gives for it. */
  lemma FlattenStep(items: seq<string>, i: nat, f: string -> seq<string>)
    requires i < |items|
    ensures Flatten(items[..i + 1], f) == Flatten(items[..i], f) + f(items[i])
  {
    assert items[..i + 1][..i] == items[..i];
  }

  /** The albums download visits, in order. */
  function AlbumQueue(urls: seq<string>, gallery: string -> seq<string>): seq<string>
  {
    Flatten(urls, Expand(gallery))
  }

  /** The queue holds each album URL given and each album of each user page given, and nothing else. */
  lemma AlbumQueueMembers(urls: seq<string>, gallery: string -> seq<string>, a: string)
    ensures a in AlbumQueue(urls, gallery) <==>
      exists i :: 0 <= i < |urls| && (if IsAlbumUrl(urls[i]) then a == urls[i] else a in gallery(urls[i]))
  {
    FlattenMembers(urls, Expand(gallery), a);
  }

  /** An album URL is downloaded as itself, and a user page's albums follow in the gallery's order. */
  lemma AlbumQueueOne(u: string, gallery: string -> seq<string>)
    ensures AlbumQueue([u], gallery) == if IsAlbumUrl(u) then [u] else gallery(u)
  {
    FlattenOne(u, Expand(gallery));
  }

  lemma FlattenOne(u: string, f: string -> seq<string>)
    ensures Flatten([u], f) == f(u)
  {
    assert [u][..0] == [];
  }

  /** What downloadAlbum writes to the history file for one album URL. */
  function WritesFor(net: Net, path: Path, useBruteForce: bool, useHistory: bool, history: seq<string>): string -> seq<string>
  {
    (a: string) => AlbumWrites(MediaLinksOf(a, net, path, useBruteForce), useHistory, history, net.fetch)
  }

  /** Everything written to the history file while downloading the albums `queue`, album after album. */
  function QueueWrites(queue: seq<string>, net: Net, path: Path, useBruteForce: bool, useHistory: bool, history: seq<string>): seq<string>
  {
    Flatten(queue, WritesFor(net, path, useBruteForce, useHistory, history))
  }

  /** A URL is written during the run exactly when downloading one of the queued albums writes it. */
  lemma QueueWritesMembers(queue: seq<string>, net: Net, path: Path, useBruteForce: bool, useHistory: bool, history: seq<string>, u: string)
    ensures u in QueueWrites(queue, net, path, useBruteForce, useHistory, history) <==>
      exists i :: 0 <= i < |queue| && u in AlbumWrites(MediaLinksOf(queue[i], net, path, useBruteForce), useHistory, history, net.fetch)
  {
    FlattenMembers(queue, WritesFor(net, path, useBruteForce, useHistory, history), u);
  }

  /** Writing the lines one by one gives the serialised list. */
  lemma {:induction false} SerializeAppend(urls: seq<string>, more: seq<string>)
    ensures Serialize(urls + more) == Serialize(urls) + Serialize(more)
    decreases |urls|
  {
    if urls != [] {
      assert (urls + more)[1..] == urls[1..] + more;
      SerializeAppend(urls[1..], more);
    } else {
      assert urls + more == more;
    }
  }

  class Rajce {
    var urls: seq<string>
    var path: Path
    var useHistory: bool
    var useBruteForce: bool
    var history: seq<string>
    var links: seq<Link>
    /** The text of the history file. */
    var historyFile: string

    /**
     * rajce.py:33-41. `root` is the script's folder, `file` the content of
     * its history file (None when it cannot be read). The history is read
     * only with `archive`.
     */
    constructor(urls: seq<string>, path: Option<Path>, root: Path, archive: bool, bruteforce: bool, file: Option<string>)
      ensures this.urls == urls
      ensures this.path == if path.Some? then path.value else root
      ensures useBruteForce == bruteforce && useHistory == archive
      ensures history == if archive && file.Some? then ReadHistoryAsWritten(file.value) else []
      ensures links == []
      ensures historyFile == if file.Some? then file.value else []
    {
      var read: seq<string> := [];
      if archive {
        read := GetHistory(file);
      }
      this.urls := urls;
      this.path := if path.Some? then path.value else root;
      useBruteForce := bruteforce;
      useHistory := archive;
      history := read;
      links := [];
      historyFile := if file.Some? then file.value else [];
    }

    /** rajce.py:120-160 */
    method GetMediaLinks(url: string, net: Net) returns (result: seq<Link>)
      ensures result == MediaLinksOf(url, net, path, useBruteForce)
      ensures UniqueKeys(result)
    {
      var response := net.page(url);
      if response.None? {
        return [];
      }
      var config := GetAlbumConfig(response.value);
      if "photos" !in config && useBruteForce {
        var forced, _ := BruteForce.BruteForce(url, net.resolve, net.page, net.swapped(url));
        if |forced| > 0 {
          config := GetAlbumConfig(forced);
        }
      }
      result := LinksFromConfig(path, config, net.decode, net.mkdir);
    }

    /** rajce.py:183-198 */
    method DownloadFile(file: Path, net: Net) returns (result: Option<string>)
      requires HasKey(links, file)
      ensures result.Some? <==> net.fetch(Lookup(links, file).value) == Fetched
      ensures result.Some? ==> result == Lookup(links, file)
    {
      var url := Lookup(links, file).value;
      result := FileResult(url, net.fetch(url));
    }

    /**
     * rajce.py:200-215: the new link table, and the history file grown by
     * the downloaded URLs. The history read at start-up stays as it was.
     */
    method DownloadAlbum(url: string, net: Net)
      modifies this
      ensures links == MediaLinksOf(url, net, path, useBruteForce)
      ensures historyFile == old(historyFile) + Serialize(AlbumWrites(links, useHistory, history, net.fetch))
      ensures urls == old(urls) && path == old(path) && useHistory == old(useHistory)
      ensures useBruteForce == old(useBruteForce) && history == old(history)
    {
      ghost var p, b := path, useBruteForce;
      links := GetMediaLinks(url, net);
      ghost var before := links;
      FetchAll(net);
      assert links == before && path == p && useBruteForce == b;
    }

    /** rajce.py:203-214: fetch the files of the list and append a line for each one downloaded. */
    method FetchAll(net: Net)
      requires UniqueKeys(links)
      modifies this`historyFile
      ensures historyFile == old(historyFile) + Serialize(AlbumWrites(links, useHistory, history, net.fetch))
    {
      var fileList := FileList(links, useHistory, history);
      FileListKeys(links, useHistory, history);
      ghost var results := Results(links, fileList, net.fetch);
      if |fileList| == 0 {
        assert Recorded(results, useHistory) == [];
        return;
      }
      ghost var written: seq<string> := [];
      for k := 0 to |fileList|
        invariant written == Recorded(results[..k], useHistory)
        invariant historyFile == old(historyFile) + Serialize(written)
      {
        var got := DownloadFile(fileList[k], net);
        assert got == results[k];
        RecordedStep(results, useHistory, k);
        if useHistory && got.Some? && got.value != [] {
          RecordLine(old(historyFile), written, got.value);
          historyFile := historyFile + (got.value + "\n");
          written := written + [got.value];
        }
      }
      assert results[..|fileList|] == results;
    }

    /** rajce.py:173-181: every album URL given, and every album of every user page given, in order. */
    method Download(net: Net)
      modifies this
      ensures var queue := AlbumQueue(urls, net.gallery);
        historyFile == old(historyFile) + Serialize(QueueWrites(queue, net, path, useBruteForce, useHistory, history))
      ensures urls == old(urls) && path == old(path) && useHistory == old(useHistory)
      ensures useBruteForce == old(useBruteForce) && history == old(history)
    {
      ghost var w := WritesFor(net, path, useBruteForce, useHistory, history);
      ghost var e := Expand(net.gallery);
      ghost var done: seq<string> := [];
      for i := 0 to |urls|
        invariant urls == old(urls) && path == old(path) && useHistory == old(useHistory)
        invariant useBruteForce == old(useBruteForce) && history == old(history)
        invariant done == Flatten(urls[..i], e)
        invariant historyFile == old(historyFile) + Serialize(Flatten(done, w))
      {
        DownloadUrl(urls[i], net);
        FlattenStep(urls, i, e);
        QueueStep(old(historyFile), done, e(urls[i]), w);
        done := done + e(urls[i]);
      }
      assert urls[..|urls|] == urls;
    }

    /** One pass of the outer loop of rajce.py:178-181: the albums of one URL given, downloaded in order. */
    method DownloadUrl(url: string, net: Net)
      modifies this
      ensures historyFile == old(historyFile) + Serialize(Flatten(Expand(net.gallery)(url), WritesFor(net, path, useBruteForce, useHistory, history)))
      ensures urls == old(urls) && path == old(path) && useHistory == old(useHistory)
      ensures useBruteForce == old(useBruteForce) && history == old(history)
    {
      var albums := AlbumsOf(url, net.gallery);
      DownloadQueue(albums, net);
    }

    /** The albums of the queue downloaded one after the other (the inner loop of rajce.py:178-181). */
    method DownloadQueue(queue: seq<string>, net: Net)
      modifies this
      ensures historyFile == old(historyFile) + Serialize(QueueWrites(queue, net, path, useBruteForce, useHistory, history))
      ensures queue == [] ==> links == old(links)
      ensures queue != [] ==> links == MediaLinksOf(queue[|queue| - 1], net, path, useBruteForce)
      ensures urls == old(urls) && path == old(path) && useHistory == old(useHistory)
      ensures useBruteForce == old(useBruteForce) && history == old(history)
    {
      ghost var w := WritesFor(net, path, useBruteForce, useHistory, history);
      for j := 0 to |queue|
        invariant urls == old(urls) && path == old(path) && useHistory == old(useHistory)
        invariant useBruteForce == old(useBruteForce) && history == old(history)
        invariant historyFile == old(historyFile) + Serialize(Flatten(queue[..j], w))
        invariant j == 0 ==> links == old(links)
        invariant j > 0 ==> links == MediaLinksOf(queue[j - 1], net, path, useBruteForce)
      {
        var album := queue[j];
        TakeStep(queue, j);
        ghost var so := Serialize(Flatten(queue[..j], w));
        Visit(queue[..j], album, w);
        DownloadAlbum(album, net);
        assert AlbumWrites(links, useHistory, history, net.fetch) == w(album);
        AppendAssoc(old(historyFile), so, Serialize(w(album)));
        assert queue[(j + 1) - 1] == album;
      }
      assert queue[..|queue|] == queue;
    }
  }

  /** Appending the writes of one more run of albums to the file is writing the writes of both runs. */
  lemma QueueStep(file: string, done: seq<string>, albums: seq<string>, w: string -> seq<string>)
    ensures file + Serialize(Flatten(done, w)) + Serialize(Flatten(albums, w)) == file + Serialize(Flatten(done + albums, w))
  {
    FlattenAppend(done, albums, w);
    SerializeAppend(Flatten(done, w), Flatten(albums, w));
  }

  /** Appending one line to the file is writing one more entry. */
  lemma RecordLine(file: string, written: seq<string>, line: string)
    ensures file + Serialize(written) + (line + "\n") == file + Serialize(written + [line])
  {
    SerializeAppend(written, [line]);
    assert Serialize([line]) == line + "\n" by {
      assert [line][1..] == [];
    }
  }

  lemma TakeStep<T>(s: seq<T>, j: nat)
    requires j < |s|
    ensures s[..j + 1] == s[..j] + [s[j]]
  {
  }

  lemma AppendAssoc<T>(a: seq<T>, b: seq<T>, c: seq<T>)
    ensures a + b + c == a + (b + c)
  {
  }

  /** Downloading one more album appends its writes to those before. */
  lemma Visit(done: seq<string>, a: string, w: string -> seq<string>)
    ensures Serialize(Flatten(done + [a], w)) == Serialize(Flatten(done, w)) + Serialize(w(a))
  {
    assert (done + [a])[..|done|] == done;
    SerializeAppend(Flatten(done, w), w(a));
  }
}
