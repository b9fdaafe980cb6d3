// The link table of getMediaLinks (rajce.py:132-160): every photo record of
// the album gives a destination path and a source URL, collected by a dict
// comprehension, so a later photo with the same destination replaces the URL
// of an earlier one but keeps its place.

module MediaLinks {
  import opened Text

  /** A filesystem path as its segments; `joinpath` appends segments. */
  type Path = seq<string>

  /**
   * A decoded entry of the `photos` array: its `info` and `fileName`, and the
   * embedded video file `videoStructure.items[1].video[0].file` when
   * `videoStructure` is truthy.
   */
  datatype Photo = Photo(info: string, fileName: string, videoFile: Option<string>)

  /** One entry of the table: where a file goes and where it comes from. */
  datatype Link = Link(dest: Path, src: string)

  // ---------------------------------------------------------------------
  // An insertion-ordered dictionary as a sequence of entries

  function Keys(links: seq<Link>): (r: seq<Path>)
    ensures |r| == |links| && forall i :: 0 <= i < |links| ==> r[i] == links[i].dest
  {
    seq(|links|, i requires 0 <= i < |links| => links[i].dest)
  }

  predicate UniqueKeys(links: seq<Link>)
  {
    forall i, j :: 0 <= i < j < |links| ==> links[i].dest != links[j].dest
  }

  /** The position of `key`, or |links| when it is absent. */
  function FindKey(links: seq<Link>, key: Path): (r: nat)
    ensures r <= |links|
    ensures r < |links| ==> links[r].dest == key
    ensures forall j :: 0 <= j < r ==> links[j].dest != key
    decreases |links|
  {
    if links == [] then 0
    else if links[0].dest == key then 0
    else 1 + FindKey(links[1..], key)
  }

  /** `key in links` */
  predicate HasKey(links: seq<Link>, key: Path)
  {
    FindKey(links, key) < |links|
  }

  /** `links.get(key)` */
  function Lookup(links: seq<Link>, key: Path): (r: Option<string>)
    ensures r.None? <==> !HasKey(links, key)
  {
    var i := FindKey(links, key);
    if i < |links| then Some(links[i].src) else None
  }

  /** `links[key] = value`: a present key keeps its position and takes the new value; a new key goes last. */
  function Put(links: seq<Link>, key: Path, value: string): (r: seq<Link>)
    ensures var i := FindKey(links, key);
      && |r| == (if i < |links| then |links| else |links| + 1)
      && r[i] == Link(key, value)
      && forall j :: 0 <= j < |links| && j != i ==> r[j] == links[j]
  {
    var i := FindKey(links, key);
    if i < |links| then links[i := Link(key, value)] else links + [Link(key, value)]
  }

  /** After `links[key] = value` the key maps to the value and every other key to what it mapped to before. */
  lemma PutLookup(links: seq<Link>, key: Path, value: string, k: Path)
    ensures Lookup(Put(links, key, value), k) == if k == key then Some(value) else Lookup(links, k)
  {
    var r, i := Put(links, key, value), FindKey(links, key);
    if k == key {
      FindKeyIs(r, k, i);
    } else {
      var a := FindKey(links, k);
      assert forall j :: 0 <= j < |links| && j != i ==> r[j].dest == links[j].dest;
      assert i < |r| && r[i].dest != k;
      FindKeyIs(r, k, if a < |links| then a else |r|);
    }
  }

  /** The contract of FindKey determines its result. */
  lemma FindKeyIs(links: seq<Link>, key: Path, r: nat)
    requires r <= |links|
    requires r < |links| ==> links[r].dest == key
    requires forall j :: 0 <= j < r ==> links[j].dest != key
    ensures FindKey(links, key) == r
  {
    var f := FindKey(links, key);
  }

  /** Inserting keeps the keys distinct. */
  lemma PutUnique(links: seq<Link>, key: Path, value: string)
    requires UniqueKeys(links)
    ensures UniqueKeys(Put(links, key, value))
  {
    var r, i := Put(links, key, value), FindKey(links, key);
    forall x, y | 0 <= x < y < |r| ensures r[x].dest != r[y].dest {
      if x != i && y != i {
        assert r[x] == links[x] && r[y] == links[y];
      } else if x == i {
        assert y < |links| && r[y] == links[y];
      } else {
        assert r[x] == links[x];
      }
    }
  }

  // ---------------------------------------------------------------------
  // The rules for one photo

  /** `info.split(' | ')[0]`: the file name is the info text up to its first ` | `. */
  function FileName(info: string): (r: string)
    ensures |r| <= |info| && r == info[..|r|]
    ensures forall j :: 0 <= j < |r| ==> !OccursAt(info, " | ", j)
    ensures |r| < |info| ==> OccursAt(info, " | ", |r|)
  {
    Before(info, " | ")
  }

  /** `path.joinpath(user, album, name)` */
  function Destination(root: Path, user: string, album: string, photo: Photo): (r: Path)
    ensures |r| == |root| + 3 && r[..|root|] == root
    ensures r[|root|] == user && r[|root| + 1] == album && r[|root| + 2] == FileName(photo.info)
  {
    root + [user, album, FileName(photo.info)]
  }

  /**
   * In the segment model of paths, two photos go to the same file exactly
   * when they are of the same user and album and their file names agree.
   * pathlib's dropping of empty segments, which can make different albums
   * share a folder, is not part of this model.
   */
  lemma DestinationCollides(root: Path, user1: string, album1: string, p1: Photo, user2: string, album2: string, p2: Photo)
    ensures Destination(root, user1, album1, p1) == Destination(root, user2, album2, p2) <==>
      user1 == user2 && album1 == album2 && FileName(p1.info) == FileName(p2.info)
  {
    var d1, d2 := Destination(root, user1, album1, p1), Destination(root, user2, album2, p2);
    if d1 == d2 {
      assert d1[|root|] == d2[|root|] && d1[|root| + 1] == d2[|root| + 1] && d1[|root| + 2] == d2[|root| + 2];
    }
  }

  /** A video's embedded file, otherwise `storage + 'images/' + fileName`. */
  function Source(storage: string, photo: Photo): (r: string)
    ensures photo.videoFile.Some? ==> r == photo.videoFile.value
    ensures photo.videoFile.None? ==> r == storage + "images/" + photo.fileName
  {
    match photo.videoFile
    case Some(file) => file
    case None => storage + "images/" + photo.fileName
  }

  /** Where the album's files go. */
  datatype Album = Album(root: Path, user: string, album: string, storage: string)

  function Dest(a: Album, photo: Photo): Path
  {
    Destination(a.root, a.user, a.album, photo)
  }

  function Src(a: Album, photo: Photo): string
  {
    Source(a.storage, photo)
  }

  /** The key/value pairs the comprehension produces, one per photo, in order. */
  function Entries(a: Album, photos: seq<Photo>): (r: seq<Link>)
    ensures |r| == |photos| && forall i :: 0 <= i < |photos| ==> r[i] == Link(Dest(a, photos[i]), Src(a, photos[i]))
  {
    seq(|photos|, i requires 0 <= i < |photos| => Link(Dest(a, photos[i]), Src(a, photos[i])))
  }

  /** Building a dict from pairs in order. */
  function Insert(entries: seq<Link>): (r: seq<Link>)
    ensures UniqueKeys(r) && |r| <= |entries|
    ensures |r| == 0 <==> |entries| == 0
    decreases |entries|
  {
    if entries == [] then []
    else
      var n := |entries| - 1;
      var r0 := Insert(entries[..n]);
      PutUnique(r0, entries[n].dest, entries[n].src);
      Put(r0, entries[n].dest, entries[n].src)
  }

  /** The dict comprehension of rajce.py:144-147. */
  function BuildLinks(a: Album, photos: seq<Photo>): seq<Link>
  {
    Insert(Entries(a, photos))
  }

  /** A key is in the dict exactly when some pair has it. */
  lemma {:induction false} InsertDomain(entries: seq<Link>, key: Path)
    ensures HasKey(Insert(entries), key) <==> exists i :: 0 <= i < |entries| && entries[i].dest == key
    decreases |entries|
  {
    if entries != [] {
      var n := |entries| - 1;
      var init := entries[..n];
      var r0 := Insert(init);
      assert Insert(entries) == Put(r0, entries[n].dest, entries[n].src);
      InsertDomain(init, key);
      PutLookup(r0, entries[n].dest, entries[n].src, key);
      assert HasKey(Insert(entries), key) <==> key == entries[n].dest || HasKey(r0, key);
      assert forall i :: 0 <= i < n ==> init[i] == entries[i];
    }
  }

  /** The last pair with a key decides its value. */
  lemma {:induction false} InsertLastWins(entries: seq<Link>, i: nat)
    requires i < |entries|
    requires forall j :: i < j < |entries| ==> entries[j].dest != entries[i].dest
    ensures Lookup(Insert(entries), entries[i].dest) == Some(entries[i].src)
    decreases |entries|
  {
    var n := |entries| - 1;
    var init, e := entries[..n], entries[n];
    var r0 := Insert(init);
    assert Insert(entries) == Put(r0, e.dest, e.src);
    PutLookup(r0, e.dest, e.src, entries[i].dest);
    if i < n {
      assert init[i] == entries[i];
      assert forall j :: i < j < n ==> init[j] == entries[j];
      InsertLastWins(init, i);
    }
  }

  /** A key that occurs before index `n` is first found at the same place in any extension. */
  lemma FindKeyPrefix(entries: seq<Link>, n: nat, key: Path)
    requires n <= |entries| && FindKey(entries[..n], key) < n
    ensures FindKey(entries, key) == FindKey(entries[..n], key)
  {
    assert forall j :: 0 <= j < n ==> entries[..n][j] == entries[j];
  }

  /** The keys of `r` come in the order in which `entries` first has them. */
  predicate InFirstOrder(r: seq<Link>, entries: seq<Link>)
  {
    forall x, y :: 0 <= x < y < |r| ==> FindKey(entries, r[x].dest) < FindKey(entries, r[y].dest)
  }

  /** One insertion keeps the first-occurrence order. */
  lemma InsertOrderStep(entries: seq<Link>, r0: seq<Link>)
    requires entries != [] && InFirstOrder(r0, entries[..|entries| - 1])
    requires forall x :: 0 <= x < |r0| ==> FindKey(entries[..|entries| - 1], r0[x].dest) < |entries| - 1
    requires forall k :: HasKey(r0, k) <==> FindKey(entries[..|entries| - 1], k) < |entries| - 1
    ensures InFirstOrder(Put(r0, entries[|entries| - 1].dest, entries[|entries| - 1].src), entries)
  {
    var n := |entries| - 1;
    var init := entries[..n];
    var e := entries[n];
    var r := Put(r0, e.dest, e.src);
    var i := FindKey(r0, e.dest);
    forall x | 0 <= x < |r0| ensures FindKey(entries, r0[x].dest) == FindKey(init, r0[x].dest) {
      FindKeyPrefix(entries, n, r0[x].dest);
    }
    assert forall x :: 0 <= x < |r0| ==> r[x].dest == r0[x].dest;
    if i == |r0| {
      assert !HasKey(r0, e.dest);
      assert FindKey(init, e.dest) == n;
      assert forall j :: 0 <= j < n ==> init[j] == entries[j];
      FindKeyIs(entries, e.dest, n);
      assert r[|r0|].dest == e.dest;
    }
  }

  /** The keys keep the order of the pair that first had each of them. */
  lemma {:induction false} InsertOrder(entries: seq<Link>)
    ensures InFirstOrder(Insert(entries), entries)
    decreases |entries|
  {
    if entries != [] {
      var n := |entries| - 1;
      var init := entries[..n];
      var r0 := Insert(init);
      InsertOrder(init);
      forall k ensures HasKey(r0, k) <==> FindKey(init, k) < n {
        InsertDomain(init, k);
      }
      forall x | 0 <= x < |r0| ensures FindKey(init, r0[x].dest) < n {
        assert FindKey(r0, r0[x].dest) <= x;
      }
      InsertOrderStep(entries, r0);
    }
  }

  /** Pairs with distinct keys give the dict of exactly those pairs, in order. */
  lemma {:induction false} InsertDistinct(entries: seq<Link>)
    requires UniqueKeys(entries)
    ensures Insert(entries) == entries
    decreases |entries|
  {
    if entries != [] {
      var n := |entries| - 1;
      var init, e := entries[..n], entries[n];
      assert forall i :: 0 <= i < n ==> init[i] == entries[i];
      InsertDistinct(init);
      assert Insert(entries) == Put(init, e.dest, e.src);
      FindKeyIs(init, e.dest, n);
      assert Put(init, e.dest, e.src) == init + [Link(e.dest, e.src)];
      assert entries == init + [e];
    }
  }

  // ---------------------------------------------------------------------
  // The four rules for the table

  /** The table holds a destination exactly when some photo has it. */
  lemma LinksDomain(a: Album, photos: seq<Photo>, key: Path)
    ensures HasKey(BuildLinks(a, photos), key) <==> exists i :: 0 <= i < |photos| && Dest(a, photos[i]) == key
  {
    InsertDomain(Entries(a, photos), key);
  }

  /**
   * The URL stored for a destination is that of the last photo with it: a
   * video's embedded file, or the storage URL, `images/` and the file name.
   */
  lemma LinksLastWins(a: Album, photos: seq<Photo>, i: nat)
    requires i < |photos|
    requires forall j :: i < j < |photos| ==> Dest(a, photos[j]) != Dest(a, photos[i])
    ensures Lookup(BuildLinks(a, photos), Dest(a, photos[i])) == Some(Src(a, photos[i]))
  {
    InsertLastWins(Entries(a, photos), i);
  }

  /** The destinations are kept in the order of the photo that first had each of them. */
  lemma LinksOrder(a: Album, photos: seq<Photo>)
    ensures InFirstOrder(BuildLinks(a, photos), Entries(a, photos))
  {
    InsertOrder(Entries(a, photos));
  }

  /** Without colliding destinations every photo has its own entry, in photo order. */
  lemma LinksDistinct(a: Album, photos: seq<Photo>)
    requires forall i, j :: 0 <= i < j < |photos| ==> Dest(a, photos[i]) != Dest(a, photos[j])
    ensures BuildLinks(a, photos) == Entries(a, photos)
  {
    InsertDistinct(Entries(a, photos));
  }

  /** The table has at most one entry per photo and is empty only without photos. */
  lemma LinksSize(a: Album, photos: seq<Photo>)
    ensures |BuildLinks(a, photos)| <= |photos|
    ensures BuildLinks(a, photos) == [] <==> photos == []
    ensures UniqueKeys(BuildLinks(a, photos))
  {
  }

  // ---------------------------------------------------------------------
  // rajce.py:132-160: from the configuration to the table

  /** `albumUserName`, `albumServerDir` and `storage` are all present, and so is `photos`. */
  predicate Complete(config: map<string, string>)
  {
    && "albumUserName" in config && "albumServerDir" in config && "storage" in config
    && "photos" in config
  }

  function AlbumOf(root: Path, config: map<string, string>): Album
    requires Complete(config)
  {
    Album(root, config["albumUserName"], config["albumServerDir"], config["storage"])
  }

  /**
   * The end of getMediaLinks, given its configuration: `decode` stands for
   * `json.loads` and `mkdir` for whether creating the album folder succeeds.
   */
  function LinksFromConfig(root: Path, config: map<string, string>, decode: string -> seq<Photo>, mkdir: Path -> bool): (r: seq<Link>)
    ensures r != [] <==>
      && Complete(config)
      && decode(config["photos"]) != []
      && mkdir(root + [config["albumUserName"], config["albumServerDir"]])
    ensures r != [] ==> r == BuildLinks(AlbumOf(root, config), decode(config["photos"]))
    ensures UniqueKeys(r)
  {
    if !("albumUserName" in config && "albumServerDir" in config && "storage" in config) then []
    else if "photos" !in config then []
    else
      var links := BuildLinks(AlbumOf(root, config), decode(config["photos"]));
      if |links| > 0 && !mkdir(root + [config["albumUserName"], config["albumServerDir"]]) then []
      else links
  }
}
