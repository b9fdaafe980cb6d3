# rajce.py — a Dafny model of the album downloader

rajce.py downloads the photo and video albums of rajce.net. It is given
album URLs and user-page URLs. For a user page it takes the album links of
the page's RSS feed. For each album it works in four steps:

1. It fetches the album page.
2. It reads the JavaScript assignments `var name = value;` of the page into
   a configuration.
3. It builds a link table that maps each destination file to its source URL.
4. It downloads the files of the table.

When the page holds no `photos` and brute force is on, it retries the album.
The retries use credentials guessed from the URL: the first label of the
host and the path, tried as login and password.

With the archive option it reads a history file of already downloaded
source URLs at start-up. It skips those sources, and it appends one line per
new download.

This project models that core in Dafny and proves what it promises. The
modules follow the program's parts:

| file | module | models |
|---|---|---|
| text.dfy | Text | `str.strip`/`lstrip`/`rstrip`, `str.replace(c, "")`, `str.split(sep)[0]`, searching for a character |
| config.dfy | AlbumConfig | `getAlbumConfig`, and the regular expression `var (.+?) = (.+?);$` with Python's lazy groups, leftmost search and `$` |
| urls.dfy | Urls | `urlsplit`, the path of `urlparse` (its `;params` cut), the album/user-page test of `download`, and the credential pattern `login=(.+)&password=(.+)` of `getUrl` |
| links.dfy | MediaLinks | the insertion-ordered dict of `getMediaLinks` and the checks that lead to it |
| bruteforce.dfy | BruteForce | `bruteForce`: base URL, candidate names, the nested login/password loops |
| history.dfy | History | the history file: the lines `for line in f` yields, `getHistory`, and what `downloadAlbum` appends |
| batch.dfy | Batch | the file list of `downloadAlbum`, the results of `downloadFile`, and the history lines written for them |
| rajce.dfy | Downloader | the `Rajce` object: its fields, and the methods `__init__`, `getMediaLinks`, `downloadFile`, `downloadAlbum` and `download` |

The `Rajce` object is a class. Its fields are the settings, the history read
at start-up, the current link table, and the history file's text. The
methods that update them are proved against functions of the old state:

- `DownloadAlbum` leaves `links == MediaLinksOf(url, …)` and appends
  `Serialize(AlbumWrites(links, …))` to the history file.
- `Download` appends the writes of every album of `AlbumQueue(urls, gallery)`,
  in order.

The loops of the source stay loops with invariants:

- the line loop of `getAlbumConfig`;
- the nested loops of `bruteForce`;
- the line loop of `getHistory`;
- the write loop of `downloadAlbum`;
- the two loops of `download`.

The outside world comes in as the value `Net`, a set of functions of the
URL:

- `page` is `getUrl`: the response lines, or None for a URLError;
- `resolve` follows redirects;
- `swapped` is the iteration order of the two-name set;
- `decode` is `json.loads`;
- `mkdir` says whether the album folder is made;
- `fetch` is how `urlretrieve` ends;
- `gallery` is the RSS album list.

Differences between the code and its documentation follow the code:

- Already-downloaded files are recognised by their source URL, as
  rajce.py:203-204 compares `self.links[x]` with the history.
- The history is read once, at start-up. Downloads of the same run do not
  update it.

## Model

| member | source | states |
|---|---|---|
| Text.FindFirstSpec | rajce.py:47 | the search skips only characters outside the set and stops at the first one inside it, or at the end |
| Text.StripLeftSpec | rajce.py:75 | lstrip keeps a suffix that starts with a character outside the set, and drops only characters in it |
| Text.StripRightSpec | rajce.py:75 | rstrip keeps a prefix that ends with a character outside the set, and drops only characters in it |
| Text.StripSpec | rajce.py:75 | strip's result neither starts nor ends with a stripped character, keeps only characters of the input, and is empty exactly when every character is stripped |
| Text.StripPadded | rajce.py:85 | strip removes exactly the padding around a core that neither starts nor ends with a stripped character |
| Text.DeleteSpec | rajce.py:77 | `replace("\\", "")` removes every backslash and keeps every other character; a text without one is unchanged |
| Text.DeleteCounts | rajce.py:77 | `replace` keeps every other character exactly as often as the text holds it |
| Text.DeleteOne | rajce.py:77 | on one character, `replace` drops a lone backslash and keeps any other character |
| Text.DeleteAppend | rajce.py:77 | `replace` works piece by piece: deleting from a concatenation concatenates the deletions, so the kept characters stay in order |
| Text.Before | rajce.py:85 | `split(sep)[0]` is the prefix before the first occurrence of the separator, or the whole text |
| Text.BeforeSplits | rajce.py:88 | the part before the first separator comes back from `split(sep)[0]` |
| Text.BeforeNoSeparator | rajce.py:85 | a text without the separator is its own `split(sep)[0]` |
| AlbumConfig.ShortestNameSpec | rajce.py:75 | the lazy name group is the least length, from the given one on, at which the pattern matches; none when none does |
| AlbumConfig.LeftmostMatchSpec | rajce.py:75 | `re.search` picks the leftmost start that matches and, there, the shortest name |
| AlbumConfig.Search | rajce.py:75-76 | a found assignment has a non-empty name without a newline and a non-empty raw value |
| AlbumConfig.SearchSpec | rajce.py:75-76 | the search succeeds exactly when the pattern matches somewhere in the trimmed line |
| AlbumConfig.TrimmedEnd | rajce.py:75 | after `strip('\n\t\r ')` no final newline is left, so `$` matches only at the very end |
| AlbumConfig.SearchShape | rajce.py:75 | a match is `var <name> = <raw>;` ending where `$` matches, with non-empty groups free of newlines |
| AlbumConfig.SearchFindsAssignment | rajce.py:75 | conversely, every line ending in `var <name> = <raw>;` is matched |
| AlbumConfig.SearchShortestName | rajce.py:75 | the matched name holds no ` = ` that could have ended it earlier |
| AlbumConfig.CleanSpec | rajce.py:77 | a cleaned value holds no backslash |
| AlbumConfig.ConfigNoBackslash | rajce.py:77 | no value stored in the configuration holds a backslash |
| AlbumConfig.FirstWinsDomain | rajce.py:76-77 | a name is stored exactly when some line assigns it |
| AlbumConfig.FirstWinsFirst | rajce.py:76-77 | the first assignment of a name decides its value |
| AlbumConfig.Config | rajce.py:72-79 | the configuration has at most one name per line of the response |
| AlbumConfig.ConfigDomain | rajce.py:74-77 | a name is in the configuration of a response exactly when one of its lines assigns it |
| AlbumConfig.ConfigFirstWins | rajce.py:74-77 | the first line assigning a name gives its value, and later ones are ignored |
| AlbumConfig.GetAlbumConfig | rajce.py:72-79 | the loop returns the first-wins configuration of the response's lines |
| Urls.SanitizeSpec | rajce.py:88 | urlsplit's clean-up only removes characters, and leaves no tab, CR or LF |
| Urls.SplitSchemeSpec | rajce.py:88 | a scheme is split off before its `:` and lower-cased; without a scheme the whole text is the rest |
| Urls.SplitNetlocSpec | rajce.py:88 | after `//` the network location runs up to the first `/`, `?` or `#`, which starts the tail |
| Urls.SplitAtSpec | rajce.py:89 | splitting at the first delimiter gives a first part without it; the parts and the delimiter make up the text |
| Urls.SplitUrlSpec | rajce.py:88-89 | urlsplit's parts hold no delimiter of a later part |
| Urls.SplitCompose | rajce.py:88-89 | urlsplit gives back the parts of a well-formed composed URL (round trip) |
| Urls.FindLastSpec | rajce.py:175 | rfind finds the last occurrence, and -1 only when there is none |
| Urls.WithoutParamsSpec | rajce.py:175 | urlparse's path is cut at the first `;` after the last `/` (after the start when there is no `/`), and kept whole when there is no such `;` |
| Urls.ParsedPath | rajce.py:175 | the path of urlparse is a prefix of the path urlsplit gives |
| Urls.IsAlbumUrl | rajce.py:175-176 | an album URL has a non-empty parsed path |
| Urls.AlbumUrlPath | rajce.py:175-176 | a URL is an album URL exactly when its parsed path holds a character other than `/` |
| Urls.LongestLoginSpec | rajce.py:112 | the greedy login group is the longest length at which the pattern still matches |
| Urls.CredSearchSpec | rajce.py:112 | the credential search picks the leftmost start that matches and, there, the longest login |
| Urls.CredentialsSpec | rajce.py:112-113 | the groups are found exactly when the pattern matches, and both are non-empty text without a newline |
| Urls.GroupsToEnd | rajce.py:113 | with no newline after the login, the password group runs to the end of the URL |
| Urls.CredentialsAt | rajce.py:112-113 | the groups of the match are the login and the rest of the URL when no newline follows |
| Urls.CredentialsOf | rajce.py:112-113 | a URL built as bruteForce builds it gives its login and password back |
| Urls.GetUrlRequestSpec | rajce.py:111-116 | getUrl posts to the URL itself, and the form it posts is non-empty exactly when the pattern matches |
| Urls.RequestOf | rajce.py:112-116 | such a URL is posted with exactly `login` and `code` set to its login and password |
| MediaLinks.PutLookup | rajce.py:144-147 | after `d[key] = value` the key maps to the value and every other key keeps its value |
| MediaLinks.PutUnique | rajce.py:144-147 | an assignment keeps the keys distinct |
| MediaLinks.FileName | rajce.py:145 | the file name is the prefix of `info` before the first occurrence of the separator (space, bar, space) |
| MediaLinks.DestinationCollides | rajce.py:144-146 | with paths as segment sequences (pathlib normalisation left out), two photos go to the same file exactly when they are of the same user and album and their file names agree |
| MediaLinks.LinksDomain | rajce.py:144-147 | the table holds a destination exactly when some photo has it |
| MediaLinks.LinksLastWins | rajce.py:144-147 | the URL stored for a destination is that of the last photo with it |
| MediaLinks.LinksOrder | rajce.py:144-147 | destinations keep the order of the photo that first had each of them |
| MediaLinks.LinksDistinct | rajce.py:144-147 | without colliding destinations, every photo has its own entry, in photo order |
| MediaLinks.LinksSize | rajce.py:144-147 | at most one entry per photo, empty only without photos, keys distinct |
| MediaLinks.LinksFromConfig | rajce.py:133-160 | the table is non-empty exactly when the three keys and `photos` are present, photos decode to a non-empty list and the folder is made; it is then the comprehension's dict |
| BruteForce.BaseUrlSpec | rajce.py:85 | the base URL holds no `?`, only characters of the resolved URL, and neither starts nor ends with `/` |
| BruteForce.Candidates | rajce.py:94 | `list(set([a, b]))` holds exactly `a` and `b`, each once |
| BruteForce.AllPairsMembers | rajce.py:96-97 | the nested loops visit every (login, password) combination, each once |
| BruteForce.PairsShape | rajce.py:87-97 | one pair when both names coincide, four otherwise, and every pair of the names among them |
| BruteForce.EmptyNotAccepted | rajce.py:104-105 | an empty response yields no `photos` |
| BruteForce.SearchResult | rajce.py:96-109 | a non-empty response the search returns has a configuration with `photos` |
| BruteForce.SearchResultSpec | rajce.py:96-109 | a non-empty response comes back exactly when some attempt is accepted: the first accepted one, after trying exactly the URLs up to it; otherwise `''` after trying all |
| BruteForce.AttemptRequest | rajce.py:99 | each attempt posts its own login and password when the names keep the pattern unambiguous |
| BruteForce.BruteForce | rajce.py:81-109 | the method returns the search's result and tries the search's URLs |
| BruteForce.TryPairs | rajce.py:96-109 | the nested loops agree with the search over all attempt URLs |
| BruteForce.TryLogin | rajce.py:97-108 | the inner loop tries one login's passwords in order and stops at the first accepted response |
| History.FirstLineSpec | rajce.py:47 | a line of the file runs up to and including its first newline, or to the end |
| History.FileLinesConcat | rajce.py:47 | the lines of the file make up the file |
| History.FileLinesShape | rajce.py:47 | no line is empty; each holds its newline only at its end; only the last may lack one |
| History.SerializeLines | rajce.py:214 | the file the writes make reads back as one line per URL |
| History.Entry | rajce.py:48 | the final newline is removed, and nothing else |
| History.ReadHistory | rajce.py:47-49 | the corrected reading: one history entry per line of the file |
| History.ReadHistoryAsWritten | rajce.py:47-49 | the reading as written: one history entry per line of the file |
| History.HistoryRoundTrip | rajce.py:47-49 | reading back the written file gives the URLs, in order, both as written and corrected |
| History.ReadingsAgree | rajce.py:48 | for a file that ends in a newline, `line[:-1]` and the corrected reading agree |
| History.TruncatedLastEntry | rajce.py:48 | for the file `a\nbc`, `line[:-1]` reads `b` where the corrected reading gives `bc` |
| History.GetHistory | rajce.py:43-53 | the loop reads the file as written, every line losing its last character, and nothing when the file cannot be opened; on a file ending in a newline this is the corrected reading |
| Batch.Kept | rajce.py:203-204 | the kept links are at most the table's, and all of it with history off |
| Batch.KeptMembers | rajce.py:203-204 | a link is fetched exactly when history is off or its source is not in the history |
| Batch.KeptPositionsSpec | rajce.py:203-204 | the kept links are a subsequence of the table: each sits at a table position, and the positions increase |
| Batch.KeptOrder | rajce.py:203-204 | the kept links keep the table's order |
| Batch.FileList | rajce.py:203-204 | the file list is no longer than the table |
| Batch.FileListMembers | rajce.py:203-204 | the file list is exactly the keys whose source is new, or all keys with history off |
| Batch.FileListAll | rajce.py:204 | with history off, every key is fetched, in table order |
| Batch.RecordedMembers | rajce.py:212-214 | a URL is written exactly when history is on and some download returned it, non-empty |
| Batch.RecordedOff | rajce.py:213 | with history off nothing is written |
| Batch.RecordedPrefix | rajce.py:212-214 | writing is in order: more results extend the lines written |
| Batch.RecordedFetched | rajce.py:212-214 | every written URL was fetched successfully from the list |
| Downloader.SettledConfigSpec | rajce.py:126-130 | the configuration is kept when it has `photos` or brute force is off; otherwise it ends with `photos` exactly when some attempt is accepted, and is kept when none is |
| Downloader.MediaLinksOf | rajce.py:120-160 | the table getMediaLinks returns has distinct keys |
| Downloader.FileListKeys | rajce.py:203-204 | every file of the list is a key of the table |
| Downloader.AlbumWritesMembers | rajce.py:200-214 | a URL is written for a table exactly when history is on, it is a non-empty new source of the table, and its download succeeded |
| Downloader.AlbumWritesOff | rajce.py:213 | with history off downloadAlbum writes nothing |
| Downloader.FlattenMembers | rajce.py:174-181 | the concatenated lists hold exactly what some item gives |
| Downloader.FlattenAppend | rajce.py:174-181 | visiting two runs of URLs is visiting their concatenation |
| Downloader.AlbumQueueMembers | rajce.py:174-181 | the albums visited are each given album URL and each album of each given user page |
| Downloader.AlbumQueueOne | rajce.py:175-181 | one URL gives itself as an album, or its gallery in feed order |
| Downloader.QueueWritesMembers | rajce.py:173-181 | a URL is written during the run exactly when downloading one of the visited albums writes it |
| Downloader.SerializeAppend | rajce.py:211-214 | writing lines one after another gives the serialised list |
| Downloader.Rajce.constructor | rajce.py:33-41 | the settings are stored; the history is read as written, only with archive; the path defaults to the script folder |
| Downloader.Rajce.GetMediaLinks | rajce.py:120-160 | the method returns `MediaLinksOf`: the first response, replaced by brute force only when it lacks `photos` |
| Downloader.Rajce.DownloadFile | rajce.py:183-198 | the result is the table's URL for the file exactly when the fetch succeeded |
| Downloader.Rajce.DownloadAlbum | rajce.py:200-215 | the new table is the album's, the history file grows by that table's writes, and nothing else changes |
| Downloader.Rajce.FetchAll | rajce.py:203-214 | the history file grows by exactly the writes for the current table |
| Downloader.Rajce.DownloadQueue | rajce.py:180-181 | the history file grows by the writes of each album of the queue, in order; the table left is the last album's |
| Downloader.Rajce.DownloadUrl | rajce.py:175-181 | the history file grows by the writes of the URL's albums: the URL itself when it is an album URL, else its gallery's albums; the settings stay as they were |
| Downloader.Rajce.Download | rajce.py:173-181 | the history file grows by the writes of every visited album, in order, and the settings stay as they were |

## Left out

- The network and the file system are not modelled. `urlopen`, `urlretrieve`, `mkdir` and `open` are inputs in `Net`, or constructor parameters.
- Each input of `Net` is a fixed function of its URL: the same URL gives the same answer throughout a run.
- Downloads are sequential in the model. The pool of `THREADS_COUNT` = 10 threads is not modelled: `Pool(self.THREADS_COUNT).imap` runs the downloads on threads, but `imap` yields their results in list order, and the writes follow that order.
- A history file that cannot be read is modelled as None, which gives no history. This matches the bare `except` of rajce.py:50-51.
- Logging is not modelled: `setLogger` and every `logger` call.
- The command line (`argparse`, `__main__`) is not modelled.
- The unused class attributes are not modelled: `videoStorage`, `securityCode`, `storage`, `filePath`.
- getAlbumsList: not modelled. Building the RSS URL, fetching it and parsing the XML (rajce.py:162-171) are the `gallery` input.
- The `URLError` that `urlopen(url).geturl()` can raise at rajce.py:84 is not modelled. It is not caught there, and it would end the program; `resolve` is total.
- Errors from `json.loads` and from missing keys in a photo record are not modelled (rajce.py:142-146). `decode` gives the decoded records.
- `response.splitlines(True)` is not modelled at the character level. A response is given as its lines, so line boundaries other than `\n` are not modelled.
- Text-mode newline translation of the history file is not modelled (`\r\n` read as `\n`).
- The bytes sent by `urlencode(...).encode()` and `read().decode('utf-8')` are not modelled. A request is the URL and its form pairs.
- GetUrlRequestSpec: states the form, not the body bytes. The body is always given, `b''` for the empty form, so every request is a POST; the percent-encoding of the form is not modelled.
- Downloader.Rajce.DownloadFile: only the outcomes downloadFile catches are modelled, in `FetchOutcome` and Batch.FileResult: success, `HTTPError`, `ContentTooShortError` and `URLError`. Any other exception, such as a `ValueError` for a URL without a scheme or an `OSError` when writing the file, is not caught. It would end the whole run through `Pool.imap`, and that abort is not modelled.
- Paths are sequences of segments. pathlib's normalisation is not modelled: it drops empty and `.` segments, so a photo whose `info` is empty or starts with ` | ` is saved onto the album folder itself, and the user/album pairs `(u, "", x)` and `(u, x, "")` give the same folder. Absolute segments, `..`, and separators inside `info`, the user or the album are not modelled either, nor is the folder `Path(__file__).resolve()` gives.
- Python raises `ValueError` in `urlsplit` for a malformed bracketed host or port. That check is not modelled, nor is the NFKC check of the network location.
- BruteForce.HostLabel and BruteForce.PathName have no contracts of their own. They are the compositions of rajce.py:88-89, and AttemptRequest and the search lemmas are stated over them.
- Downloader.Net: `page` gives only the lines of a page or None for getUrl's `URLError`, which getMediaLinks (rajce.py:121-125) and bruteForce (rajce.py:98-102) catch. The other exceptions of getUrl are not caught and end the whole run. They are not modelled: the `ValueError` of `Request` for a URL without a scheme, the `UnicodeDecodeError` of `.decode('utf-8')` on a page that is not UTF-8, and errors of `.read()`. The same holds for `gallery`: getAlbumsList (rajce.py:162-171) catches only `URLError`, and the read and XML parsing errors are not modelled. `gallery` gives only strings, so the model cannot produce the None that an empty `<link/>` in the RSS puts in the album list (rajce.py:171); downloadAlbum(None) then fails with a `TypeError` in getUrl's `re.search` (rajce.py:112). A failing `open(..., 'a+')` of the history file (rajce.py:211) also ends the run, and is not modelled.
- Downloader.Rajce.Download: its ensures assume every URL of the run is handled. A run that one of the uncaught exceptions above stops early, leaving only the writes made before it, is not modelled.
- Downloader.Rajce.Download: does not state the link table left after the run, which is the table of the last album visited. The cost is too high for the verifier, so only DownloadQueue and DownloadAlbum state the table they leave.
- The constructor's `path` argument is an Option. None stands for any falsy argument; the empty string is one.

## Findings

| source | as written | input that shows it | evidently intended | confidence | as-written member | corrected member |
|---|---|---|---|---|---|---|
| rajce.py:48 | `currentPlace = line[:-1]` cuts the last character of every line, even a final line that has no newline | a history file `a\nbc`, whose last line was not written by downloadAlbum, reads `["a", "b"]` | remove only a trailing newline, reading `["a", "bc"]` | not executed; medium: downloadAlbum always writes `url + "\n"`, so only a file edited by hand or cut short shows it | History.TruncatedLastEntry | History.ReadHistory |

The class runs the code as written: GetHistory and the constructor use
ReadHistoryAsWritten. The corrected ReadHistory carries HistoryRoundTrip.
ReadingsAgree shows that the two readings are equal on every file that ends
in a newline, and every file downloadAlbum writes does.
