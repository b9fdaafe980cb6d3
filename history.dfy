// The history file (rajce.py:43-53, 211-214): one downloaded source URL per
// line. downloadAlbum appends `url + "\n"`; getHistory reads the file back
// line by line when the downloader starts.

module History {
  import opened Text

  /** The first line of a non-empty text: up to and including its first newline, or all of it. */
  function FirstLine(text: string): (r: string)
    requires text != []
    ensures 0 < |r| <= |text|
  {
    var i := FindFirst(text, {'\n'}, 0);
    if i == |text| then text else text[..i + 1]
  }

  /** The first line starts the text, holds no newline before its end, and ends with one unless it is all of the text. */
  lemma FirstLineSpec(text: string)
    requires text != []
    ensures var r := FirstLine(text);
      && r == text[..|r|]
      && '\n' !in r[..|r| - 1]
      && (|r| < |text| ==> r[|r| - 1] == '\n')
  {
    var i := FindFirst(text, {'\n'}, 0);
    FindFirstSpec(text, {'\n'}, 0);
    assert forall j :: 0 <= j < i ==> text[..i][j] == text[j];
    if i == |text| {
      assert text[..|text|] == text;
    } else {
      assert text[..i + 1][..i] == text[..i];
    }
  }

  /**
   * The lines iterating over a text file yields: each holds one newline, at
   * its end, except a last line the file does not end with a newline.
   */
  function FileLines(text: string): seq<string>
    decreases |text|
  {
    if text == [] then [] else [FirstLine(text)] + FileLines(text[|FirstLine(text)|..])
  }

  /** The lines tile the text. */
  lemma {:induction false} FileLinesConcat(text: string)
    ensures Concat(FileLines(text)) == text
    decreases |text|
  {
    if text != [] {
      var l := FirstLine(text);
      FirstLineSpec(text);
      FileLinesConcat(text[|l|..]);
      assert text == l + text[|l|..];
    }
  }

  /** No line is empty, only the last may lack a newline, and no line holds one before its end. */
  lemma {:induction false} FileLinesShape(text: string)
    ensures var ls := FileLines(text);
      && (forall k :: 0 <= k < |ls| ==> ls[k] != [] && '\n' !in ls[k][..|ls[k]| - 1])
      && (forall k :: 0 <= k < |ls| - 1 ==> ls[k][|ls[k]| - 1] == '\n')
    decreases |text|
  {
    if text != [] {
      var l := FirstLine(text);
      FirstLineSpec(text);
      var rest := text[|l|..];
      FileLinesShape(rest);
      var ls := FileLines(text);
      assert ls[0] == l;
      assert forall k :: 1 <= k < |ls| ==> ls[k] == FileLines(rest)[k - 1];
      if |ls| > 1 {
        assert rest != [];
        assert |l| < |text|;
      }
    }
  }

  /** All the lines, joined. */
  function Concat(ls: seq<string>): string
    decreases |ls|
  {
    if ls == [] then [] else ls[0] + Concat(ls[1..])
  }

  /** The lines downloadAlbum writes for downloaded URLs, rajce.py:214. */
  function Serialize(urls: seq<string>): string
    decreases |urls|
  {
    if urls == [] then [] else urls[0] + "\n" + Serialize(urls[1..])
  }

  /** The file downloadAlbum writes reads back as one line per URL, each with its newline. */
  lemma {:induction false} SerializeLines(urls: seq<string>)
    requires forall k :: 0 <= k < |urls| ==> '\n' !in urls[k]
    ensures FileLines(Serialize(urls)) == seq(|urls|, k requires 0 <= k < |urls| => urls[k] + "\n")
    decreases |urls|
  {
    if urls != [] {
      var u := urls[0];
      var text := Serialize(urls);
      assert text == (u + "\n") + Serialize(urls[1..]);
      var l := FirstLine(text);
      assert forall j :: 0 <= j < |u| ==> text[j] == u[j];
      FindFirstIs(text, {'\n'}, 0, |u|);
      assert l == text[..|u| + 1];
      assert l == u + "\n";
      assert text[|u| + 1..] == Serialize(urls[1..]);
      SerializeLines(urls[1..]);
    }
  }

  /** `line[:-1]` as rajce.py:48 writes it: the last character goes, whatever it is. */
  function EntryAsWritten(line: string): string
  {
    if line == [] then [] else line[..|line| - 1]
  }

  /** The final newline removed, and nothing else: what rajce.py:48 means to do. */
  function Entry(line: string): (r: string)
    ensures line == r + "\n" || (line == r && (line == [] || line[|line| - 1] != '\n'))
  {
    if line != [] && line[|line| - 1] == '\n' then line[..|line| - 1] else line
  }

  /** getHistory as written: every line of the file with its last character cut off. */
  function ReadHistoryAsWritten(text: string): (r: seq<string>)
    ensures |r| == |FileLines(text)|
  {
    var ls := FileLines(text);
    seq(|ls|, k requires 0 <= k < |ls| => EntryAsWritten(ls[k]))
  }

  /** getHistory with the newline removed only where there is one. */
  function ReadHistory(text: string): (r: seq<string>)
    ensures |r| == |FileLines(text)|
  {
    var ls := FileLines(text);
    seq(|ls|, k requires 0 <= k < |ls| => Entry(ls[k]))
  }

  /** Reading back what downloadAlbum wrote gives back the URLs, in order. */
  lemma HistoryRoundTrip(urls: seq<string>)
    requires forall k :: 0 <= k < |urls| ==> '\n' !in urls[k]
    ensures ReadHistory(Serialize(urls)) == urls
    ensures ReadHistoryAsWritten(Serialize(urls)) == urls
  {
    SerializeLines(urls);
    var ls := FileLines(Serialize(urls));
    forall k | 0 <= k < |urls| ensures Entry(ls[k]) == urls[k] && EntryAsWritten(ls[k]) == urls[k] {
      EntryOfLine(urls[k]);
    }
  }

  /** Both readings of one written line give back the URL. */
  lemma EntryOfLine(u: string)
    ensures Entry(u + "\n") == u && EntryAsWritten(u + "\n") == u
  {
    assert (u + "\n")[..|u|] == u;
  }

  /** Both readings agree when the file ends in a newline: they differ only on a final unterminated line. */
  lemma ReadingsAgree(text: string)
    requires text == [] || text[|text| - 1] == '\n'
    ensures ReadHistoryAsWritten(text) == ReadHistory(text)
  {
    var ls := FileLines(text);
    EveryLineEnded(text);
    forall k | 0 <= k < |ls| ensures EntryAsWritten(ls[k]) == Entry(ls[k]) {
      assert Ended(ls[k]);
    }
  }

  /** A line that ends in a newline. */
  predicate Ended(line: string)
  {
    line != [] && line[|line| - 1] == '\n'
  }

  /** Every line of a file that ends in a newline, the last one included, ends in a newline. */
  lemma EveryLineEnded(text: string)
    requires text == [] || text[|text| - 1] == '\n'
    ensures forall k :: 0 <= k < |FileLines(text)| ==> Ended(FileLines(text)[k])
  {
    var ls := FileLines(text);
    FileLinesShape(text);
    if ls != [] {
      FileLinesConcat(text);
      LastChar(ls);
    }
  }

  /** The last character of the joined lines is the last character of the last line. */
  lemma {:induction false} LastChar(ls: seq<string>)
    requires ls != [] && ls[|ls| - 1] != []
    ensures Concat(ls) != [] && Concat(ls)[|Concat(ls)| - 1] == ls[|ls| - 1][|ls[|ls| - 1]| - 1]
    decreases |ls|
  {
    if |ls| > 1 {
      LastChar(ls[1..]);
    } else {
      assert Concat(ls) == ls[0] + [];
    }
  }

  /** A file whose last line lacks its newline: line[:-1] cuts the last URL short. */
  lemma TruncatedLastEntry()
    ensures ReadHistoryAsWritten("a\nbc") == ["a", "b"]
    ensures ReadHistory("a\nbc") == ["a", "bc"]
  {
    var text := "a\nbc";
    FindFirstIs(text, {'\n'}, 0, 1);
    assert FirstLine(text) == "a\n";
    assert text[2..] == "bc";
    FindFirstIs("bc", {'\n'}, 0, 2);
    assert FirstLine("bc") == "bc";
    assert "bc"[2..] == [];
    assert FileLines("bc") == ["bc"];
    var ls := FileLines(text);
    assert ls == ["a\n", "bc"];
    assert EntryAsWritten(ls[0]) == "a" && EntryAsWritten(ls[1]) == "b";
    assert Entry(ls[0]) == "a" && Entry(ls[1]) == "bc";
  }

  /**
   * rajce.py:43-53, as written: every line loses its last character.
   * `file` is the content of the history file, or None when opening or
   * reading it fails; the bare `except` then yields no history. On a file
   * that ends in a newline, as every file downloadAlbum writes does, the
   * result is also the corrected reading.
   */
  method GetHistory(file: Option<string>) returns (list: seq<string>)
    ensures file.None? ==> list == []
    ensures file.Some? ==> list == ReadHistoryAsWritten(file.value)
    ensures file.Some? && (file.value == [] || file.value[|file.value| - 1] == '\n') ==> list == ReadHistory(file.value)
  {
    if file.None? {
      return [];
    }
    var lines := FileLines(file.value);
    list := [];
    for i := 0 to |lines|
      invariant list == seq(i, k requires 0 <= k < i => EntryAsWritten(lines[k]))
    {
      var currentPlace := EntryAsWritten(lines[i]);
      list := list + [currentPlace];
    }
    if file.value == [] || file.value[|file.value| - 1] == '\n' {
      ReadingsAgree(file.value);
    }
  }
}
