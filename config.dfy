// getAlbumConfig (rajce.py:72-79): every line is trimmed and searched for
// `var (.+?) = (.+?);$`; the first assignment of a name wins, and its value is
// the right-hand side with surrounding double quotes stripped and every
// backslash deleted.

module AlbumConfig {
  import opened Text

  /** The characters `line.strip('\n\t\r ')` removes. */
  const LINE_PADDING: set<char> := {'\n', '\t', '\r', ' '}

  /** Where `;$` can end: Python's `$` matches at the end of the text and also just before a final newline. */
  function End(s: string): (e: nat)
    ensures e <= |s|
  {
    if |s| > 0 && s[|s| - 1] == '\n' then |s| - 1 else |s|
  }

  /**
   * The pattern `var (.+?) = (.+?);$` matches `s` at index `p` with a name
   * group of `k` characters; `.` is any character but a newline.
   */
  predicate MatchesAt(s: string, p: nat, k: nat)
  {
    var v := p + 4 + k + 3;
    && 1 <= k
    && v + 2 <= End(s)
    && OccursAt(s, "var ", p)
    && '\n' !in s[p + 4..p + 4 + k]
    && OccursAt(s, " = ", p + 4 + k)
    && '\n' !in s[v..End(s) - 1]
    && s[End(s) - 1] == ';'
  }

  /** The lazy name group: the shortest name length, from `k` on, that lets the pattern match at `p`. */
  function ShortestName(s: string, p: nat, k: nat): (r: Option<nat>)
    ensures r.Some? ==> MatchesAt(s, p, r.value)
    decreases |s| - k
  {
    if p + 4 + k + 5 > |s| then None
    else if MatchesAt(s, p, k) then Some(k)
    else ShortestName(s, p, k + 1)
  }

  /** ShortestName finds the least name length from `k` on at which the pattern matches, and None only when there is none. */
  lemma {:induction false} ShortestNameSpec(s: string, p: nat, k: nat)
    ensures var r := ShortestName(s, p, k);
      && (r.Some? ==> k <= r.value && MatchesAt(s, p, r.value))
      && (r.Some? ==> forall j :: k <= j < r.value ==> !MatchesAt(s, p, j))
      && (r.None? ==> forall j :: k <= j ==> !MatchesAt(s, p, j))
    decreases |s| - k
  {
    if p + 4 + k + 5 > |s| {
      forall j | k <= j ensures !MatchesAt(s, p, j) {
        assert End(s) < p + 4 + j + 5;
      }
    } else if !MatchesAt(s, p, k) {
      ShortestNameSpec(s, p, k + 1);
      var r := ShortestName(s, p, k + 1);
      assert ShortestName(s, p, k) == r;
      forall j | k <= j && (r.Some? ==> j < r.value) ensures !MatchesAt(s, p, j) {
        assert j == k || k + 1 <= j;
      }
    }
  }

  /** `re.search` tries the start positions from `p` on, left to right. */
  function LeftmostMatch(s: string, p: nat): (r: Option<(nat, nat)>)
    ensures r.Some? ==> MatchesAt(s, r.value.0, r.value.1)
    decreases |s| + 1 - p
  {
    if p > |s| then None
    else match ShortestName(s, p, 1)
      case Some(k) => Some((p, k))
      case None => LeftmostMatch(s, p + 1)
  }

  /** LeftmostMatch finds the leftmost start from `p` on and, there, the shortest name; None only when nothing matches. */
  lemma {:induction false} LeftmostMatchSpec(s: string, p: nat)
    ensures var r := LeftmostMatch(s, p);
      && (r.Some? ==> p <= r.value.0 && MatchesAt(s, r.value.0, r.value.1))
      && (r.Some? ==> forall q: nat, j: nat :: p <= q < r.value.0 ==> !MatchesAt(s, q, j))
      && (r.Some? ==> forall j: nat :: j < r.value.1 ==> !MatchesAt(s, r.value.0, j))
      && (r.None? ==> forall q: nat, j: nat :: p <= q ==> !MatchesAt(s, q, j))
    decreases |s| + 1 - p
  {
    if p <= |s| {
      var n := ShortestName(s, p, 1);
      ShortestNameSpec(s, p, 1);
      assert !MatchesAt(s, p, 0);
      if n.None? {
        LeftmostMatchSpec(s, p + 1);
        var r := LeftmostMatch(s, p + 1);
        assert LeftmostMatch(s, p) == r;
        forall q: nat, j: nat | p <= q && (r.Some? ==> q < r.value.0) ensures !MatchesAt(s, q, j) {
          if q == p {
            assert j == 0 || 1 <= j;
          }
        }
      } else {
        assert LeftmostMatch(s, p) == Some((p, n.value));
      }
    } else {
      assert forall q: nat, j: nat :: p <= q ==> !MatchesAt(s, q, j);
    }
  }

  /** The two groups of a match: the assigned name and the raw right-hand side. */
  datatype Assignment = Assignment(name: string, raw: string)

  /** `re.search('var (.+?) = (.+?);$', s)`, giving its groups 1 and 2. */
  function Search(s: string): (r: Option<Assignment>)
    ensures r.Some? ==> r.value.name != [] && r.value.raw != [] && '\n' !in r.value.name
  {
    match LeftmostMatch(s, 0)
    case None => None
    case Some((p, k)) => Some(Assignment(s[p + 4..p + 4 + k], s[p + 4 + k + 3..End(s) - 1]))
  }

  /** The search succeeds exactly when the pattern matches somewhere. */
  lemma SearchSpec(s: string)
    ensures Search(s).Some? <==> exists p: nat, k: nat :: MatchesAt(s, p, k)
  {
    LeftmostMatchSpec(s, 0);
  }

  /** `m.group(2).strip('"').replace("\\", "")` */
  function Clean(raw: string): string
  {
    Delete(Strip(raw, {'"'}), '\\')
  }

  /** A cleaned value holds no backslash. */
  lemma CleanSpec(raw: string)
    ensures '\\' !in Clean(raw)
  {
    DeleteSpec(Strip(raw, {'"'}), '\\');
  }

  function Trim(line: string): string
  {
    Strip(line, LINE_PADDING)
  }

  /** What one line contributes: the assigned name and the cleaned value, or nothing. */
  function ParseLine(line: string): Option<(string, string)>
  {
    match Search(Trim(line))
    case None => None
    case Some(a) => Some((a.name, Clean(a.raw)))
  }

  /** The contributions of the lines, one per line, in order. */
  function Parsed(lines: seq<string>): (r: seq<Option<(string, string)>>)
    ensures |r| == |lines|
    decreases |lines|
  {
    if lines == [] then [] else Parsed(lines[..|lines| - 1]) + [ParseLine(lines[|lines| - 1])]
  }

  lemma {:induction false} ParsedAt(lines: seq<string>, i: nat)
    requires i < |lines|
    ensures Parsed(lines)[i] == ParseLine(lines[i])
    decreases |lines|
  {
    if i < |lines| - 1 {
      ParsedAt(lines[..|lines| - 1], i);
    }
  }

  lemma ParsedAll(lines: seq<string>)
    ensures forall i :: 0 <= i < |lines| ==> Parsed(lines)[i] == ParseLine(lines[i])
  {
    forall i | 0 <= i < |lines| ensures Parsed(lines)[i] == ParseLine(lines[i]) {
      ParsedAt(lines, i);
    }
  }

  /** Whether the contribution `e` assigns `name`. */
  predicate Names(e: Option<(string, string)>, name: string)
  {
    e.Some? && e.value.0 == name
  }

  /** Inserting the contributions in order into a dictionary that never overwrites a present name. */
  function FirstWins(entries: seq<Option<(string, string)>>): (r: map<string, string>)
    ensures |r| <= |entries|
    decreases |entries|
  {
    if entries == [] then map[]
    else
      var m := FirstWins(entries[..|entries| - 1]);
      match entries[|entries| - 1]
      case None => m
      case Some((n, v)) => if n in m then m else m[n := v]
  }

  /** The dictionary getAlbumConfig returns for the lines of a response. */
  function Config(lines: seq<string>): (r: map<string, string>)
    ensures |r| <= |lines|
  {
    FirstWins(Parsed(lines))
  }

  /** No stored value holds a backslash. */
  lemma ConfigNoBackslash(lines: seq<string>)
    ensures forall n :: n in Config(lines) ==> '\\' !in Config(lines)[n]
  {
    var entries := Parsed(lines);
    var m := FirstWins(entries);
    FirstWinsValues(entries);
    forall n | n in m ensures '\\' !in m[n] {
      var i :| 0 <= i < |entries| && entries[i] == Some((n, m[n]));
      ParsedAt(lines, i);
      ParseLineClean(lines[i]);
    }
  }

  lemma ParseLineClean(line: string)
    ensures ParseLine(line).Some? ==> '\\' !in ParseLine(line).value.1
  {
    match Search(Trim(line))
    case None =>
    case Some(a) => CleanSpec(a.raw);
  }

  /** Every stored value is the value of some contribution assigning that name. */
  lemma {:induction false} FirstWinsValues(entries: seq<Option<(string, string)>>)
    ensures forall n :: n in FirstWins(entries) ==>
      exists i :: 0 <= i < |entries| && entries[i] == Some((n, FirstWins(entries)[n]))
    decreases |entries|
  {
    if entries != [] {
      var init := entries[..|entries| - 1];
      FirstWinsValues(init);
      var m0, m := FirstWins(init), FirstWins(entries);
      forall n | n in m ensures exists i :: 0 <= i < |entries| && entries[i] == Some((n, m[n])) {
        if n in m0 && m[n] == m0[n] {
          var i :| 0 <= i < |init| && init[i] == Some((n, m0[n]));
          assert entries[i] == init[i];
        } else {
          assert entries[|entries| - 1] == Some((n, m[n]));
        }
      }
    }
  }

  /** The loop of rajce.py:73-79. */
  method GetAlbumConfig(lines: seq<string>) returns (config: map<string, string>)
    ensures config == Config(lines)
  {
    config := map[];
    for i := 0 to |lines|
      invariant config == FirstWins(Parsed(lines[..i]))
    {
      var m := ParseLine(lines[i]);
      assert lines[..i + 1][..i] == lines[..i];
      ghost var done := Parsed(lines[..i + 1]);
      assert done == Parsed(lines[..i]) + [m];
      assert done[..i] == Parsed(lines[..i]) && done[i] == m;
      if m.None? || m.value.0 in config {
        continue;
      }
      config := config[m.value.0 := m.value.1];
    }
    assert lines[..|lines|] == lines;
  }

  // ---------------------------------------------------------------------
  // What a single line contributes

  /** A trimmed line never ends in a newline, so `$` can only match at its very end. */
  lemma TrimmedEnd(line: string)
    ensures End(Trim(line)) == |Trim(line)|
  {
    StripSpec(line, LINE_PADDING);
  }

  /** The text a match covers, from `var` to the final `;`. */
  lemma MatchedText(s: string, p: nat, k: nat)
    requires MatchesAt(s, p, k)
    ensures s[p..End(s)] == "var " + s[p + 4..p + 4 + k] + " = " + s[p + 4 + k + 3..End(s) - 1] + ";"
  {
    var e, v := End(s), p + 4 + k + 3;
    assert s[p..p + 4] == "var " && s[p + 4 + k..v] == " = " && s[e - 1..e] == ";";
    SlicePieces(s, p, p + 4, p + 4 + k, v, e - 1, e);
  }

  lemma SliceJoin(s: string, a: nat, b: nat, c: nat)
    requires a <= b <= c <= |s|
    ensures s[a..c] == s[a..b] + s[b..c]
  {
  }

  lemma SlicePieces(s: string, a: nat, b: nat, c: nat, d: nat, f: nat, g: nat)
    requires a <= b <= c <= d <= f <= g <= |s|
    ensures s[a..g] == s[a..b] + s[b..c] + s[c..d] + s[d..f] + s[f..g]
  {
    SliceJoin(s, f, g, g);
    SliceJoin(s, d, f, g);
    SliceJoin(s, c, d, g);
    SliceJoin(s, b, c, g);
    SliceJoin(s, a, b, g);
  }

  /** A character absent from a slice is absent from every slice inside it. */
  lemma NotInSubSlice(s: string, a: nat, b: nat, c: nat, d: nat, ch: char)
    requires a <= c <= d <= b <= |s| && ch !in s[a..b]
    ensures ch !in s[c..d]
  {
    forall i | 0 <= i < d - c ensures s[c..d][i] != ch {
      assert s[c..d][i] == s[a..b][c - a + i];
    }
  }

  /** A match is `var <name> = <raw>;` ending where `$` matches, with a non-empty name and value free of newlines. */
  lemma SearchShape(s: string)
    requires Search(s).Some?
    ensures var a := Search(s).value;
      && |a.name| > 0 && |a.raw| > 0 && '\n' !in a.name && '\n' !in a.raw
      && exists p: nat :: p <= End(s) && s[p..End(s)] == "var " + a.name + " = " + a.raw + ";"
  {
    var m := LeftmostMatch(s, 0);
    LeftmostMatchSpec(s, 0);
    MatchedText(s, m.value.0, m.value.1);
  }

  /** Conversely, any line holding `var <name> = <raw>;` at its end is matched by the search. */
  lemma SearchFindsAssignment(pre: string, name: string, raw: string)
    requires |name| > 0 && |raw| > 0 && '\n' !in name && '\n' !in raw
    ensures Search(pre + "var " + name + " = " + raw + ";").Some?
  {
    var s := pre + "var " + name + " = " + raw + ";";
    var p, k := |pre|, |name|;
    assert End(s) == |s|;
    assert s[p..p + 4] == "var ";
    assert s[p + 4..p + 4 + k] == name;
    assert s[p + 4 + k..p + 4 + k + 3] == " = ";
    assert s[p + 4 + k + 3..|s| - 1] == raw;
    assert MatchesAt(s, p, k);
    SearchSpec(s);
  }

  /** With a match of name length `k` at `p`, a ` = ` after only `j` name characters matches too. */
  lemma EarlierMatch(s: string, p: nat, k: nat, j: nat)
    requires MatchesAt(s, p, k) && 1 <= j < k
    requires OccursAt(s[p + 4..p + 4 + k] + " = ", " = ", j)
    ensures MatchesAt(s, p, j)
  {
    var e, v, w := End(s), p + 4 + k + 3, p + 4 + j + 3;
    var nv := s[p + 4..v];
    SliceJoin(s, p + 4, p + 4 + k, v);
    assert nv == s[p + 4..p + 4 + k] + " = ";
    assert s[p + 4 + j..w] == nv[j..j + 3];
    assert '\n' !in nv;
    NotInSubSlice(s, p + 4, p + 4 + k, p + 4, p + 4 + j, '\n');
    NotInSubSlice(s, p + 4, v, w, v, '\n');
    SliceJoin(s, w, v, e - 1);
  }

  /** With a match of name length `k` at `p`, a ` = ` after only `j` name characters would already have matched. */
  lemma NoEarlierSeparator(s: string, p: nat, k: nat, j: nat)
    requires MatchesAt(s, p, k) && 1 <= j < k && !MatchesAt(s, p, j)
    ensures !OccursAt(s[p + 4..p + 4 + k] + " = ", " = ", j)
  {
    if OccursAt(s[p + 4..p + 4 + k] + " = ", " = ", j) {
      EarlierMatch(s, p, k, j);
    }
  }

  /**
   * The lazy `(.+?)` makes the name as short as possible: no ` = ` inside
   * the matched name could already have ended it.
   */
  lemma SearchShortestName(s: string)
    requires Search(s).Some?
    ensures var n := Search(s).value.name;
      forall j :: 1 <= j < |n| ==> !OccursAt(n + " = ", " = ", j)
  {
    var m := LeftmostMatch(s, 0);
    LeftmostMatchSpec(s, 0);
    var p, k := m.value.0, m.value.1;
    var n := Search(s).value.name;
    assert n == s[p + 4..p + 4 + k];
    forall j | 1 <= j < |n| ensures !OccursAt(n + " = ", " = ", j) {
      NoEarlierSeparator(s, p, k, j);
    }
  }

  // ---------------------------------------------------------------------
  // The whole configuration

  /** A name is stored exactly when some contribution assigns it. */
  lemma {:induction false} FirstWinsDomain(entries: seq<Option<(string, string)>>, n: string)
    ensures n in FirstWins(entries) <==> exists i :: 0 <= i < |entries| && Names(entries[i], n)
    decreases |entries|
  {
    if entries != [] {
      var init := entries[..|entries| - 1];
      FirstWinsDomain(init, n);
      assert forall i :: 0 <= i < |init| ==> init[i] == entries[i];
    }
  }

  /** The first contribution that assigns a name decides its value. */
  lemma {:induction false} FirstWinsFirst(entries: seq<Option<(string, string)>>, i: nat, n: string)
    requires i < |entries| && Names(entries[i], n)
    requires forall j :: 0 <= j < i ==> !Names(entries[j], n)
    ensures n in FirstWins(entries) && FirstWins(entries)[n] == entries[i].value.1
    decreases |entries|
  {
    var init := entries[..|entries| - 1];
    assert forall j :: 0 <= j < |init| ==> init[j] == entries[j];
    if i < |entries| - 1 {
      FirstWinsFirst(init, i, n);
    } else {
      FirstWinsDomain(init, n);
    }
  }

  /** A name is in the configuration exactly when some line assigns it. */
  lemma ConfigDomain(lines: seq<string>, n: string)
    ensures n in Config(lines) <==> exists i :: 0 <= i < |lines| && ParseLine(lines[i]).Some? && ParseLine(lines[i]).value.0 == n
  {
    FirstWinsDomain(Parsed(lines), n);
    ParsedAll(lines);
  }

  /** The first line that assigns a name decides its value; later assignments of the name are ignored. */
  lemma ConfigFirstWins(lines: seq<string>, i: nat, n: string)
    requires i < |lines| && ParseLine(lines[i]).Some? && ParseLine(lines[i]).value.0 == n
    requires forall j :: 0 <= j < i ==> !(ParseLine(lines[j]).Some? && ParseLine(lines[j]).value.0 == n)
    ensures n in Config(lines) && Config(lines)[n] == ParseLine(lines[i]).value.1
  {
    ParsedAll(lines);
    FirstWinsFirst(Parsed(lines), i, n);
  }
}
