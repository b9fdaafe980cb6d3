// String helpers with Python's meaning: str.strip, str.replace with "",
// str.split(sep)[0] and str.find on a set of characters.

module Text {

  datatype Option<T> = None | Some(value: T)

  /** `pat` occurs in `s` starting at index `i`. */
  predicate OccursAt(s: string, pat: string, i: nat)
  {
    i + |pat| <= |s| && s[i..i + |pat|] == pat
  }

  /** `pat in s` */
  predicate Contains(s: string, pat: string)
  {
    exists i: nat | i <= |s| :: OccursAt(s, pat, i)
  }

  /** The index of the first character at or after `i` that is in `cs`, or |s| if there is none. */
  function FindFirst(s: string, cs: set<char>, i: nat): (r: nat)
    requires i <= |s|
    ensures i <= r <= |s|
    decreases |s| - i
  {
    if i == |s| || s[i] in cs then i else FindFirst(s, cs, i + 1)
  }

  /** FindFirst skips only characters outside `cs` and stops at one in `cs`, or at the end. */
  lemma {:induction false} FindFirstSpec(s: string, cs: set<char>, i: nat)
    requires i <= |s|
    ensures var r := FindFirst(s, cs, i);
      && (forall j :: i <= j < r ==> s[j] !in cs)
      && (r < |s| ==> s[r] in cs)
    decreases |s| - i
  {
    if i < |s| && s[i] !in cs {
      FindFirstSpec(s, cs, i + 1);
    }
  }

  /** The contract of FindFirst determines its result. */
  lemma FindFirstIs(s: string, cs: set<char>, i: nat, r: nat)
    requires i <= r <= |s|
    requires forall j :: i <= j < r ==> s[j] !in cs
    requires r < |s| ==> s[r] in cs
    ensures FindFirst(s, cs, i) == r
  {
    FindFirstSpec(s, cs, i);
  }

  /** `s.lstrip(chars)` with `chars` given as the set `cs` */
  function StripLeft(s: string, cs: set<char>): (r: string)
    ensures |r| <= |s|
    decreases |s|
  {
    if s != [] && s[0] in cs then StripLeft(s[1..], cs) else s
  }

  /** lstrip keeps a suffix that does not start with a character of `cs`, and everything it drops is in `cs`. */
  lemma {:induction false} StripLeftSpec(s: string, cs: set<char>)
    ensures var r := StripLeft(s, cs);
      && r == s[|s| - |r|..]
      && (r != [] ==> r[0] !in cs)
      && (forall i :: 0 <= i < |s| - |r| ==> s[i] in cs)
    decreases |s|
  {
    if s != [] && s[0] in cs {
      StripLeftSpec(s[1..], cs);
    }
  }

  /** `s.rstrip(chars)` */
  function StripRight(s: string, cs: set<char>): (r: string)
    ensures |r| <= |s|
    decreases |s|
  {
    if s != [] && s[|s| - 1] in cs then StripRight(s[..|s| - 1], cs) else s
  }

  /** rstrip keeps a prefix that does not end with a character of `cs`, and everything it drops is in `cs`. */
  lemma {:induction false} StripRightSpec(s: string, cs: set<char>)
    ensures var r := StripRight(s, cs);
      && r == s[..|r|]
      && (r != [] ==> r[|r| - 1] !in cs)
      && (forall i :: |r| <= i < |s| ==> s[i] in cs)
    decreases |s|
  {
    if s != [] && s[|s| - 1] in cs {
      StripRightSpec(s[..|s| - 1], cs);
    }
  }

  /** `s.strip(chars)`: the longest middle part of `s` that neither starts nor ends with a character of `cs`. */
  function Strip(s: string, cs: set<char>): string
  {
    StripRight(StripLeft(s, cs), cs)
  }

  /** strip keeps a middle part that neither starts nor ends with a character of `cs`, empty exactly when every character is in `cs`. */
  lemma StripSpec(s: string, cs: set<char>)
    ensures var r := Strip(s, cs);
      && (r != [] ==> r[0] !in cs && r[|r| - 1] !in cs)
      && (r == [] <==> forall i :: 0 <= i < |s| ==> s[i] in cs)
      && (forall c :: c in r ==> c in s)
  {
    var l := StripLeft(s, cs);
    var r := StripRight(l, cs);
    StripLeftSpec(s, cs);
    StripRightSpec(l, cs);
    var off := |s| - |l|;
    if r != [] {
      assert r[0] == l[0] == s[off];
    }
    forall c | c in r ensures c in s {
      var i :| 0 <= i < |r| && r[i] == c;
      assert l[i] == s[off + i];
    }
  }

  /** lstrip removes exactly a leading padding in front of a text that does not start with a stripped character. */
  lemma StripLeftPadded(pre: string, rest: string, cs: set<char>)
    requires forall c :: c in pre ==> c in cs
    requires rest != [] && rest[0] !in cs
    ensures StripLeft(pre + rest, cs) == rest
  {
    var s := pre + rest;
    var l := StripLeft(s, cs);
    StripLeftSpec(s, cs);
    assert forall i :: 0 <= i < |pre| ==> s[i] == pre[i] && pre[i] in pre;
    assert s[|pre|] == rest[0];
    assert |l| == |rest|;
    assert l == s[|pre|..] == rest;
  }

  /** rstrip removes exactly a trailing padding behind a text that does not end with a stripped character. */
  lemma StripRightPadded(rest: string, post: string, cs: set<char>)
    requires forall c :: c in post ==> c in cs
    requires rest != [] && rest[|rest| - 1] !in cs
    ensures StripRight(rest + post, cs) == rest
  {
    var s := rest + post;
    var r := StripRight(s, cs);
    StripRightSpec(s, cs);
    assert forall i :: |rest| <= i < |s| ==> s[i] == post[i - |rest|] && post[i - |rest|] in post;
    assert s[|rest| - 1] == rest[|rest| - 1];
    assert |r| == |rest|;
    assert r == s[..|rest|] == rest;
  }

  /** Python's strip removes exactly the padding around a core that neither starts nor ends with a stripped character. */
  lemma StripPadded(pre: string, core: string, post: string, cs: set<char>)
    requires forall c :: c in pre ==> c in cs
    requires forall c :: c in post ==> c in cs
    requires core != [] ==> core[0] !in cs && core[|core| - 1] !in cs
    ensures Strip(pre + core + post, cs) == if core == [] then [] else core
  {
    var s := pre + core + post;
    if core == [] {
      StripSpec(s, cs);
      forall i | 0 <= i < |s| ensures s[i] in cs {
        if i < |pre| { assert s[i] == pre[i]; } else { assert s[i] == post[i - |pre|]; }
      }
    } else {
      assert s == pre + (core + post);
      StripLeftPadded(pre, core + post, cs);
      StripRightPadded(core, post, cs);
    }
  }

  /** `s.replace(c, "")` for a one-character `c`: every occurrence of `c` deleted, the rest in order. */
  function Delete(s: string, c: char): (r: string)
    ensures |r| <= |s|
    decreases |s|
  {
    if s == [] then []
    else (if s[0] == c then [] else [s[0]]) + Delete(s[1..], c)
  }

  /** replace(c, "") leaves no `c` and every other character of `s`, and leaves a text without `c` as it is. */
  lemma {:induction false} DeleteSpec(s: string, c: char)
    ensures var r := Delete(s, c);
      && c !in r
      && (forall x :: x in r <==> x in s && x != c)
      && (c !in s ==> r == s)
    decreases |s|
  {
    if s != [] {
      DeleteSpec(s[1..], c);
      assert s == [s[0]] + s[1..];
    }
  }

  /** replace(c, "") keeps every other character as often as `s` holds it. */
  lemma {:induction false} DeleteCounts(s: string, c: char)
    ensures multiset(Delete(s, c)) == multiset(s)[c := 0]
    decreases |s|
  {
    if s != [] {
      DeleteCounts(s[1..], c);
      assert s == [s[0]] + s[1..];
      assert multiset(s) == multiset{s[0]} + multiset(s[1..]);
    }
  }

  /** replace(c, "") on one character: a lone `c` goes, any other character stays. */
  lemma DeleteOne(x: char, c: char)
    ensures Delete([x], c) == if x == c then [] else [x]
  {
    assert [x][1..] == [];
  }

  /** replace(c, "") works piece by piece: it distributes over concatenation. */
  lemma {:induction false} DeleteAppend(a: string, b: string, c: char)
    ensures Delete(a + b, c) == Delete(a, c) + Delete(b, c)
    decreases |a|
  {
    if a == [] {
      assert a + b == b;
    } else {
      var ab := a + b;
      assert ab[0] == a[0];
      assert ab[1..] == a[1..] + b;
      DeleteAppend(a[1..], b, c);
      assert Delete(ab, c) == (if a[0] == c then [] else [a[0]]) + Delete(a[1..] + b, c);
    }
  }

  /** `s.split(sep)[0]`, looking for `sep` from index `i` on. */
  function BeforeFrom(s: string, sep: string, i: nat): (r: string)
    requires sep != [] && i <= |s|
    ensures i <= |r| <= |s| && r == s[..|r|]
    ensures forall j :: i <= j < |r| ==> !OccursAt(s, sep, j)
    ensures |r| < |s| ==> OccursAt(s, sep, |r|)
    decreases |s| - i
  {
    if i == |s| then s
    else if OccursAt(s, sep, i) then s[..i]
    else BeforeFrom(s, sep, i + 1)
  }

  /** `s.split(sep)[0]`: the text before the first occurrence of `sep`, or all of `s` when there is none. */
  function Before(s: string, sep: string): (r: string)
    requires sep != []
    ensures |r| <= |s| && r == s[..|r|]
    ensures forall j :: 0 <= j < |r| ==> !OccursAt(s, sep, j)
    ensures |r| < |s| ==> OccursAt(s, sep, |r|)
  {
    BeforeFrom(s, sep, 0)
  }

  /** Split at the first separator: `Before` recovers the part before it. */
  lemma BeforeSplits(head: string, sep: string, tail: string)
    requires sep != []
    requires forall j :: 0 <= j < |head| ==> !OccursAt(head + sep + tail, sep, j)
    ensures Before(head + sep + tail, sep) == head
  {
    var s := head + sep + tail;
    var r := Before(s, sep);
    assert OccursAt(s, sep, |head|) by { assert s[|head|..|head| + |sep|] == sep; }
    assert r == s[..|head|] == head;
  }

  /** Without a separator, `Before` keeps the whole text. */
  lemma BeforeNoSeparator(s: string, sep: string)
    requires sep != []
    requires !Contains(s, sep)
    ensures Before(s, sep) == s
  {
    var r := Before(s, sep);
  }
}
