/** Python string primitives used by the extractors: `str.strip()`, `str.split()`,
    `sep.join(...)`, ASCII `upper()`/`lower()`, `startswith`/`endswith`. */
module PyStr {
  import opened PyCore

  /** `c.isspace()`: the characters Python's argument-less `strip()` and `split()` treat
      as whitespace. */
  predicate IsSpace(c: char) {
    c == ' ' || ('\t' <= c <= '\r') || ('\U{1c}' <= c <= '\U{1f}') || c == '\U{85}' || c == '\U{a0}'
    || c == '\U{1680}' || ('\U{2000}' <= c <= '\U{200a}') || c == '\U{2028}' || c == '\U{2029}'
    || c == '\U{202f}' || c == '\U{205f}' || c == '\U{3000}'
  }

  predicate AllSpace(s: string) {
    forall i :: 0 <= i < |s| ==> IsSpace(s[i])
  }

  /** Neither the first nor the last character is whitespace. */
  predicate NoOuterSpace(s: string) {
    s != [] ==> !IsSpace(s[0]) && !IsSpace(s[|s| - 1])
  }

  /** A word as `split()` produces it: non-empty, without whitespace. */
  predicate IsWord(w: string) {
    w != [] && forall i :: 0 <= i < |w| ==> !IsSpace(w[i])
  }

  /** `s.lstrip()` */
  function StripLeft(s: string): string {
    if s != [] && IsSpace(s[0]) then StripLeft(s[1..]) else s
  }

  /** `lstrip()` drops a whitespace prefix and stops at the first other character. */
  lemma {:induction false} StripLeftMeaning(s: string)
    ensures |StripLeft(s)| <= |s| && StripLeft(s) == s[|s| - |StripLeft(s)|..]
    ensures AllSpace(s[..|s| - |StripLeft(s)|])
    ensures StripLeft(s) != [] ==> !IsSpace(StripLeft(s)[0])
  {
    if s != [] && IsSpace(s[0]) {
      StripLeftMeaning(s[1..]);
      StripLeftStep(s, StripLeft(s[1..]));
    }
  }

  /** `s.rstrip()` */
  function StripRight(s: string): string {
    if s != [] && IsSpace(s[|s| - 1]) then StripRight(s[..|s| - 1]) else s
  }

  /** `rstrip()` drops a whitespace suffix and stops at the last other character. */
  lemma {:induction false} StripRightMeaning(s: string)
    ensures |StripRight(s)| <= |s| && StripRight(s) == s[..|StripRight(s)|]
    ensures AllSpace(s[|StripRight(s)|..])
    ensures StripRight(s) != [] ==> !IsSpace(StripRight(s)[|StripRight(s)| - 1])
  {
    if s != [] && IsSpace(s[|s| - 1]) {
      StripRightMeaning(s[..|s| - 1]);
      StripRightStep(s, StripRight(s[..|s| - 1]));
    }
  }

  lemma StripLeftStep(s: string, r: string)
    requires s != [] && IsSpace(s[0])
    requires |r| < |s| && r == s[1..][|s| - 1 - |r|..] && AllSpace(s[1..][..|s| - 1 - |r|])
    ensures r == s[|s| - |r|..] && AllSpace(s[..|s| - |r|])
  {
    assert s[..|s| - |r|] == [s[0]] + s[1..][..|s| - 1 - |r|];
  }

  lemma StripRightStep(s: string, r: string)
    requires s != [] && IsSpace(s[|s| - 1])
    requires |r| < |s| && r == s[..|s| - 1][..|r|] && AllSpace(s[..|s| - 1][|r|..])
    ensures r == s[..|r|] && AllSpace(s[|r|..])
  {
    assert s[|r|..] == s[..|s| - 1][|r|..] + [s[|s| - 1]];
  }

  /** `s.strip()`: the part of `s` between its leading and its trailing whitespace. */
  function Strip(s: string): string {
    StripRight(StripLeft(s))
  }

  /** The stripped text has no outer whitespace, and it is empty exactly when the text is
      all whitespace. */
  lemma StripMeaning(s: string)
    ensures |Strip(s)| <= |s| && NoOuterSpace(Strip(s))
    ensures Strip(s) == [] <==> AllSpace(s)
  {
    var l := StripLeft(s);
    StripLeftMeaning(s);
    StripRightMeaning(l);
    var k := |s| - |l|;
    if Strip(s) == [] {
      assert AllSpace(l) by {
        assert l[0..] == l;
      }
      assert s == s[..k] + l;
    }
    assert AllSpace(s) ==> l == [] by {
      if l != [] {
        assert s[k] == l[0] && !IsSpace(l[0]);
      }
    }
  }

  /** `strip()` removes only whitespace, and only from the two ends. */
  lemma StripIsInfix(s: string) returns (k: nat)
    ensures k + |Strip(s)| <= |s| && Strip(s) == s[k..k + |Strip(s)|]
    ensures AllSpace(s[..k]) && AllSpace(s[k + |Strip(s)|..])
  {
    var l := StripLeft(s);
    var r := StripRight(l);
    StripLeftMeaning(s);
    StripRightMeaning(l);
    k := |s| - |l|;
    SliceOfSuffix(s, k, |r|);
  }

  /** Slicing a suffix of `s` is slicing `s` itself, shifted. */
  lemma SliceOfSuffix<T>(s: seq<T>, k: nat, n: nat)
    requires k + n <= |s|
    ensures s[k..][..n] == s[k..k + n] && s[k..][n..] == s[k + n..]
  {
  }

  /** Stripping a string with no outer whitespace changes nothing; in particular `strip()`
      is idempotent. */
  lemma StripKeeps(s: string)
    requires NoOuterSpace(s)
    ensures Strip(s) == s
  {
    assert StripLeft(s) == s;
  }

  lemma StripIdempotent(s: string)
    ensures Strip(Strip(s)) == Strip(s)
  {
    StripMeaning(s);
    StripKeeps(Strip(s));
  }

  lemma {:induction false} StripLeftIdempotent(s: string)
    ensures StripLeft(StripLeft(s)) == StripLeft(s)
  {
    if s != [] && IsSpace(s[0]) {
      StripLeftIdempotent(s[1..]);
    }
  }

  /** The length of the leading run of non-whitespace characters. */
  function WordEnd(s: string): (n: nat)
    ensures n <= |s|
    ensures forall i :: 0 <= i < n ==> !IsSpace(s[i])
    ensures n < |s| ==> IsSpace(s[n])
  {
    if s == [] || IsSpace(s[0]) then 0 else 1 + WordEnd(s[1..])
  }

  /** `s.split()`: the maximal runs of non-whitespace characters, in order. */
  function Split(s: string): seq<string>
    decreases |s|
  {
    StripLeftMeaning(s);
    var t := StripLeft(s);
    if t == [] then [] else
      var n := WordEnd(t);
      [t[..n]] + Split(t[n..])
  }

  /** Every item `split()` returns is a word. */
  lemma {:induction false} SplitWords(s: string)
    ensures AllWords(Split(s))
    decreases |s|
  {
    StripLeftMeaning(s);
    var t := StripLeft(s);
    if t != [] {
      var n := WordEnd(t);
      SplitWords(t[n..]);
      LeadingWord(t, n);
      AllWordsCons(t[..n], Split(t[n..]));
    }
  }

  predicate AllWords(ws: seq<string>) {
    forall i :: 0 <= i < |ws| ==> IsWord(ws[i])
  }

  lemma LeadingWord(t: string, n: nat)
    requires t != [] && !IsSpace(t[0]) && n == WordEnd(t)
    ensures IsWord(t[..n])
  {
    assert forall i :: 0 <= i < n ==> t[..n][i] == t[i];
  }

  lemma AllWordsCons(w: string, ws: seq<string>)
    requires IsWord(w) && AllWords(ws)
    ensures AllWords([w] + ws)
  {
    assert forall i :: 0 < i <= |ws| ==> ([w] + ws)[i] == ws[i - 1];
  }

  /** `sep.join(xs)` */
  function Join(sep: string, xs: seq<string>): string {
    if xs == [] then "" else if |xs| == 1 then xs[0] else xs[0] + (sep + Join(sep, xs[1..]))
  }

  /** Joining one more item appends the separator and the item. */
  lemma {:induction false} JoinSnoc(sep: string, xs: seq<string>, x: string)
    requires xs != []
    ensures Join(sep, xs + [x]) == Join(sep, xs) + sep + x
  {
    if |xs| == 1 {
      assert (xs + [x])[1..] == [x];
    } else {
      assert (xs + [x])[1..] == xs[1..] + [x];
      JoinSnoc(sep, xs[1..], x);
    }
  }

  /** `' '.join(s.split())`: the words of `s` separated by single spaces. */
  function Collapse(s: string): string {
    Join(" ", Split(s))
  }

  /** No outer whitespace, and every whitespace character is a single space between two
      non-whitespace characters. */
  predicate IsCollapsed(s: string) {
    forall i :: 0 <= i < |s| && IsSpace(s[i]) ==>
      s[i] == ' ' && 0 < i < |s| - 1 && !IsSpace(s[i - 1]) && !IsSpace(s[i + 1])
  }

  lemma {:induction false} WordEndOfWord(w: string, rest: string)
    requires forall i :: 0 <= i < |w| ==> !IsSpace(w[i])
    requires rest == [] || IsSpace(rest[0])
    ensures WordEnd(w + rest) == |w|
  {
    if w != [] {
      assert (w + rest)[1..] == w[1..] + rest;
      WordEndOfWord(w[1..], rest);
    } else {
      assert w + rest == rest;
    }
  }

  lemma SplitStripLeft(s: string)
    ensures Split(s) == Split(StripLeft(s))
  {
    StripLeftIdempotent(s);
  }

  /** Splitting a string that starts with a word `w` gives `w` first. */
  lemma SplitLeadingWord(w: string, rest: string)
    requires IsWord(w)
    requires rest == [] || IsSpace(rest[0])
    ensures Split(w + rest) == [w] + Split(rest)
  {
    var s := w + rest;
    assert StripLeft(s) == s;
    WordEndOfWord(w, rest);
    assert s[..|w|] == w && s[|w|..] == rest;
  }

  /** Round trip: splitting words joined by single spaces gives the words back. */
  lemma {:induction false} SplitJoin(ws: seq<string>)
    requires AllWords(ws)
    ensures Split(Join(" ", ws)) == ws
  {
    if ws == [] {
    } else if |ws| == 1 {
      SplitOneWord(ws[0]);
    } else {
      AllWordsTail(ws);
      SplitJoin(ws[1..]);
      SplitJoinCons(ws[0], ws[1..]);
      ConsTail(ws);
    }
  }

  lemma SplitOneWord(w: string)
    requires IsWord(w)
    ensures Split(Join(" ", [w])) == [w]
  {
    SplitLeadingWord(w, "");
    assert w + "" == w;
  }

  lemma SplitJoinCons(w: string, rest: seq<string>)
    requires IsWord(w) && rest != [] && AllWords(rest) && Split(Join(" ", rest)) == rest
    ensures Split(Join(" ", [w] + rest)) == [w] + rest
  {
    var ws := [w] + rest;
    assert ws[0] == w && ws[1..] == rest;
    JoinWordsStart(rest);
    SplitJoinStep(w, Join(" ", rest));
  }

  lemma ConsTail<T>(s: seq<T>)
    requires s != []
    ensures [s[0]] + s[1..] == s
  {
  }

  lemma AllWordsTail(ws: seq<string>)
    requires ws != [] && AllWords(ws)
    ensures IsWord(ws[0]) && AllWords(ws[1..])
  {
    assert forall i :: 0 <= i < |ws| - 1 ==> ws[1..][i] == ws[i + 1];
  }

  lemma SplitJoinStep(w: string, j: string)
    requires IsWord(w) && j != [] && !IsSpace(j[0])
    ensures Split(w + (" " + j)) == [w] + Split(j)
  {
    var rest := " " + j;
    assert IsSpace(rest[0]);
    SplitLeadingWord(w, rest);
    SplitAfterSpace(j);
  }

  lemma SplitAfterSpace(j: string)
    requires j != [] && !IsSpace(j[0])
    ensures Split(" " + j) == Split(j)
  {
    SplitStripLeft(" " + j);
    assert (" " + j)[1..] == j;
    assert StripLeft(" " + j) == j;
  }

  lemma {:induction false} JoinWordsStart(ws: seq<string>)
    requires ws != []
    requires AllWords(ws)
    ensures Join(" ", ws) != [] && !IsSpace(Join(" ", ws)[0]) && !IsSpace(Join(" ", ws)[|Join(" ", ws)| - 1])
  {
    if |ws| > 1 {
      JoinWordsStart(ws[1..]);
      var j := Join(" ", ws[1..]);
      assert Join(" ", ws) == ws[0] + (" " + j);
    }
  }

  /** Words joined by single spaces form a collapsed string. */
  lemma {:induction false} JoinWordsCollapsed(ws: seq<string>)
    requires AllWords(ws)
    ensures IsCollapsed(Join(" ", ws))
  {
    if |ws| > 1 {
      var w, j := ws[0], Join(" ", ws[1..]);
      JoinWordsCollapsed(ws[1..]);
      JoinWordsStart(ws[1..]);
      var s := w + (" " + j);
      assert Join(" ", ws) == s;
      assert forall i :: 0 <= i < |w| ==> s[i] == w[i] && !IsSpace(s[i]);
      forall i | 0 <= i < |s| && IsSpace(s[i])
        ensures s[i] == ' ' && 0 < i < |s| - 1 && !IsSpace(s[i - 1]) && !IsSpace(s[i + 1])
      {
        if i == |w| {
          assert s[i + 1] == j[0];
        } else if i > |w| {
          assert s[i] == j[i - |w| - 1];
          if i - |w| - 1 > 0 {
            assert s[i - 1] == j[i - |w| - 2];
          }
          assert s[i + 1] == j[i - |w|];
        }
      }
    }
  }

  lemma {:induction false} SplitEmpty(s: string)
    ensures Split(s) == [] <==> AllSpace(s)
  {
    StripLeftMeaning(s);
    var t := StripLeft(s);
    if t == [] {
      assert s[..|s|] == s;
    } else {
      assert !IsSpace(s[|s| - |t|]);
    }
  }

  /** `' '.join(s.split())` is empty exactly when `s` is all whitespace; otherwise it is a
      collapsed string with the same words as `s`. */
  lemma CollapseMeaning(s: string)
    ensures Collapse(s) == [] <==> AllSpace(s)
    ensures IsCollapsed(Collapse(s))
    ensures Split(Collapse(s)) == Split(s)
  {
    SplitEmpty(s);
    SplitWords(s);
    JoinWordsCollapsed(Split(s));
    SplitJoin(Split(s));
    if Split(s) != [] {
      JoinWordsStart(Split(s));
    }
  }

  lemma CollapsedHasNoOuterSpace(s: string)
    requires IsCollapsed(s)
    ensures NoOuterSpace(s)
  {
    if s != [] {
      assert !IsSpace(s[0]) && !IsSpace(s[|s| - 1]);
    }
  }

  /** Position of the first occurrence of `c` in `s`. */
  function IndexOf(s: string, c: char): (i: nat)
    requires c in s
    ensures i < |s| && s[i] == c && c !in s[..i]
  {
    if s[0] == c then 0 else 1 + IndexOf(s[1..], c)
  }

  /** `s.split(sep)` for a one-character separator. */
  function SplitOn(sep: char, s: string): (parts: seq<string>)
    ensures parts != []
    decreases |s|
  {
    if sep !in s then [s] else
      var i := IndexOf(s, sep);
      [s[..i]] + SplitOn(sep, s[i + 1..])
  }

  /** Round trip: joining with `sep` and splitting on it gives the parts back, as long as no
      part contains the separator. */
  lemma {:induction false} SplitOnJoin(sep: char, xs: seq<string>)
    requires xs != []
    requires forall i :: 0 <= i < |xs| ==> sep !in xs[i]
    ensures SplitOn(sep, Join([sep], xs)) == xs
  {
    if |xs| > 1 {
      var j := Join([sep], xs[1..]);
      var s := xs[0] + ([sep] + j);
      assert Join([sep], xs) == s;
      assert s[|xs[0]|] == sep && s[..|xs[0]|] == xs[0];
      assert IndexOf(s, sep) == |xs[0]|;
      assert s[|xs[0]| + 1..] == j;
      SplitOnJoin(sep, xs[1..]);
      assert [xs[0]] + xs[1..] == xs;
    }
  }

  /** `sep.join(xs)` over items that may be None: a TypeError as soon as one of them is. */
  function JoinAll(sep: string, xs: seq<Option<string>>): (r: Outcome<string>)
    ensures r.Ok? <==> forall i :: 0 <= i < |xs| ==> xs[i].Some?
    ensures r.Raise? ==> r.error == JoinedNone
    ensures r.Ok? ==> r.value == Join(sep, Somes(xs))
  {
    if forall i :: 0 <= i < |xs| ==> xs[i].Some? then Ok(Join(sep, Somes(xs))) else Raise(JoinedNone)
  }

  /** ASCII case mapping (`str.upper()` / `str.lower()` on ASCII letters). */
  function UpperChar(c: char): char {
    if 'a' <= c <= 'z' then (c as int - 32) as char else c
  }

  function LowerChar(c: char): char {
    if 'A' <= c <= 'Z' then (c as int + 32) as char else c
  }

  function Upper(s: string): (r: string)
    ensures |r| == |s| && forall i :: 0 <= i < |s| ==> r[i] == UpperChar(s[i])
  {
    seq(|s|, i requires 0 <= i < |s| => UpperChar(s[i]))
  }

  function Lower(s: string): (r: string)
    ensures |r| == |s| && forall i :: 0 <= i < |s| ==> r[i] == LowerChar(s[i])
  {
    seq(|s|, i requires 0 <= i < |s| => LowerChar(s[i]))
  }

  /** Two strings that differ at most in the case of ASCII letters. */
  predicate SameUpToCase(a: string, b: string) {
    Upper(a) == Upper(b)
  }

  /** Upper-casing is idempotent, and it forgets an earlier lower-casing. */
  lemma UpperIdempotent(s: string)
    ensures Upper(Upper(s)) == Upper(s) && Upper(Lower(s)) == Upper(s)
  {
    assert forall i :: 0 <= i < |s| ==> Upper(Upper(s))[i] == Upper(s)[i];
    assert forall i :: 0 <= i < |s| ==> Upper(Lower(s))[i] == Upper(s)[i];
  }

  /** Lower-casing is idempotent, and it forgets an earlier upper-casing. */
  lemma LowerIdempotent(s: string)
    ensures Lower(Lower(s)) == Lower(s) && Lower(Upper(s)) == Lower(s)
  {
    assert forall i :: 0 <= i < |s| ==> Lower(Lower(s))[i] == Lower(s)[i];
    assert forall i :: 0 <= i < |s| ==> Lower(Upper(s))[i] == Lower(s)[i];
  }

  /** Strings equal up to case have the same length, agree on every character that is no
      letter, and lower-case alike. */
  lemma SameUpToCaseMeaning(a: string, b: string)
    requires SameUpToCase(a, b)
    ensures |a| == |b| && Lower(a) == Lower(b)
    ensures forall i :: 0 <= i < |a| && !('a' <= a[i] <= 'z') && !('A' <= a[i] <= 'Z') ==> b[i] == a[i]
  {
    assert |a| == |Upper(a)| == |Upper(b)| == |b|;
    forall i | 0 <= i < |a|
      ensures Lower(a)[i] == Lower(b)[i]
    {
      assert UpperChar(a[i]) == Upper(a)[i] == Upper(b)[i] == UpperChar(b[i]);
    }
  }

  /** Case mapping commutes with slicing. */
  lemma UpperSlice(s: string, i: nat, j: nat)
    requires i <= j <= |s|
    ensures Upper(s[i..j]) == Upper(s)[i..j] && Lower(s[i..j]) == Lower(s)[i..j]
  {
  }

  predicate StartsWith(s: string, prefix: string) {
    |prefix| <= |s| && s[..|prefix|] == prefix
  }

  predicate EndsWith(s: string, suffix: string) {
    |suffix| <= |s| && s[|s| - |suffix|..] == suffix
  }
}
