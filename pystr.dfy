/** Python's string primitives as the chopping scripts use them, on `string = seq<char>`:
    `str.split()` with no argument, `strip()`, `startswith`, `endswith`, `find`,
    `replace(old, new, 1)`, `replace(old, "")`, `' '.join(...)` and the list slice `xs[:-k]`. */
module PyStr {

  /** The code-point ranges of the characters other than the plain space that Python's
      `str.isspace()` accepts. */
  const SpaceRanges: seq<(char, char)> := [
    ('\t', '\r'), ('\U{1C}', '\U{1F}'), ('\U{85}', '\U{85}'), ('\U{A0}', '\U{A0}'),
    ('\U{1680}', '\U{1680}'), ('\U{2000}', '\U{200A}'), ('\U{2028}', '\U{2029}'),
    ('\U{202F}', '\U{202F}'), ('\U{205F}', '\U{205F}'), ('\U{3000}', '\U{3000}')]

  /** `c` lies in one of the ranges `rs`. */
  predicate InRanges(c: char, rs: seq<(char, char)>) {
    rs != [] && (rs[0].0 <= c <= rs[0].1 || InRanges(c, rs[1..]))
  }

  /** `str.isspace()` for one character; `split()` and `strip()` treat exactly these as whitespace. */
  predicate IsSpace(c: char) {
    c == ' ' || InRanges(c, SpaceRanges)
  }

  /** A character outside every range is in none of them. */
  lemma {:induction false} OutsideRanges(c: char, rs: seq<(char, char)>)
    requires forall i :: 0 <= i < |rs| ==> !(rs[i].0 <= c <= rs[i].1)
    ensures !InRanges(c, rs)
  {
    if rs != [] {
      OutsideRanges(c, rs[1..]);
    }
  }

  /** ASCII letters and digits are not whitespace. */
  lemma AlphanumericNotSpace(c: char)
    requires '0' <= c <= 'z'
    ensures !IsSpace(c)
  {
    OutsideRanges(c, SpaceRanges);
  }

  predicate AllSpace(s: string) {
    forall k :: 0 <= k < |s| ==> IsSpace(s[k])
  }

  /** A word as `split()` returns it: non-empty, no whitespace inside. */
  predicate IsToken(w: string) {
    w != [] && forall k :: 0 <= k < |w| ==> !IsSpace(w[k])
  }

  /** A non-empty run of ASCII letters and digits is a word. */
  lemma AlphanumericToken(w: string)
    requires w != [] && forall k :: 0 <= k < |w| ==> '0' <= w[k] <= 'z'
    ensures IsToken(w)
  {
    forall k | 0 <= k < |w| ensures !IsSpace(w[k]) {
      AlphanumericNotSpace(w[k]);
    }
  }

  predicate AllTokens(ws: seq<string>) {
    forall i :: 0 <= i < |ws| ==> IsToken(ws[i])
  }

  /** `s.startswith(prefix)`; every string starts with "". */
  predicate StartsWith(s: string, prefix: string) {
    |prefix| <= |s| && s[..|prefix|] == prefix
  }

  /** `s.endswith(suffix)`; every string ends with "". */
  predicate EndsWith(s: string, suffix: string) {
    |suffix| <= |s| && s[|s| - |suffix|..] == suffix
  }

  // ---------------------------------------------------------------- strip

  /** `s.lstrip()`: the longest suffix of `s` that does not start with whitespace. */
  function LStrip(s: string): (r: string)
    ensures |r| <= |s| && r == s[|s| - |r|..]
    ensures forall k :: 0 <= k < |s| - |r| ==> IsSpace(s[k])
    ensures r == [] || !IsSpace(r[0])
  {
    if s != [] && IsSpace(s[0]) then LStrip(s[1..]) else s
  }

  /** `s.rstrip()`: the longest prefix of `s` that does not end with whitespace. */
  function RStrip(s: string): (r: string)
    ensures |r| <= |s| && r == s[..|r|]
    ensures forall k :: |r| <= k < |s| ==> IsSpace(s[k])
    ensures r == [] || !IsSpace(r[|r| - 1])
  {
    if s != [] && IsSpace(s[|s| - 1]) then RStrip(s[..|s| - 1]) else s
  }

  /** Neither end of `s` is whitespace: what `strip()` returns. */
  predicate Stripped(s: string) {
    s == [] || (!IsSpace(s[0]) && !IsSpace(s[|s| - 1]))
  }

  /** `s.strip()`: what is left of `s` once the outer whitespace runs are cut off. */
  function Strip(s: string): (r: string)
    ensures Stripped(r)
    ensures r == [] <==> AllSpace(s)
  {
    StripEmpty(s);
    StripEnds(s);
    RStrip(LStrip(s))
  }

  /** `strip()` removes only whitespace, and only at the two ends: the input is a run of
      whitespace, the result, and another run of whitespace. */
  lemma StripOuter(s: string)
    ensures exists a, b :: s == a + Strip(s) + b && AllSpace(a) && AllSpace(b)
  {
    OuterRuns(s, LStrip(s), RStrip(LStrip(s)));
  }

  /** A suffix `l` of `s` after whitespace, and a prefix `r` of `l` before whitespace, leave
      whitespace runs on both sides of `r`. */
  lemma OuterRuns(s: string, l: string, r: string)
    requires |l| <= |s| && l == s[|s| - |l|..] && forall k :: 0 <= k < |s| - |l| ==> IsSpace(s[k])
    requires |r| <= |l| && r == l[..|r|] && forall k :: |r| <= k < |l| ==> IsSpace(l[k])
    ensures exists a, b :: s == a + r + b && AllSpace(a) && AllSpace(b)
  {
    var a, b := s[..|s| - |l|], l[|r|..];
    assert s == a + l;
    assert l == r + b;
    assert AllSpace(a) by {
      forall k | 0 <= k < |a| ensures IsSpace(a[k]) {
        assert a[k] == s[k];
      }
    }
    assert AllSpace(b) by {
      forall k | 0 <= k < |b| ensures IsSpace(b[k]) {
        assert b[k] == l[|r| + k];
      }
    }
    assert s == a + r + b;
  }

  /** Stripping leaves no whitespace at either end. */
  lemma StripEnds(s: string)
    ensures Stripped(RStrip(LStrip(s)))
  {
    var l := LStrip(s);
    var r := RStrip(l);
    if r != [] {
      assert r[0] == l[0];
    }
  }

  /** Stripping keeps only characters of `s`. */
  lemma StripKeepsChars(s: string)
    ensures forall c :: c in Strip(s) ==> c in s
  {
    var l := LStrip(s);
    var r := RStrip(l);
    forall c | c in r ensures c in s {
      var k :| 0 <= k < |r| && r[k] == c;
      assert l[k] == c;
      assert s[|s| - |l| + k] == c;
    }
  }

  /** Stripping leaves nothing exactly when `s` is all whitespace. */
  lemma StripEmpty(s: string)
    ensures RStrip(LStrip(s)) == [] <==> AllSpace(s)
  {
    var l := LStrip(s);
    var r := RStrip(l);
    var d := |s| - |l|;
    if r == [] {
      forall k | d <= k < |s| ensures IsSpace(s[k]) {
        assert s[k] == l[k - d];
      }
    } else {
      assert s[d] == r[0];
    }
  }

  /** Stripping a string with no outer whitespace gives it back unchanged. */
  lemma StripUnchanged(s: string)
    requires Stripped(s)
    ensures Strip(s) == s
  {
  }

  /** Padding with single spaces does not change what `strip()` returns. */
  lemma StripPadded(s: string)
    ensures Strip(" " + s + " ") == Strip(s)
  {
    var p := " " + s + " ";
    assert LStrip(p) == LStrip(s + " ") by {
      assert p[0] == ' ' && p[1..] == s + " ";
    }
    LStripAppendSpace(s);
    var l := LStrip(s);
    if l != [] {
      RStripAppendSpace(l);
    }
  }

  /** A trailing space does not survive `rstrip()`. */
  lemma RStripAppendSpace(s: string)
    ensures RStrip(s + " ") == RStrip(s)
  {
    assert (s + " ")[..|s|] == s;
  }

  /** Left-stripping `s + " "` either leaves `LStrip(s) + " "` or, when `s` is all whitespace, nothing. */
  lemma {:induction false} LStripAppendSpace(s: string)
    ensures LStrip(s) == [] ==> LStrip(s + " ") == []
    ensures LStrip(s) != [] ==> LStrip(s + " ") == LStrip(s) + " "
  {
    if s == [] {
      assert (s + " ")[1..] == [];
    } else if IsSpace(s[0]) {
      assert (s + " ")[1..] == s[1..] + " ";
      LStripAppendSpace(s[1..]);
    } else {
      assert (s + " ")[0] == s[0];
    }
  }

  // ---------------------------------------------------------------- split

  /** The length of the leading run of non-whitespace characters of `s`. */
  function WordLength(s: string): (n: nat)
    ensures n <= |s|
    ensures forall k :: 0 <= k < n ==> !IsSpace(s[k])
    ensures n == |s| || IsSpace(s[n])
  {
    if s == [] || IsSpace(s[0]) then 0 else 1 + WordLength(s[1..])
  }

  /** `s.split()`: the maximal runs of non-whitespace characters of `s`, in order. */
  function Split(s: string): (r: seq<string>)
    ensures AllTokens(r)
    ensures r == [] <==> AllSpace(s)
    decreases |s|
  {
    if s == [] then []
    else if IsSpace(s[0]) then Split(s[1..])
    else
      var n := WordLength(s);
      [s[..n]] + Split(s[n..])
  }

  /** Python's `xs[-1:][0]`, defined only when `xs` is not empty (otherwise Python raises IndexError). */
  function Last<T>(xs: seq<T>): T
    requires xs != []
  {
    xs[|xs| - 1]
  }

  /** A whitespace character in front of `s` does not change its words. */
  lemma SplitLeadingSpace(c: char, s: string)
    requires IsSpace(c)
    ensures Split([c] + s) == Split(s)
  {
    assert ([c] + s)[0] == c && ([c] + s)[1..] == s;
  }

  /** A word followed by nothing or by whitespace is a whole token of the split. */
  lemma SplitCons(w: string, rest: string)
    requires IsToken(w)
    requires rest == [] || IsSpace(rest[0])
    ensures Split(w + rest) == [w] + Split(rest)
  {
    var s := w + rest;
    assert LStrip(s) == s;
    WordLengthOfToken(w, rest);
    assert s[..|w|] == w;
    assert s[|w|..] == rest;
  }

  lemma {:induction false} WordLengthOfToken(w: string, rest: string)
    requires forall k :: 0 <= k < |w| ==> !IsSpace(w[k])
    requires rest == [] || IsSpace(rest[0])
    ensures WordLength(w + rest) == |w|
  {
    if w != [] {
      assert (w + rest)[1..] == w[1..] + rest;
      WordLengthOfToken(w[1..], rest);
    } else {
      assert w + rest == rest;
    }
  }

  /** The last word of a string that does not end in whitespace is a suffix of it. */
  lemma {:induction false} LastTokenIsSuffix(s: string)
    requires Split(s) != []
    requires !IsSpace(s[|s| - 1])
    ensures EndsWith(s, Last(Split(s)))
    decreases |s|
  {
    var w := Last(Split(s));
    if IsSpace(s[0]) {
      assert Split(s) == Split(s[1..]);
      LastTokenIsSuffix(s[1..]);
      EndsWithDropFront(s, 1, w);
    } else {
      var n := WordLength(s);
      assert Split(s) == [s[..n]] + Split(s[n..]);
      if Split(s[n..]) == [] {
        assert w == s by {
          assert w == s[..n];
          if n < |s| {
            assert false;
          }
        }
      } else {
        assert w == Last(Split(s[n..]));
        LastTokenIsSuffix(s[n..]);
        EndsWithDropFront(s, n, w);
      }
    }
  }

  /** A suffix of a suffix is a suffix. */
  lemma EndsWithDropFront(s: string, k: nat, w: string)
    requires k <= |s| && EndsWith(s[k..], w)
    ensures EndsWith(s, w)
  {
    assert s[k..][|s[k..]| - |w|..] == s[|s| - |w|..];
  }

  /** A whitespace character between two strings separates their words. */
  lemma {:induction false} SplitAround(a: string, c: char, b: string)
    requires IsSpace(c)
    ensures Split(a + [c] + b) == Split(a) + Split(b)
    decreases |a|, 1
  {
    var s := a + [c] + b;
    if a == [] {
      assert s == [c] + b;
      SplitLeadingSpace(c, b);
    } else if IsSpace(a[0]) {
      assert s[1..] == a[1..] + [c] + b;
      SplitAround(a[1..], c, b);
    } else {
      SplitAroundWord(a, c, b);
    }
  }

  /** The case of `SplitAround` where `a` starts with a word. */
  lemma {:induction false} SplitAroundWord(a: string, c: char, b: string)
    requires IsSpace(c) && a != [] && !IsSpace(a[0])
    ensures Split(a + [c] + b) == Split(a) + Split(b)
    decreases |a|, 0
  {
    var s := a + [c] + b;
    var m := WordLength(a);
    var rest := a[m..];
    assert Split(s) == [a[..m]] + Split(rest + [c] + b) by {
      assert a == a[..m] + rest;
      WordLengthOfToken(a[..m], rest + [c] + b);
      assert s == a[..m] + (rest + [c] + b);
      assert s[..m] == a[..m] && s[m..] == rest + [c] + b;
    }
    assert Split(a) == [a[..m]] + Split(rest);
    assert Split(rest + [c] + b) == Split(rest) + Split(b) by {
      if rest == [] {
        assert rest + [c] + b == [c] + b;
        SplitLeadingSpace(c, b);
      } else {
        SplitAround(rest, c, b);
      }
    }
    assert [a[..m]] + (Split(rest) + Split(b)) == ([a[..m]] + Split(rest)) + Split(b);
  }

  /** Left-stripping does not change the words. */
  lemma {:induction false} SplitLStrip(s: string)
    ensures Split(LStrip(s)) == Split(s)
    decreases |s|
  {
    if s != [] && IsSpace(s[0]) {
      SplitLStrip(s[1..]);
    }
  }

  /** Right-stripping does not change the words. */
  lemma {:induction false} SplitRStrip(s: string)
    ensures Split(RStrip(s)) == Split(s)
    decreases |s|
  {
    if s != [] && IsSpace(s[|s| - 1]) {
      var init := s[..|s| - 1];
      assert RStrip(s) == RStrip(init);
      SplitRStrip(init);
      assert Split(s) == Split(init) by {
        assert s == init + [s[|s| - 1]] + [];
        SplitAround(init, s[|s| - 1], []);
        assert Split(init) + [] == Split(init);
      }
    }
  }

  /** `strip()` does not change the words. */
  lemma SplitStrip(s: string)
    ensures Split(Strip(s)) == Split(s)
  {
    SplitLStrip(s);
    SplitRStrip(LStrip(s));
  }

  // ---------------------------------------------------------------- join

  /** `sep.join(ws)`. */
  function Join(ws: seq<string>, sep: string): string
  {
    if ws == [] then "" else if |ws| == 1 then ws[0] else ws[0] + sep + Join(ws[1..], sep)
  }

  /** Appending one more word to a join adds the separator and the word. */
  lemma {:induction false} JoinSnoc(ws: seq<string>, w: string, sep: string)
    requires ws != []
    ensures Join(ws + [w], sep) == Join(ws, sep) + sep + w
  {
    if |ws| == 1 {
      assert ws + [w] == [ws[0], w];
      assert [ws[0], w][1..] == [w];
    } else {
      assert (ws + [w])[1..] == ws[1..] + [w];
      JoinSnoc(ws[1..], w, sep);
    }
  }

  /** Two strings joined by one space. */
  lemma JoinTwo(x: string, y: string)
    ensures Join([x, y], " ") == x + " " + y
  {
    assert [x, y][1..] == [y];
  }

  /** A word, a space, then anything: the word is the first token. */
  lemma SplitWordSpace(w: string, rest: string)
    requires IsToken(w)
    ensures Split(w + " " + rest) == [w] + Split(rest)
  {
    assert w + " " + rest == w + (" " + rest);
    SplitCons(w, " " + rest);
    assert [' '] + rest == " " + rest;
    SplitLeadingSpace(' ', rest);
  }

  lemma SplitJoinCons(ws: seq<string>)
    requires |ws| > 1 && IsToken(ws[0])
    requires Split(Join(ws[1..], " ")) == ws[1..]
    ensures Split(Join(ws, " ")) == ws
  {
    SplitWordSpace(ws[0], Join(ws[1..], " "));
    assert ws == [ws[0]] + ws[1..];
  }

  /** Splitting words joined by single spaces gives the words back. */
  lemma {:induction false} SplitJoin(ws: seq<string>)
    requires AllTokens(ws)
    ensures Split(Join(ws, " ")) == ws
  {
    if |ws| == 1 {
      SplitCons(ws[0], "");
      assert ws[0] + "" == ws[0];
    } else if |ws| > 1 {
      SplitJoin(ws[1..]);
      SplitJoinCons(ws);
    }
  }

  /** A join of words neither starts nor ends with whitespace, and is empty only when there are no words. */
  lemma {:induction false} JoinOfTokens(ws: seq<string>)
    requires AllTokens(ws)
    ensures Join(ws, " ") == [] <==> ws == []
    ensures ws != [] ==> Join(ws, " ")[0] == ws[0][0]
    ensures ws != [] ==> Join(ws, " ")[|Join(ws, " ")| - 1] == Last(Last(ws))
  {
    if |ws| > 1 {
      JoinOfTokens(ws[1..]);
    }
  }

  /** `strip()` leaves a space-join of words unchanged. */
  lemma JoinIsStripped(ws: seq<string>)
    requires AllTokens(ws)
    ensures Strip(Join(ws, " ")) == Join(ws, " ")
  {
    JoinOfTokens(ws);
    if ws != [] {
      assert IsToken(ws[0]) && IsToken(Last(ws));
    }
    StripUnchanged(Join(ws, " "));
  }

  // ---------------------------------------------------------------- slicing

  /** What `xs[:-k]` drops is exactly the last `k` elements. */
  lemma DropTailThenTail<T>(xs: seq<T>, k: nat)
    requires 0 < k <= |xs|
    ensures DropTail(xs, k) + xs[|xs| - k..] == xs
  {
    if k == |xs| {
      assert xs[0..] == xs;
    } else {
      assert xs[..|xs| - k] + xs[|xs| - k..] == xs;
    }
  }

  /** Python's list slice `xs[:-k]` for `k >= 0`: `xs[:-0]` is `xs[:0]`, the empty list, and a
      `k` at least as large as the list also leaves nothing. */
  function DropTail<T>(xs: seq<T>, k: nat): (r: seq<T>)
    ensures |r| == if 0 < k < |xs| then |xs| - k else 0
    ensures r == xs[..|r|]
  {
    if k == 0 || k >= |xs| then [] else xs[..|xs| - k]
  }

  // ---------------------------------------------------------------- find / replace

  /** `p` occurs in `s` starting at index `j`. */
  predicate OccursAt(s: string, p: string, j: int) {
    0 <= j && j + |p| <= |s| && s[j..j + |p|] == p
  }

  /** The lowest index from `i` on at which `p` occurs in `s`, or -1. */
  function FindFrom(s: string, p: string, i: nat): (r: int)
    ensures r == -1 || (i <= r && r + |p| <= |s|)
    decreases |s| - i
  {
    if i + |p| > |s| then -1
    else if s[i..i + |p|] == p then i
    else FindFrom(s, p, i + 1)
  }

  /** `FindFrom` returns an occurrence with none before it, and -1 only when there is none. */
  lemma {:induction false} FindFromSpec(s: string, p: string, i: nat)
    ensures var r := FindFrom(s, p, i);
            && (r != -1 ==> OccursAt(s, p, r) && forall j :: i <= j < r ==> !OccursAt(s, p, j))
            && (r == -1 ==> forall j :: i <= j ==> !OccursAt(s, p, j))
    decreases |s| - i
  {
    if i + |p| <= |s| && s[i..i + |p|] != p {
      FindFromSpec(s, p, i + 1);
    }
  }

  /** `s.find(p)`: the lowest index at which `p` occurs in `s`, or -1 when it occurs nowhere. */
  function Find(s: string, p: string): (r: int)
    ensures r == -1 || (0 <= r && r + |p| <= |s|)
  {
    FindFrom(s, p, 0)
  }

  /** `find` returns -1 exactly when the pattern occurs nowhere, and otherwise its first occurrence. */
  lemma FindSpec(s: string, p: string)
    ensures Find(s, p) == -1 <==> forall j :: !OccursAt(s, p, j)
    ensures Find(s, p) != -1 ==> OccursAt(s, p, Find(s, p)) && forall j :: 0 <= j < Find(s, p) ==> !OccursAt(s, p, j)
  {
    FindFromSpec(s, p, 0);
  }

  /** The first occurrence determines `find`. */
  lemma FindFirst(s: string, p: string, i: int)
    requires OccursAt(s, p, i)
    requires forall j :: 0 <= j < i ==> !OccursAt(s, p, j)
    ensures Find(s, p) == i
  {
    FindSpec(s, p);
    var r := Find(s, p);
    assert r != -1;
    assert !(r < i) && !(i < r);
  }

  /** A pattern whose second character occurs neither in `pre` nor as its own first character
      cannot start inside `pre`, so `find` meets it first right after `pre`. */
  lemma FindAfter(pre: string, pat: string, post: string)
    requires |pat| >= 2 && pat[0] != pat[1] && pat[1] !in pre
    ensures Find(pre + pat + post, pat) == |pre|
  {
    var s := pre + pat + post;
    assert s[|pre|..|pre| + |pat|] == pat;
    forall j | 0 <= j < |pre| ensures !OccursAt(s, pat, j) {
      assert s[j + 1] != pat[1] by {
        if j + 1 < |pre| {
          assert s[j + 1] == pre[j + 1];
        } else {
          assert s[j + 1] == pat[0];
        }
      }
      assert s[j..j + |pat|][1] == s[j + 1];
    }
    FindFirst(s, pat, |pre|);
  }

  /** Where `find` locates the pattern, the string is what comes before it, the pattern, and
      what comes after it. */
  lemma FoundSplits(s: string, pat: string)
    requires Find(s, pat) != -1
    ensures var i := Find(s, pat); s == s[..i] + pat + s[i + |pat|..]
  {
    var i := Find(s, pat);
    FindSpec(s, pat);
    assert s[i..i + |pat|] == pat;
    assert s == s[..i] + s[i..i + |pat|] + s[i + |pat|..];
  }

  /** `s.replace(pat, rep, 1)`: only the first occurrence of `pat` is replaced by `rep`. */
  function ReplaceFirst(s: string, pat: string, rep: string): string
  {
    var i := Find(s, pat);
    if i == -1 then s else s[..i] + rep + s[i + |pat|..]
  }

  /** Where `find` locates the pattern, replacing its first occurrence keeps what comes before
      and after it and puts `rep` in its place. */
  lemma ReplaceFirstFound(s: string, pat: string, rep: string)
    requires Find(s, pat) != -1
    ensures var i := Find(s, pat);
            && s == s[..i] + pat + s[i + |pat|..]
            && ReplaceFirst(s, pat, rep) == s[..i] + rep + s[i + |pat|..]
  {
    FoundSplits(s, pat);
  }

  /** `s.replace(c, "")` for a one-character `c`: every `c` deleted, nothing else touched. */
  function RemoveChar(s: string, c: char): (r: string)
    ensures c !in r
    ensures c !in s ==> r == s
  {
    if s == [] then []
    else (if s[0] == c then [] else [s[0]]) + RemoveChar(s[1..], c)
  }

  /** Deleting `c` keeps every other character that occurs, and brings in none. */
  lemma {:induction false} RemoveCharKeeps(s: string, c: char)
    ensures forall d :: d != c ==> (d in RemoveChar(s, c) <==> d in s)
  {
    if s != [] {
      RemoveCharKeeps(s[1..], c);
      assert s == [s[0]] + s[1..];
    }
  }

  /** `s.replace(pat, "")` for a non-empty `pat`: occurrences removed left to right, without overlap. */
  function RemoveAll(s: string, pat: string): (r: string)
    requires pat != []
    ensures r == [] ==> s == [] || StartsWith(s, pat)
    decreases |s|
  {
    if |s| < |pat| then s
    else if s[..|pat|] == pat then RemoveAll(s[|pat|..], pat)
    else [s[0]] + RemoveAll(s[1..], pat)
  }

  /** `n` copies of `p` side by side. */
  function Repeat(p: string, n: nat): string
  {
    if n == 0 then [] else p + Repeat(p, n - 1)
  }

  /** `replace(pat, "")` empties a string exactly when it is copies of `pat`: the "if" half. */
  lemma {:induction false} RemoveAllRepeat(pat: string, n: nat)
    requires pat != []
    ensures RemoveAll(Repeat(pat, n), pat) == []
  {
    if n > 0 {
      var s := Repeat(pat, n);
      assert s[..|pat|] == pat;
      assert s[|pat|..] == Repeat(pat, n - 1);
      RemoveAllRepeat(pat, n - 1);
    }
  }

  /** `replace(pat, "")` empties a string exactly when it is copies of `pat`: the "only if" half. */
  lemma {:induction false} RemoveAllEmpty(s: string, pat: string) returns (n: nat)
    requires pat != []
    requires RemoveAll(s, pat) == []
    ensures s == Repeat(pat, n)
    decreases |s|
  {
    if s == [] {
      n := 0;
    } else {
      assert |s| >= |pat| && s[..|pat|] == pat;
      var m := RemoveAllEmpty(s[|pat|..], pat);
      n := m + 1;
      assert s == s[..|pat|] + s[|pat|..];
    }
  }
}
