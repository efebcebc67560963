/**
 * normalize_name of app/utils.py: strip the edges, split on runs of whitespace,
 * join the pieces with one ASCII space. Each step is a function here, and the
 * lemmas state what the composition guarantees.
 */
module Names {

  /**
   * The whitespace of Python's `str.strip()` and `str.split()` with no argument:
   * the characters for which `str.isspace()` holds.
   */
  predicate IsSpace(c: char) {
    c == ' ' || ('\t' <= c <= '\r') || ('\U{001C}' <= c <= '\U{001F}')
    || c == '\U{0085}' || c == '\U{00A0}' || c == '\U{1680}'
    || ('\U{2000}' <= c <= '\U{200A}') || c == '\U{2028}' || c == '\U{2029}'
    || c == '\U{202F}' || c == '\U{205F}' || c == '\U{3000}'
  }

  /** No whitespace character anywhere in `s`. */
  predicate NoSpace(s: string) {
    forall i :: 0 <= i < |s| ==> !IsSpace(s[i])
  }

  /**
   * The normal form: every whitespace character is an ASCII space that is neither
   * first nor last and sits between two non-whitespace characters.
   */
  predicate Normal(s: string) {
    forall i :: 0 <= i < |s| && IsSpace(s[i]) ==>
      s[i] == ' ' && 0 < i < |s| - 1 && !IsSpace(s[i - 1]) && !IsSpace(s[i + 1])
  }

  /** `s` without its whitespace characters: the content normalization must keep. */
  function RemoveSpace(s: string): (r: string)
    ensures NoSpace(r)
  {
    if s == [] then []
    else (if IsSpace(s[0]) then [] else [s[0]]) + RemoveSpace(s[1..])
  }

  /** The number of whitespace characters `s` starts with. */
  function LeadingSpace(s: string): (k: nat)
    ensures k <= |s|
    ensures forall i :: 0 <= i < k ==> IsSpace(s[i])
    ensures k < |s| ==> !IsSpace(s[k])
  {
    if s != [] && IsSpace(s[0]) then 1 + LeadingSpace(s[1..]) else 0
  }

  /** The number of whitespace characters `s` ends with. */
  function TrailingSpace(s: string): (k: nat)
    ensures k <= |s|
    ensures forall i :: |s| - k <= i < |s| ==> IsSpace(s[i])
    ensures k < |s| ==> !IsSpace(s[|s| - 1 - k])
  {
    if s != [] && IsSpace(s[|s| - 1]) then 1 + TrailingSpace(s[..|s| - 1]) else 0
  }

  /** The length of the run of non-whitespace characters `s` starts with. */
  function WordLength(s: string): (n: nat)
    ensures n <= |s|
    ensures forall i :: 0 <= i < n ==> !IsSpace(s[i])
    ensures n < |s| ==> IsSpace(s[n])
  {
    if s == [] || IsSpace(s[0]) then 0 else 1 + WordLength(s[1..])
  }

  /** `lstrip()`: drop the leading whitespace. */
  function TrimLeft(s: string): string {
    s[LeadingSpace(s)..]
  }

  /** `rstrip()`: drop the trailing whitespace. */
  function TrimRight(s: string): string {
    s[..|s| - TrailingSpace(s)]
  }

  /** `strip()`: drop whitespace at both ends. */
  function Strip(s: string): string {
    TrimRight(TrimLeft(s))
  }

  /** `split()` with no separator: the maximal runs of non-whitespace, in order. */
  function Split(s: string): seq<string>
    decreases |s|
  {
    var t := TrimLeft(s);
    if t == [] then []
    else
      var n := WordLength(t);
      [t[..n]] + Split(t[n..])
  }

  /** `" ".join(ws)`. */
  function Join(ws: seq<string>): string {
    if ws == [] then []
    else if |ws| == 1 then ws[0]
    else ws[0] + " " + Join(ws[1..])
  }

  /** normalize_name. */
  function Normalize(s: string): string {
    Join(Split(Strip(s)))
  }

  // ---------- facts about the steps ----------

  /** The two halves of a concatenation are what was concatenated. */
  lemma Halves(a: string, b: string)
    ensures (a + b)[..|a|] == a && (a + b)[|a|..] == b
  {
  }

  /** A non-empty sequence of words is its first word followed by the rest. */
  lemma FirstAndRest(ws: seq<string>)
    requires ws != []
    ensures ws == [ws[0]] + ws[1..]
  {
  }

  /** Cutting `s` at `k` and gluing the parts back gives `s`. */
  lemma Cut(s: string, k: nat)
    requires k <= |s|
    ensures s == s[..k] + s[k..]
  {
  }

  /** Cutting `t` at `n` and appending `post` to the second part rebuilds `t + post`. */
  lemma CutAppend(t: string, n: nat, post: string)
    requires n <= |t|
    ensures t + post == t[..n] + (t[n..] + post)
  {
    var lhs, rhs := t + post, t[..n] + (t[n..] + post);
    assert |lhs| == |rhs|;
    forall i | 0 <= i < |lhs| ensures lhs[i] == rhs[i] {
      if i < n {
        assert rhs[i] == t[..n][i] == t[i];
      } else if i < |t| {
        assert rhs[i] == (t[n..] + post)[i - n] == t[n..][i - n] == t[i];
      } else {
        assert rhs[i] == (t[n..] + post)[i - n] == post[i - |t|];
      }
    }
  }

  /** A word followed by whitespace or by nothing is exactly what `WordLength` measures. */
  lemma WordLengthOf(w: string, rest: string)
    requires NoSpace(w)
    requires rest == [] || IsSpace(rest[0])
    ensures WordLength(w + rest) == |w|
  {
    assert forall i :: 0 <= i < |w| ==> (w + rest)[i] == w[i];
    assert rest != [] ==> (w + rest)[|w|] == rest[0];
  }

  /** A string that starts on a word splits into that word and the split of what follows it. */
  lemma SplitStep(s: string)
    requires s != [] && !IsSpace(s[0])
    ensures Split(s) == [s[..WordLength(s)]] + Split(s[WordLength(s)..])
  {
    assert TrimLeft(s) == s;
  }

  /** `split()` yields non-empty pieces without whitespace. */
  lemma {:induction false} SplitWords(s: string)
    ensures forall k :: 0 <= k < |Split(s)| ==> Split(s)[k] != [] && NoSpace(Split(s)[k])
    decreases |s|
  {
    var t := TrimLeft(s);
    if t != [] {
      var n := WordLength(t);
      var w, ws := t[..n], Split(t[n..]);
      SplitWords(t[n..]);
      assert Split(s) == [w] + ws;
      assert w != [] && NoSpace(w);
      forall k | 0 <= k < |Split(s)| ensures Split(s)[k] != [] && NoSpace(Split(s)[k]) {
        if k > 0 {
          assert Split(s)[k] == ws[k - 1];
        }
      }
    }
  }

  /** Whitespace in front of a string does not change how it splits. */
  lemma SplitAfterSpace(c: char, s: string)
    requires IsSpace(c)
    ensures Split([c] + s) == Split(s)
  {
    assert ([c] + s)[1..] == s;
    assert LeadingSpace([c] + s) == 1 + LeadingSpace(s);
    assert TrimLeft([c] + s) == TrimLeft(s);
  }

  /** `Join` puts exactly one space between the first word and the rest. */
  lemma JoinCons(w: string, ws: seq<string>)
    requires ws != []
    ensures Join([w] + ws) == w + " " + Join(ws)
  {
    assert ([w] + ws)[1..] == ws;
  }

  /** Every suffix of a normal string that starts on a word is normal too. */
  lemma NormalSuffix(r: string, k: nat)
    requires Normal(r) && k < |r| && !IsSpace(r[k])
    ensures Normal(r[k..])
  {
    var t := r[k..];
    forall i | 0 <= i < |t| && IsSpace(t[i])
      ensures t[i] == ' ' && 0 < i < |t| - 1 && !IsSpace(t[i - 1]) && !IsSpace(t[i + 1])
    {
      assert t[i] == r[k + i];
    }
  }

  /** Joining non-empty, whitespace-free words yields a normal string, empty only when there are no words. */
  lemma {:induction false} JoinNormal(ws: seq<string>)
    requires forall k :: 0 <= k < |ws| ==> ws[k] != [] && NoSpace(ws[k])
    ensures Normal(Join(ws))
    ensures Join(ws) == [] <==> ws == []
  {
    if |ws| >= 2 {
      JoinNormal(ws[1..]);
      var w, j := ws[0], Join(ws[1..]);
      assert !IsSpace(j[0]);
      assert !IsSpace(j[|j| - 1]);
      var r := w + " " + j;
      forall i | 0 <= i < |r| && IsSpace(r[i])
        ensures r[i] == ' ' && 0 < i < |r| - 1 && !IsSpace(r[i - 1]) && !IsSpace(r[i + 1])
      {
        if i > |w| {
          assert r[i] == j[i - |w| - 1];
          if i - |w| - 1 > 0 {
            assert r[i - 1] == j[i - |w| - 2];
          }
          assert r[i + 1] == j[i - |w|];
        }
      }
    } else if |ws| == 1 {
      assert Join(ws) == ws[0];
    }
  }

  /** A single word splits into itself. */
  lemma SplitOfWord(w: string)
    requires w != [] && NoSpace(w)
    ensures Split(w) == [w]
  {
    assert w + [] == w;
    WordLengthOf(w, []);
    SplitStep(w);
    assert w[..|w|] == w;
    assert w[|w|..] == [];
  }

  /** A word, one space, then a string that starts on a word: the first word comes off whole. */
  lemma SplitSeparated(w: string, j: string)
    requires w != [] && NoSpace(w)
    requires j != [] && !IsSpace(j[0])
    ensures Split(w + " " + j) == [w] + Split(j)
  {
    var s := w + " " + j;
    assert s == w + ([' '] + j);
    WordLengthOf(w, [' '] + j);
    SplitStep(s);
    assert s[..|w|] == w;
    assert s[|w|..] == [' '] + j;
    SplitAfterSpace(' ', j);
  }

  /** The join of non-empty, whitespace-free words starts on a word. */
  lemma JoinStartsOnWord(ws: seq<string>)
    requires ws != [] && ws[0] != [] && !IsSpace(ws[0][0])
    ensures Join(ws) != [] && Join(ws)[0] == ws[0][0]
  {
  }

  /** Round trip: splitting the join of non-empty, whitespace-free words gives back the words. */
  lemma {:induction false} SplitJoin(ws: seq<string>)
    requires forall k :: 0 <= k < |ws| ==> ws[k] != [] && NoSpace(ws[k])
    ensures Split(Join(ws)) == ws
  {
    if |ws| == 1 {
      SplitOfWord(ws[0]);
    } else if |ws| >= 2 {
      var rest := ws[1..];
      SplitJoin(rest);
      assert rest[0] == ws[1];
      JoinStartsOnWord(rest);
      SplitSeparated(ws[0], Join(rest));
      FirstAndRest(ws);
    }
  }

  /** A normal string with more than one word: its first word, one space, and a normal rest. */
  lemma NormalFirstWord(r: string)
    requires Normal(r) && r != [] && WordLength(r) < |r|
    ensures var n := WordLength(r);
      n + 1 < |r| && !IsSpace(r[n + 1]) && Normal(r[n + 1..]) && r == r[..n] + " " + r[n + 1..]
  {
    assert !IsSpace(r[0]);
    var n := WordLength(r);
    assert r[n] == ' ';
    NormalSuffix(r, n + 1);
    assert r == r[..n] + [r[n]] + r[n + 1..];
  }

  /** Round trip: a normal string is the join of its own words. */
  lemma {:induction false} JoinSplit(r: string)
    requires Normal(r)
    ensures Join(Split(r)) == r
    decreases |r|
  {
    if r != [] {
      var n := WordLength(r);
      var w := r[..n];
      if n == |r| {
        assert r == w;
        SplitOfWord(r);
      } else {
        var rest := r[n + 1..];
        NormalFirstWord(r);
        JoinSplit(rest);
        SplitSeparated(w, rest);
        SplitStep(rest);
        JoinCons(w, Split(rest));
      }
    }
  }

  /** Stripping a normal string changes nothing. */
  lemma StripNormal(r: string)
    requires Normal(r)
    ensures Strip(r) == r
  {
    if r != [] {
      assert !IsSpace(r[0]) && !IsSpace(r[|r| - 1]);
    }
    assert r[0..] == r;
    assert r[..|r|] == r;
  }

  /** Removing whitespace distributes over concatenation. */
  lemma {:induction false} RemoveSpaceAppend(a: string, b: string)
    ensures RemoveSpace(a + b) == RemoveSpace(a) + RemoveSpace(b)
  {
    if a == [] {
      assert a + b == b;
    } else {
      var head := if IsSpace(a[0]) then [] else [a[0]];
      assert (a + b)[0] == a[0];
      assert (a + b)[1..] == a[1..] + b;
      RemoveSpaceAppend(a[1..], b);
      calc {
        RemoveSpace(a + b);
        head + RemoveSpace(a[1..] + b);
        head + (RemoveSpace(a[1..]) + RemoveSpace(b));
        (head + RemoveSpace(a[1..])) + RemoveSpace(b);
        RemoveSpace(a) + RemoveSpace(b);
      }
    }
  }

  /** `RemoveSpace(s)` is empty exactly when `s` is all whitespace. */
  lemma {:induction false} RemoveSpaceEmpty(s: string)
    ensures RemoveSpace(s) == [] <==> forall i :: 0 <= i < |s| ==> IsSpace(s[i])
  {
    if s != [] {
      RemoveSpaceEmpty(s[1..]);
      assert forall i :: 1 <= i < |s| ==> s[i] == s[1..][i - 1];
    }
  }

  /** A string without whitespace loses nothing. */
  lemma {:induction false} RemoveSpaceOfWord(s: string)
    requires NoSpace(s)
    ensures RemoveSpace(s) == s
  {
    if s != [] {
      RemoveSpaceOfWord(s[1..]);
      assert s == [s[0]] + s[1..];
    }
  }

  /** Removing whitespace from `w + " " + j` keeps the word and drops the separator. */
  lemma RemoveSpaceSeparated(w: string, j: string)
    requires NoSpace(w)
    ensures RemoveSpace(w + " " + j) == w + RemoveSpace(j)
  {
    RemoveSpaceAppend(w + " ", j);
    RemoveSpaceAppend(w, " ");
    RemoveSpaceOfWord(w);
    assert RemoveSpace(" ") == [];
    assert w + [] == w;
  }

  /** `lstrip()` only removes whitespace. */
  lemma TrimLeftKeepsContent(s: string)
    ensures RemoveSpace(TrimLeft(s)) == RemoveSpace(s)
  {
    var k := LeadingSpace(s);
    Cut(s, k);
    RemoveSpaceAppend(s[..k], s[k..]);
    RemoveSpaceEmpty(s[..k]);
  }

  /** `rstrip()` only removes whitespace. */
  lemma TrimRightKeepsContent(s: string)
    ensures RemoveSpace(TrimRight(s)) == RemoveSpace(s)
  {
    var k := |s| - TrailingSpace(s);
    Cut(s, k);
    RemoveSpaceAppend(s[..k], s[k..]);
    RemoveSpaceEmpty(s[k..]);
  }

  /** Stripping only removes whitespace. */
  lemma StripKeepsContent(s: string)
    ensures RemoveSpace(Strip(s)) == RemoveSpace(s)
  {
    TrimLeftKeepsContent(s);
    TrimRightKeepsContent(TrimLeft(s));
  }

  /** One step of `Split` keeps the content: the word in front, then the split of what follows it. */
  lemma KeepsContentCons(t: string, n: nat)
    requires n <= |t| && NoSpace(t[..n])
    requires RemoveSpace(Join(Split(t[n..]))) == RemoveSpace(t[n..])
    ensures RemoveSpace(Join([t[..n]] + Split(t[n..]))) == RemoveSpace(t)
  {
    var w, ws := t[..n], Split(t[n..]);
    Cut(t, n);
    RemoveSpaceAppend(w, t[n..]);
    RemoveSpaceOfWord(w);
    if ws != [] {
      JoinCons(w, ws);
      RemoveSpaceSeparated(w, Join(ws));
    } else {
      assert Join([w]) == w;
    }
  }

  /** Splitting and re-joining only changes whitespace. */
  lemma {:induction false} JoinSplitKeepsContent(s: string)
    ensures RemoveSpace(Join(Split(s))) == RemoveSpace(s)
    decreases |s|
  {
    TrimLeftKeepsContent(s);
    var t := TrimLeft(s);
    if t != [] {
      var n := WordLength(t);
      assert Split(s) == [t[..n]] + Split(t[n..]);
      JoinSplitKeepsContent(t[n..]);
      KeepsContentCons(t, n);
    }
  }

  /** Whitespace in front of a string that starts on a word is exactly what `LeadingSpace` counts. */
  lemma LeadingSpaceOf(pre: string, rest: string)
    requires forall i :: 0 <= i < |pre| ==> IsSpace(pre[i])
    requires rest == [] || !IsSpace(rest[0])
    ensures LeadingSpace(pre + rest) == |pre|
  {
    assert forall i :: 0 <= i < |pre| ==> (pre + rest)[i] == pre[i];
    assert rest != [] ==> (pre + rest)[|pre|] == rest[0];
  }

  /** Whitespace after a string that ends on a word is exactly what `TrailingSpace` counts. */
  lemma TrailingSpaceOf(rest: string, post: string)
    requires forall i :: 0 <= i < |post| ==> IsSpace(post[i])
    requires rest == [] || !IsSpace(rest[|rest| - 1])
    ensures TrailingSpace(rest + post) == |post|
  {
    assert forall i :: |rest| <= i < |rest| + |post| ==> (rest + post)[i] == post[i - |rest|];
    assert rest != [] ==> (rest + post)[|rest| - 1] == rest[|rest| - 1];
  }

  /** Stripping removes exactly the whitespace around a string that starts and ends on a word. */
  lemma StripAround(pre: string, core: string, post: string)
    requires forall i :: 0 <= i < |pre| ==> IsSpace(pre[i])
    requires forall i :: 0 <= i < |post| ==> IsSpace(post[i])
    requires core != [] && !IsSpace(core[0]) && !IsSpace(core[|core| - 1])
    ensures Strip(pre + core + post) == core
  {
    var s := pre + core + post;
    assert s == pre + (core + post);
    LeadingSpaceOf(pre, core + post);
    assert TrimLeft(s) == core + post;
    TrailingSpaceOf(core, post);
    assert (core + post)[..|core|] == core;
  }

  /** Any run of whitespace in front of a string does not change how it splits. */
  lemma {:induction false} SplitAfterSpaces(sp: string, s: string)
    requires forall i :: 0 <= i < |sp| ==> IsSpace(sp[i])
    ensures Split(sp + s) == Split(s)
  {
    if sp == [] {
      assert sp + s == s;
    } else {
      assert sp + s == [sp[0]] + (sp[1..] + s);
      SplitAfterSpaces(sp[1..], s);
      SplitAfterSpace(sp[0], sp[1..] + s);
    }
  }

  /** A string of whitespace has no words. */
  lemma SplitOfSpaces(sp: string)
    requires forall i :: 0 <= i < |sp| ==> IsSpace(sp[i])
    ensures Split(sp) == []
  {
    assert sp + [] == sp;
    LeadingSpaceOf(sp, []);
  }

  /** Whitespace after a string that starts on a word does not lengthen its first word. */
  lemma SplitStepBeforeSpaces(t: string, post: string)
    requires t != [] && !IsSpace(t[0])
    requires forall i :: 0 <= i < |post| ==> IsSpace(post[i])
    ensures var n := WordLength(t);
      Split(t + post) == [t[..n]] + Split(t[n..] + post)
  {
    var n := WordLength(t);
    var w, rest := t[..n], t[n..] + post;
    CutAppend(t, n, post);
    assert n == |t| ==> rest == post;
    assert n < |t| ==> rest[0] == t[n];
    WordLengthOf(w, rest);
    SplitStep(t + post);
    Halves(w, rest);
  }

  /** Any run of whitespace after a string does not change how it splits. */
  lemma {:induction false} SplitBeforeSpaces(s: string, post: string)
    requires forall i :: 0 <= i < |post| ==> IsSpace(post[i])
    ensures Split(s + post) == Split(s)
    decreases |s|
  {
    var k := LeadingSpace(s);
    var t := s[k..];
    Cut(s, k);
    CutAppend(s, k, post);
    SplitAfterSpaces(s[..k], t);
    SplitAfterSpaces(s[..k], t + post);
    if t == [] {
      assert t + post == post;
      SplitOfSpaces(post);
      SplitOfSpaces(t);
    } else {
      var n := WordLength(t);
      SplitStep(t);
      SplitStepBeforeSpaces(t, post);
      SplitBeforeSpaces(t[n..], post);
    }
  }

  /** `split()` already ignores edge whitespace, so stripping first changes nothing. */
  lemma SplitIgnoresEdges(s: string)
    ensures Split(Strip(s)) == Split(s)
  {
    var k := LeadingSpace(s);
    var l := TrimLeft(s);
    Cut(s, k);
    SplitAfterSpaces(s[..k], l);
    var m := |l| - TrailingSpace(l);
    Cut(l, m);
    SplitBeforeSpaces(l[..m], l[m..]);
  }

  /** A word, a non-empty run of whitespace, then the rest: the word comes off whole. */
  lemma SplitSpaced(w: string, sp: string, rest: string)
    requires w != [] && NoSpace(w)
    requires sp != [] && forall i :: 0 <= i < |sp| ==> IsSpace(sp[i])
    ensures Split(w + sp + rest) == [w] + Split(rest)
  {
    var s := w + sp + rest;
    assert s == w + (sp + rest);
    assert (sp + rest)[0] == sp[0];
    WordLengthOf(w, sp + rest);
    SplitStep(s);
    assert s[..|w|] == w;
    assert s[|w|..] == sp + rest;
    SplitAfterSpaces(sp, rest);
  }

  // ---------- what normalize_name guarantees ----------

  /** The result has no whitespace at either end, and its only whitespace is single ASCII spaces. */
  lemma NormalizeIsNormal(s: string)
    ensures Normal(Normalize(s))
    ensures var r := Normalize(s); r == [] || (!IsSpace(r[0]) && !IsSpace(r[|r| - 1]))
    ensures var r := Normalize(s); forall i :: 0 <= i < |r| && IsSpace(r[i]) ==> r[i] == ' '
    ensures var r := Normalize(s); forall i :: 0 <= i < |r| - 1 ==> !IsSpace(r[i]) || !IsSpace(r[i + 1])
  {
    var r := Normalize(s);
    SplitWords(Strip(s));
    JoinNormal(Split(Strip(s)));
    if r != [] {
      assert !IsSpace(r[0]) && !IsSpace(r[|r| - 1]);
    }
  }

  /** The non-whitespace characters of the input survive, in order and with their case. */
  lemma NormalizeKeepsContent(s: string)
    ensures RemoveSpace(Normalize(s)) == RemoveSpace(s)
  {
    JoinSplitKeepsContent(Strip(s));
    StripKeepsContent(s);
  }

  /** The result has exactly the words `split()` finds in the input. */
  lemma NormalizeKeepsWords(s: string)
    ensures Split(Normalize(s)) == Split(s)
  {
    SplitWords(Strip(s));
    SplitJoin(Split(Strip(s)));
    SplitIgnoresEdges(s);
  }

  /** The result is empty exactly when the input is empty or all whitespace. */
  lemma NormalizeEmpty(s: string)
    ensures Normalize(s) == [] <==> forall i :: 0 <= i < |s| ==> IsSpace(s[i])
  {
    var r := Normalize(s);
    NormalizeKeepsContent(s);
    NormalizeIsNormal(s);
    RemoveSpaceEmpty(s);
    RemoveSpaceEmpty(r);
  }

  /** Normal strings are fixed points, so normalizing twice is normalizing once. */
  lemma NormalizeIdempotent(s: string)
    ensures Normalize(Normalize(s)) == Normalize(s)
  {
    var r := Normalize(s);
    NormalizeIsNormal(s);
    StripNormal(r);
    JoinSplit(r);
  }

  /** Whitespace, a word, whitespace, a word, whitespace: normalized to the two words and one space. */
  lemma NormalizeTwoWords(pre: string, a: string, mid: string, b: string, post: string)
    requires forall i :: 0 <= i < |pre| ==> IsSpace(pre[i])
    requires forall i :: 0 <= i < |mid| ==> IsSpace(mid[i])
    requires forall i :: 0 <= i < |post| ==> IsSpace(post[i])
    requires mid != [] && a != [] && b != [] && NoSpace(a) && NoSpace(b)
    ensures Normalize(pre + a + mid + b + post) == a + " " + b
  {
    var core := a + mid + b;
    assert pre + a + mid + b + post == pre + core + post;
    assert core[0] == a[0] && core[|core| - 1] == b[|b| - 1];
    StripAround(pre, core, post);
    SplitSpaced(a, mid, b);
    SplitOfWord(b);
    JoinCons(a, [b]);
  }

  /** The first vector of tests/test_utils.py, cut at its whitespace runs. */
  lemma AliceBobPieces()
    ensures "  Alice   Bob  " == "  " + "Alice" + "   " + "Bob" + "  "
    ensures "Alice Bob" == "Alice" + " " + "Bob"
  {
  }

  /** `normalize_name("  Alice   Bob  ") == "Alice Bob"` (tests/test_utils.py). */
  lemma NormalizeAliceBob()
    ensures Normalize("  Alice   Bob  ") == "Alice Bob"
  {
    AliceBobPieces();
    NormalizeTwoWords("  ", "Alice", "   ", "Bob", "  ");
  }

  /** `normalize_name("   ") == ""` (tests/test_utils.py). */
  lemma NormalizeBlank()
    ensures Normalize("   ") == ""
  {
    NormalizeEmpty("   ");
  }
}
