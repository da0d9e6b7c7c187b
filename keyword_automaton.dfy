/**
 * The meaning of the keyword automaton, stated on words rather than on
 * nodes. A trie node stands for the word spelled from the root to it, so a
 * trie is a prefix-closed set of words (`keys`). The failure target of a
 * node is the longest proper suffix of its word that is in the trie; a
 * cursor after reading some text stands at the longest suffix of the text
 * that is in the trie; a node's result list is its own keywords followed by
 * its failure target's results.
 */
module KeywordAutomaton {
  import opened Common

  /** The set of words of a trie: every non-empty word's prefix one shorter is a word too. */
  predicate PrefixClosed(keys: set<string>) {
    forall k | k in keys && k != [] :: k[..|k| - 1] in keys
  }

  /** The prefixes of `p`, from the empty word to `p` itself. */
  ghost function PrefixesOf(p: string): set<string> {
    set j | 0 <= j <= |p| :: p[..j]
  }

  /** The words of the trie of the keywords `K`: the empty word and every prefix of a keyword. */
  ghost function Prefixes(K: seq<string>): set<string>
    decreases |K|
  {
    if K == [] then {[]} else Prefixes(K[..|K| - 1]) + PrefixesOf(K[|K| - 1])
  }

  /** One more keyword adds its prefixes to the trie words. */
  lemma PrefixesSnoc(K: seq<string>, k: string)
    ensures Prefixes(K + [k]) == Prefixes(K) + PrefixesOf(k)
  {
    assert (K + [k])[..|K|] == K;
  }

  /** The only prefix of length at most 0 is the empty word. */
  lemma PrefixesUpToZero(p: string)
    ensures (set j | 0 <= j <= 0 :: p[..j]) == {[]}
  {
    assert p[..0] == [];
  }

  /** Adding the prefix of length `i + 1` to a set holding those up to length `i`. */
  lemma PrefixesUpTo(base: set<string>, before: set<string>, after: set<string>, p: string, i: nat)
    requires i < |p| && before == base + (set j | 0 <= j <= i :: p[..j]) && after == before + {p[..i + 1]}
    ensures after == base + (set j | 0 <= j <= i + 1 :: p[..j])
  {
  }

  /** The set of trie words holds the root's empty word and every keyword. */
  predicate Covers(K: seq<string>, keys: set<string>) {
    [] in keys && PrefixClosed(keys) && forall k | k in K :: k in keys
  }

  /** `p` is a suffix of `s` and shorter than it. */
  predicate IsProperSuffix(p: string, s: string) {
    |p| < |s| && IsSuffix(p, s)
  }

  /** Two suffixes of one string: the shorter is a suffix of the longer. */
  lemma SuffixOfSuffix(a: string, b: string, s: string)
    requires IsSuffix(a, s) && IsSuffix(b, s) && |a| <= |b|
    ensures IsSuffix(a, b)
  {
    assert b[|b| - |a|..] == s[|s| - |a|..];
  }

  /** A suffix of a suffix is a suffix. */
  lemma SuffixTransitive(a: string, b: string, s: string)
    requires IsSuffix(a, b) && IsSuffix(b, s)
    ensures IsSuffix(a, s)
  {
    assert s[|s| - |a|..] == b[|b| - |a|..];
  }

  /** A suffix shorter than `s` is a suffix of `s` without its first character. */
  lemma SuffixOfTail(a: string, s: string)
    requires IsSuffix(a, s) && |a| < |s|
    ensures IsSuffix(a, s[1..])
  {
    assert s[1..][|s| - 1 - |a|..] == s[|s| - |a|..];
  }

  /** Extending both sides by one character keeps a suffix a suffix, and conversely. */
  lemma SuffixExtend(a: string, s: string, c: char)
    ensures IsSuffix(a, s) <==> IsSuffix(a + [c], s + [c])
  {
    if IsSuffix(a + [c], s + [c]) {
      assert s[|s| - |a|..] == (s + [c])[|s| - |a|..|s|];
      assert (a + [c])[..|a|] == a;
    }
    if IsSuffix(a, s) {
      assert (s + [c])[|s| + 1 - |a| - 1..] == s[|s| - |a|..] + [c];
    }
  }

  /** A non-empty suffix of `s + [c]` is a suffix of `s` followed by `c`. */
  lemma SuffixSplit(m: string, s: string, c: char)
    requires IsSuffix(m, s + [c]) && |m| > 0
    ensures m == m[..|m| - 1] + [c] && IsSuffix(m[..|m| - 1], s)
  {
    assert m == m[..|m| - 1] + [c];
    SuffixExtend(m[..|m| - 1], s, c);
  }

  /**
   * The longest suffix of `x` that is a trie word (the empty word when no
   * non-empty one is): where the cursor stands after reading `x`, and, for
   * `x` a node's word without its first character, that node's failure target.
   */
  function Longest(keys: set<string>, x: string): (r: string)
    ensures IsSuffix(r, x) && (r in keys || r == [])
    ensures forall v {:trigger IsSuffix(v, x)} | v in keys && IsSuffix(v, x) :: |v| <= |r|
    decreases |x|
  {
    if x == [] || x in keys then x
    else
      var r := Longest(keys, x[1..]);
      assert IsSuffix(x[1..], x);
      SuffixTransitive(r, x[1..], x);
      assert forall v | v in keys && IsSuffix(v, x) :: IsSuffix(v, x[1..]) by {
        forall v | v in keys && IsSuffix(v, x)
          ensures IsSuffix(v, x[1..])
        {
          SuffixOfTail(v, x);
        }
      }
      r
  }

  /** The longest suffix is the only trie word that is a suffix and no shorter than every other. */
  lemma LongestUnique(keys: set<string>, x: string, r: string)
    requires r in keys && IsSuffix(r, x)
    requires forall v | v in keys && IsSuffix(v, x) :: |v| <= |r|
    ensures Longest(keys, x) == r
  {
    var l := Longest(keys, x);
    assert |l| == |r| by {
      if l != [] {
        assert |l| <= |r|;
      }
    }
    assert l == x[|x| - |l|..] == r;
  }

  /**
   * The failure-link walk for character `c` from the node of word `u`: the
   * first node on `u`'s failure chain with a `c`-transition, taken; the root's
   * empty word when the chain runs out.
   */
  function Walk(keys: set<string>, u: string, c: char): (r: string)
    ensures r == [] || (r in keys && IsSuffix(r, u + [c]))
    decreases |u|
  {
    if u + [c] in keys then
      assert IsSuffix(u + [c], u + [c]);
      u + [c]
    else if u == [] then []
    else
      var f := Longest(keys, u[1..]);
      var r := Walk(keys, f, c);
      if r == [] then r
      else
        assert IsSuffix(f, u) by {
          assert IsSuffix(u[1..], u);
          SuffixTransitive(f, u[1..], u);
        }
        SuffixExtend(f, u, c);
        SuffixTransitive(r, f + [c], u + [c]);
        r
  }

  /**
   * The walk from any trie word `u` that is a suffix of `w`, above which no
   * longer suffix of `w` extends by `c`, reaches the longest suffix of
   * `w + [c]` in the trie.
   */
  lemma {:induction false} WalkReachesLongest(keys: set<string>, w: string, u: string, c: char)
    requires [] in keys && PrefixClosed(keys)
    requires u in keys && IsSuffix(u, w)
    requires forall t | IsSuffix(t, w) && |t| > |u| :: t + [c] !in keys
    ensures Walk(keys, u, c) == Longest(keys, w + [c])
    decreases |u|
  {
    var l := Longest(keys, w + [c]);
    if l != [] {
      SuffixSplit(l, w, c);
      var t := l[..|l| - 1];
      assert t + [c] == l;
    }
    if u + [c] in keys {
      SuffixExtend(u, w, c);
      LongestUnique(keys, w + [c], u + [c]);
    } else if u == [] {
    } else {
      var f := Longest(keys, u[1..]);
      assert IsSuffix(u[1..], u);
      SuffixTransitive(f, u[1..], u);
      SuffixTransitive(f, u, w);
      forall t | IsSuffix(t, w) && |t| > |f|
        ensures t + [c] !in keys
      {
        if |t| == |u| {
          assert t == w[|w| - |u|..] == u;
        } else if |t| < |u| {
          SuffixOfSuffix(t, u, w);
          SuffixOfTail(t, u);
          assert (t + [c])[..|t|] == t;
        }
      }
      WalkReachesLongest(keys, w, f, c);
    }
  }

  /** One step of the cursor: from the longest suffix of `w`, the walk reaches the longest suffix of `w + [c]`. */
  lemma WalkFromLongest(keys: set<string>, w: string, c: char)
    requires [] in keys && PrefixClosed(keys)
    ensures Walk(keys, Longest(keys, w), c) == Longest(keys, w + [c])
  {
    var u := Longest(keys, w);
    forall t | IsSuffix(t, w) && |t| > |u|
      ensures t + [c] !in keys
    {
      assert (t + [c])[..|t|] == t;
    }
    WalkReachesLongest(keys, w, u, c);
  }

  /**
   * The failure target of the node of `s + [c]`, for `s` non-empty, is the
   * walk for `c` from the failure target of `s`: what the breadth-first
   * linking computes from the parent's failure link.
   */
  lemma FailureFromParent(keys: set<string>, s: string, c: char)
    requires [] in keys && PrefixClosed(keys) && s != []
    ensures Longest(keys, (s + [c])[1..]) == Walk(keys, Longest(keys, s[1..]), c)
  {
    assert (s + [c])[1..] == s[1..] + [c];
    WalkFromLongest(keys, s[1..], c);
  }

  /** The keywords of `K` equal to `p`, in insertion order: the keywords ending at the node of `p`. */
  function Own(K: seq<string>, p: string): (r: seq<string>)
    ensures forall x | x in r :: x == p
    ensures p in K <==> r != []
    decreases |K|
  {
    if K == [] then []
    else (if K[0] == p then [K[0]] else []) + Own(K[1..], p)
  }

  /** Inserting one more keyword adds it at the end of its own node's list only. */
  lemma {:induction false} OwnAppend(K: seq<string>, k: string, p: string)
    ensures Own(K + [k], p) == Own(K, p) + (if k == p then [k] else [])
    decreases |K|
  {
    if K == [] {
      assert Own([k], p) == (if k == p then [k] else []) + Own([], p);
    } else {
      var head: seq<string> := if K[0] == p then [K[0]] else [];
      var extra: seq<string> := if k == p then [k] else [];
      assert (K + [k])[0] == K[0] && (K + [k])[1..] == K[1..] + [k];
      assert Own(K + [k], p) == head + Own(K[1..] + [k], p);
      OwnAppend(K[1..], k, p);
      assert head + (Own(K[1..], p) + extra) == (head + Own(K[1..], p)) + extra;
    }
  }

  /**
   * The result list of the node of `p`: its own keywords, then (unless it
   * fails to the root) the result list of its failure target.
   */
  function ResultsAt(K: seq<string>, keys: set<string>, p: string): seq<string>
    decreases |p|
  {
    Own(K, p) + (if p == [] then [] else
      var f := Longest(keys, p[1..]);
      if f == [] then [] else ResultsAt(K, keys, f))
  }

  /** Every result at a node is a keyword that is a suffix of the node's word. */
  lemma {:induction false} ResultsSound(K: seq<string>, keys: set<string>, p: string, x: string)
    requires x in ResultsAt(K, keys, p)
    ensures x in K && IsSuffix(x, p)
    decreases |p|
  {
    if x !in Own(K, p) {
      var f := Longest(keys, p[1..]);
      ResultsSound(K, keys, f, x);
      assert IsSuffix(p[1..], p);
      SuffixTransitive(f, p[1..], p);
      SuffixTransitive(x, f, p);
    }
  }

  /** Every non-empty keyword that is a suffix of a node's word is among its results. */
  lemma {:induction false} ResultsComplete(K: seq<string>, keys: set<string>, p: string, k: string)
    requires forall x | x in K :: x in keys
    requires k in K && k != [] && IsSuffix(k, p)
    ensures k in ResultsAt(K, keys, p)
    decreases |p|
  {
    if k == p {
      var own := Own(K, p);
      assert own != [] && own[0] in own;
    } else {
      SuffixOfTail(k, p);
      var f := Longest(keys, p[1..]);
      SuffixOfSuffix(k, f, p[1..]);
      ResultsComplete(K, keys, f, k);
    }
  }

  /** Some keyword ends at the end of `s`. */
  predicate EndsWithKeyword(K: seq<string>, s: string) {
    exists k | k in K :: IsSuffix(k, s)
  }

  /** Some non-empty keyword ends at the end of `s`. */
  predicate EndsWithNonEmptyKeyword(K: seq<string>, s: string) {
    exists k | k in K && k != [] :: IsSuffix(k, s)
  }

  /**
   * `Contains(text, onlyStarts)` from a cursor at `u`: each character moves
   * the cursor by the failure-link walk; a walk that falls off the root ends
   * the anchored query with false; the first cursor with a non-empty result
   * list answers true.
   */
  function ContainsFrom(K: seq<string>, keys: set<string>, u: string, text: string, onlyStarts: bool): bool
    decreases |text|
  {
    if text == [] then false
    else
      var next := Walk(keys, u, text[0]);
      if next == [] && onlyStarts then false
      else if ResultsAt(K, keys, next) != [] then true
      else ContainsFrom(K, keys, next, text[1..], onlyStarts)
  }

  /** `FindAll` from a cursor at `u`: after each character, the cursor's result list. */
  function FindAllFrom(K: seq<string>, keys: set<string>, u: string, text: string): seq<string>
    decreases |text|
  {
    if text == [] then []
    else
      var next := Walk(keys, u, text[0]);
      ResultsAt(K, keys, next) + FindAllFrom(K, keys, next, text[1..])
  }

  /** The cursor stays a suffix of the text read: the walk from a suffix of `w` ends at a suffix of `w + [c]`. */
  lemma WalkStaysSuffix(keys: set<string>, w: string, u: string, c: char)
    requires IsSuffix(u, w)
    ensures IsSuffix(Walk(keys, u, c), w + [c])
  {
    var next := Walk(keys, u, c);
    SuffixExtend(u, w, c);
    if next == [] {
      assert (w + [c])[|w + [c]|..] == [];
    } else {
      SuffixTransitive(next, u + [c], w + [c]);
    }
  }

  /** Reading one more character of `w + text`. */
  lemma ReadOne(w: string, text: string)
    requires text != []
    ensures (w + text)[..|w| + 1] == w + [text[0]]
    ensures (w + [text[0]]) + text[1..] == w + text
  {
  }

  /** A true answer has a keyword ending at some position of the text read from `w` on. */
  lemma {:induction false} ContainsSound(K: seq<string>, keys: set<string>, w: string, u: string, text: string, onlyStarts: bool)
    requires IsSuffix(u, w) && ContainsFrom(K, keys, u, text, onlyStarts)
    ensures exists j | |w| < j <= |w| + |text| :: EndsWithKeyword(K, (w + text)[..j])
    decreases |text|
  {
    var c := text[0];
    var next := Walk(keys, u, c);
    WalkStaysSuffix(keys, w, u, c);
    ReadOne(w, text);
    if ResultsAt(K, keys, next) != [] {
      var x := ResultsAt(K, keys, next)[0];
      ResultsSound(K, keys, next, x);
      SuffixTransitive(x, next, w + [c]);
      assert EndsWithKeyword(K, (w + text)[..|w| + 1]);
    } else {
      ContainsSound(K, keys, w + [c], next, text[1..], onlyStarts);
    }
  }

  /**
   * Without the anchored cut-off, a cursor standing at the longest trie
   * suffix of `w` answers true once a non-empty keyword ends in the rest.
   */
  lemma {:induction false} ContainsComplete(K: seq<string>, keys: set<string>, w: string, text: string, j: nat)
    requires Covers(K, keys)
    requires |w| < j <= |w| + |text| && EndsWithNonEmptyKeyword(K, (w + text)[..j])
    ensures ContainsFrom(K, keys, Longest(keys, w), text, false)
    decreases |text|
  {
    var c := text[0];
    var next := Walk(keys, Longest(keys, w), c);
    WalkFromLongest(keys, w, c);
    ReadOne(w, text);
    if j == |w| + 1 {
      var k :| k in K && k != [] && IsSuffix(k, w + [c]);
      SuffixOfSuffix(k, next, w + [c]);
      ResultsComplete(K, keys, next, k);
    } else if ResultsAt(K, keys, next) == [] {
      ContainsComplete(K, keys, w + [c], text[1..], j);
    }
  }

  /** Every prefix of a trie word is a trie word. */
  lemma {:induction false} PrefixInKeys(keys: set<string>, k: string, n: nat)
    requires PrefixClosed(keys) && k in keys && n <= |k|
    ensures k[..n] in keys
    decreases |k| - n
  {
    if n < |k| {
      PrefixInKeys(keys, k, n + 1);
      assert k[..n + 1][..n] == k[..n];
    } else {
      assert k[..n] == k;
    }
  }

  /**
   * The anchored query is complete for keywords starting where the cursor's
   * word does: a cursor at a proper prefix `u` of a keyword `k`, with `k`
   * spelled by `u` and the rest of the text, follows the trie edges of `k`
   * without falling back to the root and answers true by `k`'s node at the
   * latest.
   */
  lemma {:induction false} AnchoredComplete(K: seq<string>, keys: set<string>, u: string, text: string, k: string)
    requires Covers(K, keys)
    requires k in K && |u| < |k| && IsPrefix(u, k) && IsPrefix(k, u + text)
    ensures ContainsFrom(K, keys, u, text, true)
    decreases |text|
  {
    var c := text[0];
    ReadOne(u, text);
    assert k[..|u| + 1] == (u + text)[..|u| + 1] == u + [c];
    PrefixInKeys(keys, k, |u| + 1);
    var next := Walk(keys, u, c);
    assert next == u + [c];
    if |u| + 1 == |k| {
      assert next == k;
      assert Own(K, next) != [];
    } else if ResultsAt(K, keys, next) == [] {
      AnchoredComplete(K, keys, next, text[1..], k);
    }
  }

  /** Every keyword `FindAll` yields is a keyword ending at some position of the text. */
  lemma {:induction false} FindAllSound(K: seq<string>, keys: set<string>, w: string, u: string, text: string, x: string)
    requires IsSuffix(u, w) && x in FindAllFrom(K, keys, u, text)
    ensures x in K && exists j | |w| < j <= |w| + |text| :: IsSuffix(x, (w + text)[..j])
    decreases |text|
  {
    var c := text[0];
    var next := Walk(keys, u, c);
    WalkStaysSuffix(keys, w, u, c);
    ReadOne(w, text);
    if x in ResultsAt(K, keys, next) {
      ResultsSound(K, keys, next, x);
      SuffixTransitive(x, next, w + [c]);
    } else {
      FindAllSound(K, keys, w + [c], next, text[1..], x);
    }
  }

  /** Every non-empty keyword ending at some position of the text is yielded by `FindAll`. */
  lemma {:induction false} FindAllComplete(K: seq<string>, keys: set<string>, w: string, text: string, j: nat, k: string)
    requires Covers(K, keys) && k in K && k != []
    requires |w| < j <= |w| + |text| && IsSuffix(k, (w + text)[..j])
    ensures k in FindAllFrom(K, keys, Longest(keys, w), text)
    decreases |text|
  {
    var c := text[0];
    var next := Walk(keys, Longest(keys, w), c);
    WalkFromLongest(keys, w, c);
    ReadOne(w, text);
    if j == |w| + 1 {
      SuffixOfSuffix(k, next, w + [c]);
      ResultsComplete(K, keys, next, k);
    } else {
      FindAllComplete(K, keys, w + [c], text[1..], j, k);
    }
  }

  /** With no keywords no node has a result. */
  lemma {:induction false} NoKeywordsNoneAt(keys: set<string>, p: string)
    ensures ResultsAt([], keys, p) == []
    decreases |p|
  {
    if p != [] {
      var f := Longest(keys, p[1..]);
      if f != [] {
        NoKeywordsNoneAt(keys, f);
      }
    }
  }

  /** With no keywords there are no results: every query is false or empty. */
  lemma {:induction false} NoKeywordsNoResults(keys: set<string>, u: string, text: string, onlyStarts: bool)
    ensures !ContainsFrom([], keys, u, text, onlyStarts) && FindAllFrom([], keys, u, text) == []
    decreases |text|
  {
    if text != [] {
      var next := Walk(keys, u, text[0]);
      NoKeywordsNoneAt(keys, next);
      NoKeywordsNoResults(keys, next, text[1..], onlyStarts);
    }
  }
}
