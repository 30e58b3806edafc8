/**
 * `parseInlineMarkdown`: one line of text is split by the regular expression
 * `(\*\*.*?\*\*)|(\*.*?\*)` (global, lazy, the bold alternative tried first,
 * `.` not matching a line terminator), the empty parts are dropped, and each
 * remaining part becomes a bold, italic or plain run.
 */
module Inline {
  import opened Wrappers
  import opened Text

  /** The styled runs a line renders to (`<strong>`, `<em>` and bare text). */
  datatype Run = Plain(text: string) | Bold(text: string) | Italic(text: string)

  /** No line terminator in `s[a..b]`: the stretch regex `.*` can consume. */
  predicate LineFree(s: string, a: nat, b: nat)
    requires a <= b <= |s|
  {
    forall t :: a <= t < b ==> !IsLineTerminator(s[t])
  }

  /** A `**` starts at index `k`. */
  predicate BoldMarkAt(s: string, k: nat) {
    k + 1 < |s| && s[k] == '*' && s[k + 1] == '*'
  }

  /**
   * The lazy tail `.*?\*\*` of the bold alternative, tried from index `j`: the end of
   * the first `**` reachable from `j` without crossing a line terminator.
   */
  function BoldCloseFrom(s: string, j: nat): (r: Option<nat>)
    requires j <= |s|
    ensures r.Some? ==> j + 2 <= r.value <= |s| && BoldMarkAt(s, r.value - 2)
    ensures r.Some? ==> LineFree(s, j, r.value - 2)
    ensures r.Some? ==> forall k :: j <= k < r.value - 2 ==> !BoldMarkAt(s, k)
    ensures r.None? ==> forall k :: j <= k && BoldMarkAt(s, k) ==> !LineFree(s, j, k)
    decreases |s| - j
  {
    if BoldMarkAt(s, j) then Some(j + 2)
    else if j < |s| && !IsLineTerminator(s[j]) then BoldCloseFrom(s, j + 1)
    else None
  }

  /**
   * The lazy tail `.*?\*` of the italic alternative, tried from index `j`: the end of
   * the first `*` reachable from `j` without crossing a line terminator.
   */
  function ItalicCloseFrom(s: string, j: nat): (r: Option<nat>)
    requires j <= |s|
    ensures r.Some? ==> j + 1 <= r.value <= |s| && s[r.value - 1] == '*'
    ensures r.Some? ==> LineFree(s, j, r.value - 1)
    ensures r.Some? ==> forall k :: j <= k < r.value - 1 ==> s[k] != '*'
    ensures r.None? ==> forall k :: j <= k < |s| && s[k] == '*' ==> !LineFree(s, j, k)
    decreases |s| - j
  {
    if j < |s| && s[j] == '*' then Some(j + 1)
    else if j < |s| && !IsLineTerminator(s[j]) then ItalicCloseFrom(s, j + 1)
    else None
  }

  /** The end of the regex match that starts exactly at index `q`, if one does. */
  function MatchAt(s: string, q: nat): (r: Option<nat>)
    requires q <= |s|
    ensures r.Some? ==> q + 2 <= r.value <= |s| && s[q] == '*' && s[r.value - 1] == '*'
    ensures q < |s| && s[q] != '*' ==> r.None?
    ensures r.None? <==> !(q < |s| && s[q] == '*' && ItalicCloseFrom(s, q + 1).Some?)
    ensures BoldMarkAt(s, q) && BoldCloseFrom(s, q + 2).Some? ==> r == BoldCloseFrom(s, q + 2)
    ensures !(BoldMarkAt(s, q) && BoldCloseFrom(s, q + 2).Some?) && q < |s| && s[q] == '*' ==>
      r == ItalicCloseFrom(s, q + 1)
  {
    if BoldMarkAt(s, q) && BoldCloseFrom(s, q + 2).Some? then BoldCloseFrom(s, q + 2)
    else if q < |s| && s[q] == '*' then ItalicCloseFrom(s, q + 1)
    else None
  }

  /** `[t].filter(Boolean)` for one string. */
  function NonEmpty(t: string): seq<string>
  {
    if t == [] then [] else [t]
  }

  /**
   * `s.split(regex)` followed by `filter(Boolean)`, from the piece of plain text that
   * began at `p`, scanning for a match at `q`: each match is a part of its own, and the
   * text between matches is kept when it is not empty.
   */
  function PartsFrom(s: string, p: nat, q: nat): (r: seq<string>)
    requires p <= q <= |s|
    ensures Concat(r) == s[p..]
    ensures forall i :: 0 <= i < |r| ==> r[i] != []
    decreases |s| - q
  {
    if q == |s| then NonEmpty(s[p..])
    else
      match MatchAt(s, q)
      case Some(e) =>
        var rest := PartsFrom(s, e, e);
        SplitAtMatch(s, p, q, e, rest);
        NonEmpty(s[p..q]) + ([s[q..e]] + rest)
      case None => PartsFrom(s, p, q + 1)
  }

  /** Cutting `s[p..]` at a match `s[q..e]` keeps the concatenation and the non-emptiness of the parts. */
  lemma SplitAtMatch(s: string, p: nat, q: nat, e: nat, rest: seq<string>)
    requires p <= q < e <= |s|
    requires Concat(rest) == s[e..]
    requires forall i :: 0 <= i < |rest| ==> rest[i] != []
    ensures Concat(NonEmpty(s[p..q]) + ([s[q..e]] + rest)) == s[p..]
    ensures forall i :: 0 <= i < |NonEmpty(s[p..q]) + ([s[q..e]] + rest)| ==>
      (NonEmpty(s[p..q]) + ([s[q..e]] + rest))[i] != []
  {
    var tail := [s[q..e]] + rest;
    assert tail[1..] == rest;
    assert Concat(tail) == s[q..e] + s[e..];
    ConcatAppend(NonEmpty(s[p..q]), tail);
    assert Concat(NonEmpty(s[p..q])) == s[p..q];
    assert s[p..] == s[p..q] + (s[q..e] + s[e..]);
  }

  /** The non-empty parts of a line, in order: they partition the line. */
  function Parts(s: string): (parts: seq<string>)
    ensures Concat(parts) == s
    ensures forall i :: 0 <= i < |parts| ==> parts[i] != []
  {
    assert s[0..] == s;
    PartsFrom(s, 0, 0)
  }

  /** The match that starts at each index of `s`, if any, and at its end. */
  function MatchTable(s: string): (ms: seq<Option<nat>>)
    ensures |ms| == |s| + 1
    ensures forall k :: 0 <= k <= |s| ==> ms[k] == MatchAt(s, k)
  {
    seq(|s| + 1, k requires 0 <= k <= |s| => MatchAt(s, k))
  }

  /**
   * `parts` is how `split` and `filter(Boolean)` cut `s[p..]`, given the table `ms` of
   * matches: the parts tile it in order, and each is either the match that starts where
   * it starts, or a maximal stretch in which no match starts, ended by the end of the
   * text or by a match.
   */
  predicate TokensFrom(s: string, ms: seq<Option<nat>>, p: nat, parts: seq<string>)
    requires |ms| == |s| + 1 && p <= |s|
    decreases |parts|
  {
    if parts == [] then p == |s|
    else
      var e := p + |parts[0]|;
      parts[0] != [] && e <= |s| && s[p..e] == parts[0] &&
      (ms[p] == Some(e) ||
       ((forall k :: p <= k < e ==> ms[k].None?) && (e == |s| || ms[e].Some?))) &&
      TokensFrom(s, ms, e, parts[1..])
  }

  /** A match, then parts that cut the rest. */
  lemma TokensMatch(s: string, ms: seq<Option<nat>>, q: nat, e: nat, rest: seq<string>)
    requires |ms| == |s| + 1 && q < e <= |s| && ms[q] == Some(e) && TokensFrom(s, ms, e, rest)
    ensures TokensFrom(s, ms, q, [s[q..e]] + rest)
  {
    var parts := [s[q..e]] + rest;
    assert parts[0] == s[q..e] && parts[1..] == rest;
  }

  /** A stretch in which no match starts, ended by the end of the text or a match, then parts that cut the rest. */
  lemma TokensStretch(s: string, ms: seq<Option<nat>>, p: nat, q: nat, rest: seq<string>)
    requires |ms| == |s| + 1 && p < q <= |s| && forall k :: p <= k < q ==> ms[k].None?
    requires q == |s| || ms[q].Some?
    requires TokensFrom(s, ms, q, rest)
    ensures TokensFrom(s, ms, p, [s[p..q]] + rest)
  {
    var parts := [s[p..q]] + rest;
    assert parts[0] == s[p..q] && parts[1..] == rest;
  }

  /** From a piece of plain text in which no match starts before `q`, the scan cuts as `TokensFrom` says. */
  lemma {:induction false} PartsFromTokens(s: string, p: nat, q: nat)
    requires p <= q <= |s|
    requires forall k :: p <= k < q ==> MatchAt(s, k).None?
    ensures TokensFrom(s, MatchTable(s), p, PartsFrom(s, p, q))
    decreases |s| - q
  {
    if q == |s| {
      TokensAtEnd(s, p);
    } else if MatchAt(s, q).Some? {
      var e := MatchAt(s, q).value;
      PartsFromTokens(s, e, e);
      TokensAtMatch(s, p, q, e);
    } else {
      PartsFromTokens(s, p, q + 1);
      TokensPastNoMatch(s, p, q);
    }
  }

  /** At the end of the text, what is left of the plain text is the last part. */
  lemma TokensAtEnd(s: string, p: nat)
    requires p <= |s|
    requires forall k :: p <= k < |s| ==> MatchAt(s, k).None?
    ensures TokensFrom(s, MatchTable(s), p, PartsFrom(s, p, |s|))
  {
    var ms := MatchTable(s);
    var r := PartsFrom(s, p, |s|);
    if p < |s| {
      TokensStretch(s, ms, p, |s|, []);
      assert s[p..|s|] == s[p..];
      assert r == [s[p..|s|]] + [];
    } else {
      assert r == [];
    }
  }

  /** A match at `q` ends the plain text before it and is a part of its own. */
  lemma TokensAtMatch(s: string, p: nat, q: nat, e: nat)
    requires p <= q < |s| && MatchAt(s, q) == Some(e)
    requires forall k :: p <= k < q ==> MatchAt(s, k).None?
    requires TokensFrom(s, MatchTable(s), e, PartsFrom(s, e, e))
    ensures TokensFrom(s, MatchTable(s), p, PartsFrom(s, p, q))
  {
    var rest := PartsFrom(s, e, e);
    assert PartsFrom(s, p, q) == NonEmpty(s[p..q]) + ([s[q..e]] + rest);
    TokensCut(s, MatchTable(s), p, q, e, rest);
  }

  /** The cut at a match, stated on a match table alone. */
  lemma TokensCut(s: string, ms: seq<Option<nat>>, p: nat, q: nat, e: nat, rest: seq<string>)
    requires |ms| == |s| + 1 && p <= q < e <= |s| && ms[q] == Some(e)
    requires forall k :: p <= k < q ==> ms[k].None?
    requires TokensFrom(s, ms, e, rest)
    ensures TokensFrom(s, ms, p, NonEmpty(s[p..q]) + ([s[q..e]] + rest))
  {
    var tail := [s[q..e]] + rest;
    TokensMatch(s, ms, q, e, rest);
    if p < q {
      TokensStretch(s, ms, p, q, tail);
      assert NonEmpty(s[p..q]) + tail == [s[p..q]] + tail;
    } else {
      assert NonEmpty(s[p..q]) + tail == tail;
    }
  }

  /** Without a match at `q`, the scan goes on at `q + 1`. */
  lemma TokensPastNoMatch(s: string, p: nat, q: nat)
    requires p <= q < |s| && MatchAt(s, q).None?
    requires TokensFrom(s, MatchTable(s), p, PartsFrom(s, p, q + 1))
    ensures TokensFrom(s, MatchTable(s), p, PartsFrom(s, p, q))
  {
    assert PartsFrom(s, p, q) == PartsFrom(s, p, q + 1);
  }

  /**
   * The parts of a line are the cut `split` makes: each part is the match that starts
   * where it starts, or plain text up to the next match.
   */
  lemma PartsAreTokens(s: string)
    ensures TokensFrom(s, MatchTable(s), 0, Parts(s))
  {
    PartsFromTokens(s, 0, 0);
  }

  /** There is only one such cut, so `TokensFrom` determines the parts. */
  lemma {:induction false} TokensUnique(s: string, ms: seq<Option<nat>>, p: nat, a: seq<string>, b: seq<string>)
    requires |ms| == |s| + 1 && p <= |s| && TokensFrom(s, ms, p, a) && TokensFrom(s, ms, p, b)
    ensures a == b
    decreases |a|
  {
    if a != [] && b != [] {
      var ea, eb := p + |a[0]|, p + |b[0]|;
      assert ea == eb by {
        if ms[p].None? {
          assert ea == |s| || ms[ea].Some?;
          assert eb == |s| || ms[eb].Some?;
        }
      }
      TokensUnique(s, ms, ea, a[1..], b[1..]);
      assert a == [a[0]] + a[1..] && b == [b[0]] + b[1..];
    }
  }

  /** How one part is shown: bold, italic, or the part itself. */
  function Classify(part: string): (r: Run)
    ensures r.Bold? <==> StartsWith(part, "**") && EndsWith(part, "**")
    ensures r.Italic? <==> !r.Bold? && StartsWith(part, "*") && EndsWith(part, "*")
    ensures r.Bold? && |part| >= 4 ==> part == "**" + r.text + "**"
    ensures r.Italic? && |part| >= 2 ==> part == "*" + r.text + "*"
    ensures r.Bold? && |part| < 4 ==> r.text == []
    ensures r.Italic? && |part| < 2 ==> r.text == []
    ensures r.Plain? ==> r.text == part
  {
    if StartsWith(part, "**") && EndsWith(part, "**") then Bold(SliceEnds(part, 2))
    else if StartsWith(part, "*") && EndsWith(part, "*") then Italic(SliceEnds(part, 1))
    else Plain(part)
  }

  /** `parts.map(...)`: each part shown in turn. */
  function ClassifyAll(parts: seq<string>): seq<Run>
  {
    if parts == [] then [] else [Classify(parts[0])] + ClassifyAll(parts[1..])
  }

  /**
   * `parseInlineMarkdown`: the runs of one line, one per part. There are no more runs
   * than characters, and a line renders to nothing only when it is empty.
   */
  function ParseInline(s: string): (r: seq<Run>)
    ensures |r| <= |s|
    ensures r == [] <==> s == []
  {
    var parts := Parts(s);
    ClassifyEach(parts);
    ConcatLength(parts);
    ClassifyAll(parts)
  }

  /** There is one run per part, in the order of the parts. */
  lemma {:induction false} ClassifyEach(parts: seq<string>)
    ensures |ClassifyAll(parts)| == |parts|
    ensures forall i :: 0 <= i < |parts| ==> ClassifyAll(parts)[i] == Classify(parts[i])
  {
    if parts != [] {
      ClassifyEach(parts[1..]);
      var r := ClassifyAll(parts);
      forall i | 1 <= i < |parts|
        ensures r[i] == Classify(parts[i])
      {
        assert r[i] == ClassifyAll(parts[1..])[i - 1];
      }
    }
  }

  /** Without a `*`, nothing matches: from `p` on, the rest of the line is one part. */
  lemma {:induction false} PartsFromNoStar(s: string, p: nat, q: nat)
    requires p <= q <= |s|
    requires forall k :: q <= k < |s| ==> s[k] != '*'
    ensures PartsFrom(s, p, q) == NonEmpty(s[p..])
    decreases |s| - q
  {
    if q < |s| {
      PartsFromNoStar(s, p, q + 1);
    }
  }

  /** A line without any `*` is a single plain run equal to the line (none when it is empty). */
  lemma NoStarIsPlain(s: string)
    requires '*' !in s
    ensures ParseInline(s) == if s == [] then [] else [Plain(s)]
  {
    PartsFromNoStar(s, 0, 0);
    assert s[0..] == s;
    if s != [] {
      ClassifyOne(s);
    }
  }

  /** A line that is one part is one run. */
  lemma ClassifyOne(part: string)
    ensures ClassifyAll([part]) == [Classify(part)]
  {
    assert [part][1..] == [];
  }

  /** `**t**`, with no `*` and no line break in `t`, is one bold run of `t`. */
  lemma BoldLine(t: string)
    requires '*' !in t
    requires forall k :: 0 <= k < |t| ==> !IsLineTerminator(t[k])
    ensures ParseInline("**" + t + "**") == [Bold(t)]
  {
    var s := "**" + t + "**";
    BoldParts(t);
    ClassifyOne(s);
    assert s[2..|s| - 2] == t;
  }

  /** `**t**`, with no `*` and no line break in `t`, is one match, and so one part. */
  lemma BoldParts(t: string)
    requires '*' !in t
    requires forall k :: 0 <= k < |t| ==> !IsLineTerminator(t[k])
    ensures Parts("**" + t + "**") == ["**" + t + "**"]
  {
    var s := "**" + t + "**";
    var n := |s|;
    assert BoldMarkAt(s, n - 2);
    forall k | 2 <= k < n - 2
      ensures !BoldMarkAt(s, k)
    {
      assert s[k] == t[k - 2];
    }
    assert LineFree(s, 2, n - 2) by {
      forall k | 2 <= k < n - 2
        ensures !IsLineTerminator(s[k])
      {
        assert s[k] == t[k - 2];
      }
    }
    assert BoldCloseFrom(s, 2) == Some(n);
    assert MatchAt(s, 0) == Some(n);
    assert s[0..0] == [] && s[0..n] == s;
    assert PartsFrom(s, n, n) == [];
  }

  /** `*t*`, with `t` not empty and free of `*` and line breaks, is one italic run of `t`. */
  lemma ItalicLine(t: string)
    requires t != [] && '*' !in t
    requires forall k :: 0 <= k < |t| ==> !IsLineTerminator(t[k])
    ensures ParseInline("*" + t + "*") == [Italic(t)]
  {
    var s := "*" + t + "*";
    var n := |s|;
    ItalicParts(t);
    ClassifyOne(s);
    assert s[1..n - 1] == t;
    assert !EndsWith(s, "**") by {
      assert s[n - 2] == t[|t| - 1];
    }
  }

  /** `*t*`, with `t` not empty and free of `*` and line breaks, is one match, and so one part. */
  lemma ItalicParts(t: string)
    requires t != [] && '*' !in t
    requires forall k :: 0 <= k < |t| ==> !IsLineTerminator(t[k])
    ensures Parts("*" + t + "*") == ["*" + t + "*"]
  {
    var s := "*" + t + "*";
    var n := |s|;
    assert s[1] == t[0];
    assert !BoldMarkAt(s, 0);
    forall k | 1 <= k < n - 1
      ensures s[k] != '*'
    {
      assert s[k] == t[k - 1];
    }
    assert LineFree(s, 1, n - 1) by {
      forall k | 1 <= k < n - 1
        ensures !IsLineTerminator(s[k])
      {
        assert s[k] == t[k - 1];
      }
    }
    assert ItalicCloseFrom(s, 1) == Some(n);
    assert MatchAt(s, 0) == Some(n);
    assert s[0..0] == [] && s[0..n] == s;
    assert PartsFrom(s, n, n) == [];
  }
}
