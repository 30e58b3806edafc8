/**
 * The scene headers of a story and the blocks `split` cuts the story into: a cut just
 * before every header `**المشهد N:Title**` that starts strictly inside the text.
 */
module Headers {
  import opened Text
  import opened Seqs

  /** The literal start of a scene header: bold mark, "المشهد" ("the scene") and a space. */
  const HeaderMarker: string := "**المشهد "

  /** `\d` without the `u` flag: the ASCII digits only. */
  predicate IsAsciiDigit(c: char) {
    '0' <= c <= '9'
  }

  /** The end of the run of ASCII digits that starts at `i`. */
  function DigitsEnd(s: string, i: nat): (j: nat)
    requires i <= |s|
    ensures i <= j <= |s|
    ensures forall k :: i <= k < j ==> IsAsciiDigit(s[k])
    ensures j < |s| ==> !IsAsciiDigit(s[j])
    decreases |s| - i
  {
    if i < |s| && IsAsciiDigit(s[i]) then DigitsEnd(s, i + 1) else i
  }

  /** The index of the first `*` at or after `i`, or `|s|` when there is none. */
  function StarFrom(s: string, i: nat): (j: nat)
    requires i <= |s|
    ensures i <= j <= |s|
    ensures forall k :: i <= k < j ==> s[k] != '*'
    ensures j < |s| ==> s[j] == '*'
    decreases |s| - i
  {
    if i < |s| && s[i] != '*' then StarFrom(s, i + 1) else i
  }

  /**
   * The lookahead `(?=\*\*المشهد \d+:[^\*]+\*\*)` succeeds at index `q`: the marker,
   * one or more ASCII digits, a colon, one or more characters other than `*` (line
   * breaks included), and a closing `**`. The greedy runs cannot give back a colon or
   * a `*`, so the maximal runs decide the match.
   */
  predicate HeaderAt(s: string, q: nat)
  {
    q <= |s| && StartsWith(s[q..], HeaderMarker) &&
    var d := q + |HeaderMarker|;
    var e := DigitsEnd(s, d);
    e > d && e < |s| && s[e] == ':' &&
    var m := StarFrom(s, e + 1);
    m > e + 1 && m + 1 < |s| && s[m + 1] == '*'
  }

  /**
   * A header `**المشهد N:Title**`, with `N` a non-empty run of ASCII digits and a
   * non-empty title free of `*`, is recognised where it starts, whatever surrounds it.
   */
  lemma HeaderRecognised(pre: string, digits: string, title: string, post: string)
    requires digits != [] && forall k :: 0 <= k < |digits| ==> IsAsciiDigit(digits[k])
    requires title != [] && '*' !in title
    ensures HeaderAt(pre + HeaderMarker + digits + ":" + title + "**" + post, |pre|)
  {
    var s := pre + HeaderMarker + digits + ":" + title + "**" + post;
    var q := |pre|;
    var d := q + |HeaderMarker|;
    var e := d + |digits|;
    var m := e + 1 + |title|;
    assert s[q..][..|HeaderMarker|] == HeaderMarker;
    assert forall k :: d <= k < e ==> s[k] == digits[k - d];
    assert s[e] == ':';
    assert DigitsEnd(s, d) == e;
    assert forall k :: e + 1 <= k < m ==> s[k] == title[k - e - 1];
    assert s[m] == '*' && s[m + 1] == '*';
    assert StarFrom(s, e + 1) == m;
  }

  /**
   * The lookahead succeeds only where a header `**المشهد N:Title**` starts, with `N` a
   * non-empty run of ASCII digits and a non-empty title free of `*`.
   */
  lemma HeaderAtShape(s: string, q: nat)
    requires HeaderAt(s, q)
    ensures exists digits: string, title: string, post: string ::
      digits != [] && (forall k :: 0 <= k < |digits| ==> IsAsciiDigit(digits[k])) &&
      title != [] && '*' !in title &&
      s[q..] == HeaderMarker + digits + ":" + title + "**" + post
  {
    var d := q + |HeaderMarker|;
    var e := DigitsEnd(s, d);
    var m := StarFrom(s, e + 1);
    var digits, title, post := s[d..e], s[e + 1..m], s[m + 2..];
    assert forall k :: 0 <= k < |digits| ==> digits[k] == s[d + k];
    assert forall k :: 0 <= k < |title| ==> title[k] == s[e + 1 + k];
    assert '*' !in title;
    assert s[q..d] == HeaderMarker by {
      assert s[q..][..|HeaderMarker|] == s[q..d];
    }
    HeaderSlices(s, q, d, e, m);
  }

  /** The marker, the digits, the colon, the title, the closing `**` and the rest, as slices. */
  lemma HeaderSlices(s: string, q: nat, d: nat, e: nat, m: nat)
    requires q <= d <= e < m && m + 2 <= |s|
    requires s[q..d] == HeaderMarker && s[e] == ':' && s[m] == '*' && s[m + 1] == '*'
    ensures s[q..] == HeaderMarker + s[d..e] + ":" + s[e + 1..m] + "**" + s[m + 2..]
  {
    SliceSplit(s, q, d, e, e + 1, m);
    assert s[e..e + 1] == ":";
    assert s[m..] == "**" + s[m + 2..];
  }

  predicate Increasing(cuts: seq<nat>) {
    forall i, j :: 0 <= i < j < |cuts| ==> cuts[i] < cuts[j]
  }

  /** For each index of `s`, whether a scene header starts there. */
  function HeaderMarks(s: string): (marks: seq<bool>)
    ensures |marks| == |s|
    ensures forall k :: 0 <= k < |s| ==> marks[k] == HeaderAt(s, k)
  {
    seq(|s|, k requires 0 <= k < |s| => HeaderAt(s, k))
  }

  /** The marked indices from `q` on, in increasing order. */
  function CutsFrom(marks: seq<bool>, q: nat): (cuts: seq<nat>)
    ensures Increasing(cuts)
    ensures forall k :: 0 <= k < |cuts| ==> q <= cuts[k] < |marks| && marks[cuts[k]]
    ensures forall k :: q <= k < |marks| && marks[k] ==> k in cuts
    decreases |marks| - q
  {
    if q >= |marks| then []
    else if marks[q] then [q] + CutsFrom(marks, q + 1)
    else CutsFrom(marks, q + 1)
  }

  /**
   * Where `split` cuts: before each header that starts strictly inside the text. A
   * zero-width match at the start of the text, or at its end, makes no cut.
   */
  function HeaderCuts(s: string): (cuts: seq<nat>)
    ensures Increasing(cuts)
    ensures forall k :: 0 <= k < |cuts| ==> 0 < cuts[k] < |s| && HeaderAt(s, cuts[k])
    ensures forall k :: 0 < k < |s| && HeaderAt(s, k) ==> k in cuts
  {
    CutsFrom(HeaderMarks(s), 1)
  }

  /**
   * The text from `p`, cut at each of `cuts`: the first piece runs from `p` to the first
   * cut, each later piece from one cut to the next, and the last to the end.
   */
  function Pieces(s: string, p: nat, cuts: seq<nat>): (r: seq<string>)
    requires p <= |s|
    requires forall k :: 0 <= k < |cuts| ==> p < cuts[k] <= |s|
    requires Increasing(cuts)
    ensures |r| == |cuts| + 1
    ensures Concat(r) == s[p..]
    ensures r[0] == s[p..if cuts == [] then |s| else cuts[0]]
    ensures forall i :: 0 < i < |r| ==> r[i] == s[cuts[i - 1]..if i < |cuts| then cuts[i] else |s|]
    decreases |cuts|
  {
    if cuts == [] then [s[p..]]
    else
      var rest := Pieces(s, cuts[0], cuts[1..]);
      assert s[p..] == s[p..cuts[0]] + s[cuts[0]..];
      [s[p..cuts[0]]] + rest
  }

  /** `text.split(/(?=\*\*المشهد \d+:[^\*]+\*\*)/g)`: the blocks, which concatenate back to the text. */
  function SplitAtHeaders(s: string): (blocks: seq<string>)
    ensures |blocks| == |HeaderCuts(s)| + 1
    ensures Concat(blocks) == s
  {
    assert s[0..] == s;
    Pieces(s, 0, HeaderCuts(s))
  }

  /** `block.trim()` is truthy: the block is not blank. */
  predicate Visible(block: string) {
    Trim(block) != []
  }

  /** `filter(block => block.trim())`: the blocks that are not blank, in order. */
  function NonBlank(blocks: seq<string>): (r: seq<string>)
    ensures |r| <= |blocks|
    ensures forall i :: 0 <= i < |r| ==> !AllSpace(r[i])
  {
    var r := Filter(Visible, blocks);
    assert forall i :: 0 <= i < |r| ==> Visible(r[i]);
    r
  }

  /** Filtering two lists of blocks one after the other is filtering each: the filter keeps order. */
  lemma NonBlankAppend(a: seq<string>, b: seq<string>)
    ensures NonBlank(a + b) == NonBlank(a) + NonBlank(b)
  {
    FilterAppend(Visible, a, b);
  }

  /** One block is kept exactly when it is not whitespace only. */
  lemma NonBlankOne(block: string)
    ensures NonBlank([block]) == if AllSpace(block) then [] else [block]
  {
    assert [block][1..] == [];
  }

  /** Every piece of a whitespace-only concatenation is whitespace only. */
  lemma {:induction false} BlankPieces(parts: seq<string>)
    requires AllSpace(Concat(parts))
    ensures forall i :: 0 <= i < |parts| ==> AllSpace(parts[i])
  {
    if parts != [] {
      var c := Concat(parts);
      assert c == parts[0] + Concat(parts[1..]);
      assert AllSpace(parts[0]) by {
        forall k | 0 <= k < |parts[0]| ensures IsSpace(parts[0][k]) {
          assert parts[0][k] == c[k];
        }
      }
      assert AllSpace(Concat(parts[1..])) by {
        forall k | 0 <= k < |Concat(parts[1..])| ensures IsSpace(Concat(parts[1..])[k]) {
          assert Concat(parts[1..])[k] == c[|parts[0]| + k];
        }
      }
      BlankPieces(parts[1..]);
      forall i | 1 <= i < |parts| ensures AllSpace(parts[i]) {
        assert parts[i] == parts[1..][i - 1];
      }
    }
  }

  /** Dropping blank blocks from blank blocks leaves nothing. */
  lemma NonBlankOfBlank(blocks: seq<string>)
    requires forall i :: 0 <= i < |blocks| ==> AllSpace(blocks[i])
    ensures NonBlank(blocks) == []
  {
    FilterNone(Visible, blocks);
  }

  /** Text in which no header starts past its first character is a single block. */
  lemma NoHeaderOneBlock(text: string)
    requires forall k :: 0 < k < |text| ==> !HeaderAt(text, k)
    ensures SplitAtHeaders(text) == [text]
  {
    var cuts := HeaderCuts(text);
    assert |cuts| > 0 ==> HeaderAt(text, cuts[0]);
    assert text[0..] == text;
  }
}
