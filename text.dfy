/**
 * The handful of JavaScript string primitives the story display relies on:
 * `String.prototype.trim`, `split` on a single character, `Array.prototype.join`,
 * `startsWith`/`endsWith`, `slice` with a negative end, and
 * the global replacement of `**` by the empty string. Strings are sequences of characters.
 */
module Text {

  /** The ECMAScript LineTerminator characters: the ones regex `.` does not match. */
  predicate IsLineTerminator(c: char) {
    c == '\n' || c == '\r' || c == '\U{2028}' || c == '\U{2029}'
  }

  /** ECMAScript WhiteSpace or LineTerminator: what `trim()` strips. */
  predicate IsSpace(c: char) {
    IsLineTerminator(c) || c == '\t' || c == '\U{000B}' || c == '\U{000C}' || c == ' ' ||
    c == '\U{00A0}' || c == '\U{1680}' || ('\U{2000}' <= c <= '\U{200A}') ||
    c == '\U{202F}' || c == '\U{205F}' || c == '\U{3000}' || c == '\U{FEFF}'
  }

  predicate AllSpace(s: string) {
    forall i :: 0 <= i < |s| ==> IsSpace(s[i])
  }

  /** Neither end of `s` is whitespace. */
  predicate IsTrimmed(s: string) {
    s == [] || (!IsSpace(s[0]) && !IsSpace(s[|s| - 1]))
  }

  /** Drops leading whitespace: the result is a suffix, and what was dropped is all whitespace. */
  function TrimStart(s: string): (r: string)
    ensures |r| <= |s| && r == s[|s| - |r|..]
    ensures AllSpace(s[..|s| - |r|])
    ensures r == [] || !IsSpace(r[0])
  {
    if |s| > 0 && IsSpace(s[0]) then
      var r := TrimStart(s[1..]);
      TrimStartStep(s, r);
      r
    else s
  }

  /** A leading whitespace character joins what `TrimStart` drops from the rest. */
  lemma TrimStartStep(s: string, r: string)
    requires |s| > 0 && IsSpace(s[0])
    requires |r| <= |s| - 1 && r == s[1..][|s| - 1 - |r|..]
    requires AllSpace(s[1..][..|s| - 1 - |r|])
    ensures r == s[|s| - |r|..]
    ensures AllSpace(s[..|s| - |r|])
  {
    var n := |s| - |r|;
    assert s[1..][n - 1..] == s[n..];
    forall k | 0 <= k < n
      ensures IsSpace(s[..n][k])
    {
      if k > 0 {
        assert s[..n][k] == s[1..][..n - 1][k - 1];
      }
    }
  }

  /** Drops trailing whitespace: the result is a prefix, and what was dropped is all whitespace. */
  function TrimEnd(s: string): (r: string)
    ensures |r| <= |s| && r == s[..|r|]
    ensures AllSpace(s[|r|..])
    ensures r == [] || !IsSpace(r[|r| - 1])
  {
    if |s| > 0 && IsSpace(s[|s| - 1]) then
      var r := TrimEnd(s[..|s| - 1]);
      TrimEndStep(s, r);
      r
    else s
  }

  /** A trailing whitespace character joins what `TrimEnd` drops from the rest. */
  lemma TrimEndStep(s: string, r: string)
    requires |s| > 0 && IsSpace(s[|s| - 1])
    requires |r| <= |s| - 1 && r == s[..|s| - 1][..|r|]
    requires AllSpace(s[..|s| - 1][|r|..])
    ensures r == s[..|r|]
    ensures AllSpace(s[|r|..])
  {
    var n := |r|;
    assert s[..|s| - 1][..n] == s[..n];
    forall k | n <= k < |s|
      ensures IsSpace(s[k])
    {
      if k < |s| - 1 {
        assert s[k] == s[..|s| - 1][n..][k - n];
      }
    }
  }

  /** `s.trim()`: the result has no whitespace at either end, and is empty exactly when `s` is blank. */
  function Trim(s: string): (r: string)
    ensures IsTrimmed(r)
    ensures r == [] <==> AllSpace(s)
  {
    var t := TrimStart(s);
    assert t == [] ==> s[..|s|] == s;
    TrimEnd(t)
  }

  /** Trimming a string that is already trimmed changes nothing. */
  lemma TrimTrimmed(s: string)
    requires IsTrimmed(s)
    ensures Trim(s) == s
  {
    assert TrimStart(s) == s;
    assert TrimEnd(s) == s;
  }

  /** `trim()` is idempotent. */
  lemma TrimIdempotent(s: string)
    ensures Trim(Trim(s)) == Trim(s)
  {
    TrimTrimmed(Trim(s));
  }

  /** `trim()` keeps a middle stretch of the text: only whitespace is dropped, at either end. */
  lemma TrimKeepsMiddle(s: string)
    ensures exists i :: (0 <= i <= |s| - |Trim(s)| && Trim(s) == s[i..i + |Trim(s)|] &&
      AllSpace(s[..i]) && AllSpace(s[i + |Trim(s)|..]))
  {
    var i, n := TrimBounds(s);
    assert 0 <= i <= |s| - |Trim(s)| && Trim(s) == s[i..i + |Trim(s)|] &&
      AllSpace(s[..i]) && AllSpace(s[i + |Trim(s)|..]);
  }

  /** Where the stretch `Trim` keeps starts and ends. */
  lemma TrimBounds(s: string) returns (i: nat, n: nat)
    ensures n == |Trim(s)| && i + n <= |s| && Trim(s) == s[i..i + n]
    ensures AllSpace(s[..i]) && AllSpace(s[i + n..])
  {
    var t := TrimStart(s);
    var r := Trim(s);
    i, n := |s| - |t|, |r|;
    assert r == TrimEnd(t);
    SliceOfSuffix(s, t, i, n);
  }

  /** A slice of a suffix is a slice of the whole. */
  lemma SliceOfSuffix<T>(s: seq<T>, t: seq<T>, i: nat, n: nat)
    requires i <= |s| && t == s[i..] && n <= |t|
    ensures t[..n] == s[i..i + n] && t[n..] == s[i + n..]
  {
  }

  predicate StartsWith(s: string, prefix: string) {
    |prefix| <= |s| && s[..|prefix|] == prefix
  }

  predicate EndsWith(s: string, suffix: string) {
    |suffix| <= |s| && s[|s| - |suffix|..] == suffix
  }

  /** `s.slice(k, -k)`: `k` characters off each end, or the empty string when they overlap. */
  function SliceEnds(s: string, k: nat): (r: string)
    requires k >= 1
    ensures |s| >= 2 * k ==> s == s[..k] + r + s[|s| - k..]
    ensures |s| < 2 * k ==> r == []
  {
    if |s| >= 2 * k then s[k..|s| - k] else []
  }

  /** `parts.join([sep])` */
  function Join(parts: seq<string>, sep: char): string
  {
    if |parts| == 0 then ""
    else if |parts| == 1 then parts[0]
    else parts[0] + [sep] + Join(parts[1..], sep)
  }

  /** `s.split(sep)` for a one-character separator: never empty, and no piece holds the separator. */
  function Split(s: string, sep: char): (r: seq<string>)
    ensures |r| >= 1
    ensures forall i :: 0 <= i < |r| ==> sep !in r[i]
  {
    if |s| == 0 then [""]
    else
      var rest := Split(s[1..], sep);
      if s[0] == sep then [""] + rest
      else [[s[0]] + rest[0]] + rest[1..]
  }

  /** Two whitespace-only texts, one after the other, are whitespace only. */
  lemma AllSpaceAppend(a: string, b: string)
    requires AllSpace(a) && AllSpace(b)
    ensures AllSpace(a + b)
  {
    forall k | 0 <= k < |a + b|
      ensures IsSpace((a + b)[k])
    {
      if k >= |a| {
        assert (a + b)[k] == b[k - |a|];
      }
    }
  }

  /** Joining whitespace-only pieces with a whitespace separator gives whitespace only. */
  lemma {:induction false} JoinAllSpace(parts: seq<string>, sep: char)
    requires IsSpace(sep)
    requires forall i :: 0 <= i < |parts| ==> AllSpace(parts[i])
    ensures AllSpace(Join(parts, sep))
  {
    if |parts| > 1 {
      JoinAllSpace(parts[1..], sep);
      AllSpaceAppend(parts[0], [sep]);
      AllSpaceAppend(parts[0] + [sep], Join(parts[1..], sep));
    }
  }

  /** Joining the pieces of a split gives the string back. */
  lemma {:induction false} JoinSplit(s: string, sep: char)
    ensures Join(Split(s, sep), sep) == s
  {
    if |s| > 0 {
      var rest := Split(s[1..], sep);
      JoinSplit(s[1..], sep);
      if s[0] == sep {
        assert ([""] + rest)[1..] == rest;
      } else {
        var r := [[s[0]] + rest[0]] + rest[1..];
        if |rest| > 1 {
          assert r[1..] == rest[1..];
        }
      }
    }
  }

  /** Splitting a separator-free prefix followed by the separator peels off that prefix. */
  lemma {:induction false} SplitAfterPiece(x: string, sep: char, y: string)
    requires sep !in x
    ensures Split(x + [sep] + y, sep) == [x] + Split(y, sep)
  {
    if |x| == 0 {
      assert (x + [sep] + y)[1..] == y;
    } else {
      assert (x + [sep] + y)[1..] == x[1..] + [sep] + y;
      SplitAfterPiece(x[1..], sep, y);
      assert [x[0]] + x[1..] == x;
    }
  }

  /** A separator-free string splits into itself alone. */
  lemma {:induction false} SplitNoSeparator(x: string, sep: char)
    requires sep !in x
    ensures Split(x, sep) == [x]
  {
    if |x| > 0 {
      SplitNoSeparator(x[1..], sep);
      assert [x[0]] + x[1..] == x;
    }
  }

  /** Splitting the join of separator-free pieces gives the pieces back. */
  lemma {:induction false} SplitJoin(parts: seq<string>, sep: char)
    requires |parts| >= 1
    requires forall i :: 0 <= i < |parts| ==> sep !in parts[i]
    ensures Split(Join(parts, sep), sep) == parts
  {
    if |parts| == 1 {
      SplitNoSeparator(parts[0], sep);
    } else {
      SplitJoin(parts[1..], sep);
      SplitAfterPiece(parts[0], sep, Join(parts[1..], sep));
    }
  }

  /**
   * The first piece of a split is everything before the first separator, and the
   * other pieces joined back are everything after it (nothing when there is no separator).
   */
  lemma SplitHeadTail(s: string, sep: char)
    ensures var lines := Split(s, sep);
      (sep !in s && lines == [s]) ||
      (sep in s && |lines| > 1 && s == lines[0] + [sep] + Join(lines[1..], sep))
  {
    var lines := Split(s, sep);
    JoinSplit(s, sep);
    if |lines| == 1 {
      assert s == lines[0];
    } else {
      assert s == lines[0] + [sep] + Join(lines[1..], sep);
      assert s[|lines[0]|] == sep;
    }
  }

  /** Every piece of a whitespace-only string is whitespace only. */
  lemma {:induction false} SplitAllSpace(s: string, sep: char)
    requires AllSpace(s)
    ensures forall i :: 0 <= i < |Split(s, sep)| ==> AllSpace(Split(s, sep)[i])
  {
    if |s| > 0 {
      assert AllSpace(s[1..]) by {
        forall k | 0 <= k < |s| - 1
          ensures IsSpace(s[1..][k])
        {
          assert s[1..][k] == s[k + 1];
        }
      }
      SplitAllSpace(s[1..], sep);
      var rest := Split(s[1..], sep);
      var r := Split(s, sep);
      if s[0] != sep {
        var first := [s[0]] + rest[0];
        assert AllSpace(first) by {
          forall k | 1 <= k < |first|
            ensures IsSpace(first[k])
          {
            assert first[k] == rest[0][k - 1];
          }
        }
        forall i | 1 <= i < |r|
          ensures AllSpace(r[i])
        {
          assert r[i] == rest[i];
        }
      } else {
        forall i | 1 <= i < |r|
          ensures AllSpace(r[i])
        {
          assert r[i] == rest[i - 1];
        }
      }
    }
  }

  /** A string that does not start with the separator starts its first piece. */
  lemma SplitFirst(s: string, sep: char)
    requires s != [] && s[0] != sep
    ensures Split(s, sep)[0] != [] && Split(s, sep)[0][0] == s[0]
  {
  }

  /** Some `**` occurs in `s`. */
  predicate HasBoldMark(s: string) {
    exists i :: 0 <= i < |s| - 1 && s[i] == '*' && s[i + 1] == '*'
  }

  /** A text without `*` holds no `**`. */
  lemma NoStarNoBoldMark(s: string)
    requires '*' !in s
    ensures !HasBoldMark(s)
  {
    forall i | 0 <= i < |s| - 1
      ensures s[i] != '*'
    {
      assert s[i] in s;
    }
  }

  /** The characters of `s` other than `*`, in order. */
  function NonStars(s: string): string
  {
    if |s| == 0 then "" else (if s[0] == '*' then "" else [s[0]]) + NonStars(s[1..])
  }

  /** Replacing every `**` by the empty string: the marks, taken left to right without overlap, are removed. */
  function RemoveBoldMarks(s: string): (r: string)
    ensures !HasBoldMark(r)
    ensures |r| <= |s|
    ensures r != [] && s[0] != '*' ==> r[0] == s[0]
  {
    if |s| >= 2 && s[0] == '*' && s[1] == '*' then RemoveBoldMarks(s[2..])
    else if |s| == 0 then ""
    else
      var tail := RemoveBoldMarks(s[1..]);
      var r := [s[0]] + tail;
      assert !HasBoldMark(r) by {
        if s[0] == '*' && |tail| > 0 {
          assert |s| >= 2 && s[1] != '*';
          assert tail[0] == s[1];
        }
        forall i | 1 <= i < |r| - 1
          ensures !(r[i] == '*' && r[i + 1] == '*')
        {
          assert r[i] == tail[i - 1] && r[i + 1] == tail[i];
        }
      }
      r
  }

  /** Removing the bold marks keeps every other character, in order. */
  lemma {:induction false} RemoveBoldMarksKeepsText(s: string)
    ensures NonStars(RemoveBoldMarks(s)) == NonStars(s)
  {
    if |s| >= 2 && s[0] == '*' && s[1] == '*' {
      RemoveBoldMarksKeepsText(s[2..]);
      assert s[1..][1..] == s[2..];
    } else if |s| > 0 {
      RemoveBoldMarksKeepsText(s[1..]);
      assert ([s[0]] + RemoveBoldMarks(s[1..]))[1..] == RemoveBoldMarks(s[1..]);
    }
  }

  /** A string without `**` is left as it is. */
  lemma {:induction false} RemoveBoldMarksNoop(s: string)
    requires !HasBoldMark(s)
    ensures RemoveBoldMarks(s) == s
  {
    if |s| > 0 {
      assert !HasBoldMark(s[1..]) by {
        forall i | 0 <= i < |s[1..]| - 1
          ensures !(s[1..][i] == '*' && s[1..][i + 1] == '*')
        {
          assert s[1..][i] == s[i + 1] && s[1..][i + 1] == s[i + 2];
        }
      }
      assert !(|s| >= 2 && s[0] == '*' && s[1] == '*');
      RemoveBoldMarksNoop(s[1..]);
    }
  }

  /**
   * The first `**` is removed and the text before it is kept as it is, a lone `*` included:
   * with `RemoveBoldMarksNoop`, this fixes the result for every text.
   */
  lemma {:induction false} RemoveFirstMark(x: string, y: string)
    requires !HasBoldMark(x) && (x == [] || x[|x| - 1] != '*')
    ensures RemoveBoldMarks(x + "**" + y) == x + RemoveBoldMarks(y)
    decreases |x|
  {
    var s := x + "**" + y;
    if x == [] {
      assert s == "**" + y && s[2..] == y;
    } else {
      assert !(|s| >= 2 && s[0] == '*' && s[1] == '*') by {
        if x[0] == '*' {
          assert |x| >= 2 && x[1] != '*';
          assert s[0] == x[0] && s[1] == x[1];
        }
      }
      assert !HasBoldMark(x[1..]) by {
        forall i | 0 <= i < |x[1..]| - 1
          ensures !(x[1..][i] == '*' && x[1..][i + 1] == '*')
        {
          assert x[1..][i] == x[i + 1] && x[1..][i + 1] == x[i + 2];
        }
      }
      assert s[1..] == x[1..] + "**" + y;
      RemoveFirstMark(x[1..], y);
      assert [x[0]] + x[1..] == x;
    }
  }

  /** A star-free text followed by one closing `**` loses only that mark. */
  lemma {:induction false} RemoveClosingMark(t: string)
    requires '*' !in t
    ensures RemoveBoldMarks(t + "**") == t
  {
    if t == [] {
      assert t + "**" == "**";
      assert "**"[2..] == [];
    } else {
      assert (t + "**")[1..] == t[1..] + "**";
      RemoveClosingMark(t[1..]);
      assert [t[0]] + t[1..] == t;
    }
  }

  /** `**t**`, with no `*` in `t`, becomes `t`. */
  lemma RemoveEnclosingMarks(t: string)
    requires '*' !in t
    ensures RemoveBoldMarks("**" + t + "**") == t
  {
    assert ("**" + t + "**")[2..] == t + "**";
    RemoveClosingMark(t);
  }

  /** Removing the bold marks twice is removing them once. */
  lemma RemoveBoldMarksIdempotent(s: string)
    ensures RemoveBoldMarks(RemoveBoldMarks(s)) == RemoveBoldMarks(s)
  {
    RemoveBoldMarksNoop(RemoveBoldMarks(s));
  }

  /** The concatenation of all pieces, in order. */
  function Concat(parts: seq<string>): string
  {
    if |parts| == 0 then "" else parts[0] + Concat(parts[1..])
  }

  /** Non-empty pieces are no more numerous than the characters they concatenate to. */
  lemma {:induction false} ConcatLength(parts: seq<string>)
    requires forall i :: 0 <= i < |parts| ==> parts[i] != []
    ensures |parts| <= |Concat(parts)|
  {
    if parts != [] {
      ConcatLength(parts[1..]);
    }
  }

  /** Concatenation distributes over appending piece lists. */
  lemma {:induction false} ConcatAppend(a: seq<string>, b: seq<string>)
    ensures Concat(a + b) == Concat(a) + Concat(b)
  {
    if |a| > 0 {
      assert (a + b)[1..] == a[1..] + b;
      ConcatAppend(a[1..], b);
    } else {
      assert a + b == b;
    }
  }
}
