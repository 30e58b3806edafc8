/**
 * `parseMarkdownContent`: a single pass over the lines of a text. Each trimmed line is
 * a blockquote (`>`), a list item (`* `), a paragraph, or blank; consecutive list items
 * are buffered and emitted as one list when a line of another kind, or the end of the
 * text, flushes the buffer.
 */
module Markdown {
  import opened Text
  import opened Inline
  import opened Seqs

  /** The block elements: `<p>`, `<blockquote>` and `<ul>` of `<li>` items. */
  datatype Block =
    | Paragraph(runs: seq<Run>)
    | Quote(runs: seq<Run>)
    | List(items: seq<seq<Run>>)

  /** What one line is, once trimmed. */
  datatype LineKind =
    | Blank
    | QuoteLine(runs: seq<Run>)
    | ItemLine(runs: seq<Run>)
    | ParaLine(runs: seq<Run>)

  /**
   * The classification of one line: a quote or an item keeps what follows its first
   * character, trimmed; any other non-blank line is a paragraph of the trimmed line.
   */
  function Kind(line: string): LineKind
  {
    var t := Trim(line);
    if StartsWith(t, ">") then QuoteLine(ParseInline(Trim(t[1..])))
    else if StartsWith(t, "* ") then ItemLine(ParseInline(Trim(t[1..])))
    else if t == [] then Blank
    else ParaLine(ParseInline(t))
  }

  /** A line is blank exactly when it is whitespace only. */
  lemma BlankIffWhitespace(line: string)
    ensures Kind(line).Blank? <==> AllSpace(line)
  {
  }

  /** The kinds of the lines, in order. */
  function Kinds(lines: seq<string>): seq<LineKind>
  {
    MapSeq(Kind, lines)
  }

  /** The number of list items at the start of `ks`. */
  function ItemRunLength(ks: seq<LineKind>): (n: nat)
    ensures n <= |ks|
    ensures forall k :: 0 <= k < n ==> ks[k].ItemLine?
    ensures n < |ks| ==> !ks[n].ItemLine?
  {
    if ks != [] && ks[0].ItemLine? then 1 + ItemRunLength(ks[1..]) else 0
  }

  /** The inline content of a run of list items. */
  function ItemsOf(ks: seq<LineKind>): (items: seq<seq<Run>>)
    requires forall k :: 0 <= k < |ks| ==> ks[k].ItemLine?
  {
    seq(|ks|, k requires 0 <= k < |ks| => ks[k].runs)
  }

  /**
   * The blocks of a sequence of classified lines, stated run by run: blank lines give
   * nothing, quote and paragraph lines give one block each, and a maximal run of
   * list items gives one list of those items.
   */
  function Blocks(ks: seq<LineKind>): seq<Block>
    decreases |ks|
  {
    if ks == [] then []
    else
      match ks[0]
      case Blank => Blocks(ks[1..])
      case QuoteLine(r) => [Quote(r)] + Blocks(ks[1..])
      case ParaLine(r) => [Paragraph(r)] + Blocks(ks[1..])
      case ItemLine(_) =>
        var n := ItemRunLength(ks);
        [List(ItemsOf(ks[..n]))] + Blocks(ks[n..])
  }

  /** What `parseMarkdownContent` returns for `text`. */
  function MarkdownBlocks(text: string): seq<Block>
  {
    Blocks(Kinds(Split(text, '\n')))
  }

  /** The blocks still to come when `items` are buffered and `rest` is unread. */
  function Resume(items: seq<seq<Run>>, rest: seq<LineKind>): seq<Block>
  {
    if items == [] then Blocks(rest)
    else
      var n := ItemRunLength(rest);
      [List(items + ItemsOf(rest[..n]))] + Blocks(rest[n..])
  }

  /** Buffering one more list item does not change what is still to come. */
  lemma ResumeItem(items: seq<seq<Run>>, rest: seq<LineKind>)
    requires rest != [] && rest[0].ItemLine?
    ensures Resume(items, rest) == Resume(items + [rest[0].runs], rest[1..])
  {
    var n := ItemRunLength(rest);
    var tail := rest[1..];
    assert n == 1 + ItemRunLength(tail);
    assert tail[n - 1..] == rest[n..];
    assert ItemsOf(rest[..n]) == [rest[0].runs] + ItemsOf(tail[..n - 1]);
    if items == [] {
      assert Blocks(rest) == [List(ItemsOf(rest[..n]))] + Blocks(rest[n..]);
      assert [] + [rest[0].runs] == [rest[0].runs];
    } else {
      assert items + ItemsOf(rest[..n]) == (items + [rest[0].runs]) + ItemsOf(tail[..n - 1]);
    }
  }

  /** The blocks after a flush: the buffered items become one list, if there are any. */
  function Flushed(elements: seq<Block>, listItems: seq<seq<Run>>): seq<Block>
  {
    if listItems == [] then elements else elements + [List(listItems)]
  }

  /** Before a line that is not a list item, the buffer comes out as one list, if it holds anything. */
  lemma ResumeFlush(items: seq<seq<Run>>, rest: seq<LineKind>)
    requires rest == [] || !rest[0].ItemLine?
    ensures Resume(items, rest) == Flushed([], items) + Blocks(rest)
  {
    if items == [] {
      calc {
        Resume(items, rest);
        Blocks(rest);
        [] + Blocks(rest);
      }
    } else {
      var n := ItemRunLength(rest);
      assert n == 0;
      calc {
        Resume(items, rest);
        [List(items + ItemsOf(rest[..n]))] + Blocks(rest[n..]);
      == { assert |ItemsOf(rest[..n])| == 0; assert rest[n..] == rest; }
        [List(items + [])] + Blocks(rest);
      == { assert items + [] == items; }
        [List(items)] + Blocks(rest);
      }
    }
  }

  /** A first line that is not a list item gives its own block, if any, before the rest. */
  lemma BlocksOfLine(rest: seq<LineKind>)
    requires rest != [] && !rest[0].ItemLine?
    ensures Blocks(rest) == Emitted(rest[0]) + Blocks(rest[1..])
  {
    match rest[0]
    case Blank =>
      assert [] + Blocks(rest[1..]) == Blocks(rest[1..]);
    case QuoteLine(r) =>
    case ParaLine(r) =>
  }

  /** Flushing onto emitted blocks is emitting, then flushing onto nothing. */
  lemma FlushedAfter(elements: seq<Block>, items: seq<seq<Run>>)
    ensures elements + Flushed([], items) == Flushed(elements, items)
  {
    if items == [] {
      assert elements + [] == elements;
    }
  }

  /** A line that is not a list item flushes the buffer and then gives its own block, if any. */
  lemma ResumeLine(elements: seq<Block>, items: seq<seq<Run>>, rest: seq<LineKind>)
    requires rest != [] && !rest[0].ItemLine?
    ensures elements + Resume(items, rest) ==
      Flushed(elements, items) + Emitted(rest[0]) + Resume([], rest[1..])
  {
    var f, e, tail := Flushed([], items), Emitted(rest[0]), Blocks(rest[1..]);
    calc {
      elements + Resume(items, rest);
    == { ResumeFlush(items, rest); }
      elements + (f + Blocks(rest));
    == { BlocksOfLine(rest); }
      elements + (f + (e + tail));
    == { Regroup(elements, f, e, tail); }
      (elements + f) + e + tail;
    == { FlushedAfter(elements, items); }
      Flushed(elements, items) + e + Resume([], rest[1..]);
    }
  }

  /** `flushList`: emit the buffered items as one list, if there are any, and empty the buffer. */
  method FlushList(elements: seq<Block>, listItems: seq<seq<Run>>)
    returns (elements': seq<Block>, listItems': seq<seq<Run>>)
    ensures listItems' == []
    ensures elements' == Flushed(elements, listItems)
  {
    elements' := elements;
    if |listItems| > 0 {
      elements' := elements' + [List(listItems)];
    }
    listItems' := [];
  }

  /** The block a line of another kind than a list item gives on its own. */
  function Emitted(kind: LineKind): seq<Block>
  {
    match kind
    case QuoteLine(r) => [Quote(r)]
    case ParaLine(r) => [Paragraph(r)]
    case _ => []
  }

  /**
   * The body of the line loop: a list item joins the buffer; any other line flushes the
   * buffer and then emits its quote or paragraph, or nothing when it is blank.
   */
  method HandleLine(elements: seq<Block>, listItems: seq<seq<Run>>, line: string)
    returns (elements': seq<Block>, listItems': seq<seq<Run>>)
    ensures Kind(line).ItemLine? ==> elements' == elements && listItems' == listItems + [Kind(line).runs]
    ensures !Kind(line).ItemLine? ==> listItems' == []
    ensures !Kind(line).ItemLine? ==>
      elements' == Flushed(elements, listItems) + Emitted(Kind(line))
  {
    var trimmedLine := Trim(line);
    ghost var kind := Kind(line);
    if StartsWith(trimmedLine, ">") {
      elements', listItems' := FlushList(elements, listItems);
      var content := Trim(trimmedLine[1..]);
      var runs := ParseInline(content);
      assert kind == QuoteLine(runs);
      assert Emitted(kind) == [Quote(runs)];
      elements' := elements' + [Quote(runs)];
    } else if StartsWith(trimmedLine, "* ") {
      var content := Trim(trimmedLine[1..]);
      var runs := ParseInline(content);
      assert kind == ItemLine(runs);
      elements', listItems' := elements, listItems + [runs];
    } else {
      elements', listItems' := FlushList(elements, listItems);
      if |trimmedLine| > 0 {
        var runs := ParseInline(trimmedLine);
        assert kind == ParaLine(runs);
        assert Emitted(kind) == [Paragraph(runs)];
        elements' := elements' + [Paragraph(runs)];
      } else {
        assert kind == Blank;
        assert Emitted(kind) == [];
        assert elements' + [] == elements';
      }
    }
  }

  /**
   * `parseMarkdownContent`: one pass over the lines, with the pending list items as the
   * only state carried from line to line. The buffer is empty after every line that is
   * not a list item, and after the final flush.
   */
  method ParseMarkdownContent(text: string) returns (elements: seq<Block>)
    ensures elements == MarkdownBlocks(text)
    ensures forall i :: 0 <= i < |elements| && elements[i].List? ==> elements[i].items != []
  {
    var lines := Split(text, '\n');
    ghost var ks := Kinds(lines);
    elements := [];
    var listItems: seq<seq<Run>> := [];
    var i := 0;
    while i < |lines|
      invariant 0 <= i <= |lines|
      invariant elements + Resume(listItems, ks[i..]) == Blocks(ks)
      invariant i > 0 && !ks[i - 1].ItemLine? ==> listItems == []
      invariant i == 0 ==> listItems == []
    {
      ghost var rest, before, pending := ks[i..], elements, listItems;
      assert rest[0] == Kind(lines[i]) && rest[1..] == ks[i + 1..];
      elements, listItems := HandleLine(elements, listItems, lines[i]);
      if rest[0].ItemLine? {
        ResumeItem(pending, rest);
      } else {
        ResumeLine(before, pending, rest);
      }
      i := i + 1;
    }
    FlushAtEnd(elements, listItems, ks[i..], Blocks(ks));
    elements, listItems := FlushList(elements, listItems);
    ListsNonEmpty(ks);
  }

  /** At the end of the text, the final flush completes the blocks. */
  lemma FlushAtEnd(elements: seq<Block>, items: seq<seq<Run>>, rest: seq<LineKind>, all: seq<Block>)
    requires |rest| == 0
    requires elements + Resume(items, rest) == all
    ensures Flushed(elements, items) == all
  {
    ResumeFlush(items, rest);
    assert Blocks(rest) == [];
    if items == [] {
      assert elements + [] == elements;
    }
  }

  /** No list is ever emitted empty. */
  lemma {:induction false} ListsNonEmpty(ks: seq<LineKind>)
    ensures forall i :: 0 <= i < |Blocks(ks)| && Blocks(ks)[i].List? ==> Blocks(ks)[i].items != []
    decreases |ks|
  {
    if ks != [] {
      if ks[0].ItemLine? {
        ListsNonEmpty(ks[ItemRunLength(ks)..]);
      } else {
        ListsNonEmpty(ks[1..]);
      }
    }
  }

  /** The line kinds a block stands for: one per quote or paragraph, one per list item. */
  function LinesOf(b: Block): seq<LineKind>
  {
    match b
    case Paragraph(r) => [ParaLine(r)]
    case Quote(r) => [QuoteLine(r)]
    case List(items) => seq(|items|, k requires 0 <= k < |items| => ItemLine(items[k]))
  }

  /** The line kinds all blocks stand for, in order. */
  function Expand(blocks: seq<Block>): seq<LineKind>
  {
    if blocks == [] then [] else LinesOf(blocks[0]) + Expand(blocks[1..])
  }

  /** The non-blank line kinds, in order. */
  function Significant(ks: seq<LineKind>): seq<LineKind>
  {
    if ks == [] then [] else (if ks[0].Blank? then [] else [ks[0]]) + Significant(ks[1..])
  }

  lemma {:induction false} ExpandAppend(a: seq<Block>, b: seq<Block>)
    ensures Expand(a + b) == Expand(a) + Expand(b)
  {
    if a == [] {
      assert a + b == b;
    } else {
      assert (a + b)[1..] == a[1..] + b;
      ExpandAppend(a[1..], b);
    }
  }

  /** Reading a list of items back gives the item lines it was made from. */
  lemma ItemLinesBack(ks: seq<LineKind>)
    requires forall k :: 0 <= k < |ks| ==> ks[k].ItemLine?
    ensures LinesOf(List(ItemsOf(ks))) == ks
  {
  }

  /** A run of list items is kept whole by `Significant`. */
  lemma {:induction false} SignificantItems(ks: seq<LineKind>, n: nat)
    requires n <= |ks|
    requires forall k :: 0 <= k < n ==> ks[k].ItemLine?
    ensures Significant(ks) == ks[..n] + Significant(ks[n..])
  {
    if n > 0 {
      SignificantItems(ks[1..], n - 1);
      assert ks[1..][n - 1..] == ks[n..];
      assert ks[..n] == [ks[0]] + ks[1..][..n - 1];
    } else {
      assert ks[0..] == ks;
    }
  }

  /**
   * Nothing is lost, invented or reordered: reading the blocks back as lines gives the
   * non-blank lines of the input, in order. Each quote and paragraph line stands for
   * exactly one block, and every list item comes from one item line.
   */
  lemma {:induction false} BlocksCoverLines(ks: seq<LineKind>)
    ensures Expand(Blocks(ks)) == Significant(ks)
    decreases |ks|
  {
    if ks != [] {
      match ks[0]
      case Blank => BlocksCoverLines(ks[1..]);
      case QuoteLine(r) =>
        BlocksCoverLines(ks[1..]);
        ExpandAppend([Quote(r)], Blocks(ks[1..]));
      case ParaLine(r) =>
        BlocksCoverLines(ks[1..]);
        ExpandAppend([Paragraph(r)], Blocks(ks[1..]));
      case ItemLine(_) =>
        var n := ItemRunLength(ks);
        BlocksCoverLines(ks[n..]);
        ExpandAppend([List(ItemsOf(ks[..n]))], Blocks(ks[n..]));
        SignificantItems(ks, n);
        ItemLinesBack(ks[..n]);
    }
  }

  /** A run of items that stops inside `a` is the same run in `a + b`. */
  lemma {:induction false} ItemRunAppend(a: seq<LineKind>, b: seq<LineKind>)
    requires a != [] && !a[|a| - 1].ItemLine?
    ensures ItemRunLength(a + b) == ItemRunLength(a) < |a|
    decreases |a|
  {
    if a[0].ItemLine? {
      assert (a + b)[1..] == a[1..] + b;
      ItemRunAppend(a[1..], b);
    }
  }

  /**
   * A line that is not a list item closes what came before it: the blocks of `a + b`
   * are the blocks of `a` followed by those of `b`.
   */
  lemma {:induction false} BlocksAppend(a: seq<LineKind>, b: seq<LineKind>)
    requires a != [] && !a[|a| - 1].ItemLine?
    ensures Blocks(a + b) == Blocks(a) + Blocks(b)
    decreases |a|, 0
  {
    var ab := a + b;
    assert ab[0] == a[0];
    if a[0].ItemLine? {
      var n := ItemRunLength(a);
      ItemRunAppend(a, b);
      var list := [List(ItemsOf(a[..n]))];
      calc {
        Blocks(ab);
        [List(ItemsOf(ab[..n]))] + Blocks(ab[n..]);
      == { assert ab[..n] == a[..n]; assert ab[n..] == a[n..] + b; BlocksAppend(a[n..], b); }
        list + (Blocks(a[n..]) + Blocks(b));
        (list + Blocks(a[n..])) + Blocks(b);
      }
    } else {
      var e := Emitted(a[0]);
      calc {
        Blocks(ab);
      == { BlocksOfLine(ab); }
        e + Blocks(ab[1..]);
      == { assert ab[1..] == a[1..] + b; BlocksTail(a[1..], b); }
        e + (Blocks(a[1..]) + Blocks(b));
        (e + Blocks(a[1..])) + Blocks(b);
      == { BlocksOfLine(a); }
        Blocks(a) + Blocks(b);
      }
    }
  }

  /** The step of `BlocksAppend` on the lines after the first. */
  lemma {:induction false} BlocksTail(a: seq<LineKind>, b: seq<LineKind>)
    requires a == [] || !a[|a| - 1].ItemLine?
    ensures Blocks(a + b) == Blocks(a) + Blocks(b)
    decreases |a|, 1
  {
    if a == [] {
      assert a + b == b;
    } else {
      BlocksAppend(a, b);
    }
  }

  /** There is no blank line among `ks`. */
  predicate NoBlankLines(ks: seq<LineKind>) {
    forall k :: 0 <= k < |ks| ==> !ks[k].Blank?
  }

  /**
   * Runs of list items are maximal: when no blank line separates them, two lists are
   * never emitted one right after the other.
   */
  lemma {:induction false} NoAdjacentLists(ks: seq<LineKind>)
    requires NoBlankLines(ks)
    ensures forall i :: 0 <= i < |Blocks(ks)| - 1 ==> !(Blocks(ks)[i].List? && Blocks(ks)[i + 1].List?)
    decreases |ks|
  {
    if ks != [] {
      var bs := Blocks(ks);
      var n := if ks[0].ItemLine? then ItemRunLength(ks) else 1;
      var rest := ks[n..];
      NoAdjacentLists(rest);
      if ks[0].ItemLine? && rest != [] {
        assert !Blocks(rest)[0].List?;
      }
      assert forall i :: 1 <= i < |bs| ==> bs[i] == Blocks(rest)[i - 1];
    }
  }

  /** Lines that are all blank give no block. */
  lemma {:induction false} AllBlankNoBlocks(ks: seq<LineKind>)
    requires forall k :: 0 <= k < |ks| ==> ks[k].Blank?
    ensures Blocks(ks) == []
  {
    if ks != [] {
      AllBlankNoBlocks(ks[1..]);
    }
  }

  /** Lines that give no block are all blank. */
  lemma {:induction false} NoSignificantAllBlank(ks: seq<LineKind>)
    requires Significant(ks) == []
    ensures forall k :: 0 <= k < |ks| ==> ks[k].Blank?
  {
    if ks != [] {
      NoSignificantAllBlank(ks[1..]);
      assert forall k :: 1 <= k < |ks| ==> ks[k] == ks[1..][k - 1];
    }
  }

  /** A text renders as no block at all exactly when it is whitespace only. */
  lemma NoBlocksIffBlank(text: string)
    ensures MarkdownBlocks(text) == [] <==> AllSpace(text)
  {
    var lines := Split(text, '\n');
    var ks := Kinds(lines);
    if AllSpace(text) {
      SplitAllSpace(text, '\n');
      forall k | 0 <= k < |ks|
        ensures ks[k].Blank?
      {
        BlankIffWhitespace(lines[k]);
      }
      AllBlankNoBlocks(ks);
    }
    if MarkdownBlocks(text) == [] {
      BlocksCoverLines(ks);
      assert Expand([]) == [];
      NoSignificantAllBlank(ks);
      forall k | 0 <= k < |lines|
        ensures AllSpace(lines[k])
      {
        BlankIffWhitespace(lines[k]);
      }
      JoinAllSpace(lines, '\n');
      JoinSplit(text, '\n');
    }
  }

  /** Text that starts with a visible character renders as at least one block, that of its first line. */
  lemma VisibleTextHasBlocks(text: string)
    requires text != [] && !IsSpace(text[0])
    ensures MarkdownBlocks(text) != []
  {
    var lines := Split(text, '\n');
    SplitFirst(text, '\n');
    assert !AllSpace(lines[0]);
    BlankIffWhitespace(lines[0]);
    NonBlankFirstLine(Kinds(lines));
  }

  /** A first line that is not blank gives a block. */
  lemma NonBlankFirstLine(ks: seq<LineKind>)
    requires ks != [] && !ks[0].Blank?
    ensures Blocks(ks) != []
  {
    match ks[0]
    case QuoteLine(_) =>
    case ParaLine(_) =>
    case ItemLine(_) =>
  }
}
