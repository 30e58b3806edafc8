/**
 * One block of a story as a scene: the first line, without bold marks, is the title
 * and the other lines, joined and trimmed, are the content.
 */
module SceneBlock {
  import opened Wrappers
  import opened Text

  /** A scene: its heading and its markdown body. */
  datatype Scene = Scene(title: string, content: string)

  /** The title given to a block whose first line is empty once the bold marks are gone ("untitled scene"). */
  const UntitledScene: string := "مشهد بدون عنوان"

  /** The placeholder title holds no bold mark. */
  lemma UntitledNoMark()
    ensures !HasBoldMark(UntitledScene)
  {
    assert '*' !in UntitledScene;
    NoStarNoBoldMark(UntitledScene);
  }

  /** The title a first line gives: trimmed, with every `**` removed, or the placeholder when nothing is left. */
  function TitleOf(firstLine: string): (title: string)
    ensures title != [] && !HasBoldMark(title)
  {
    var t := RemoveBoldMarks(Trim(firstLine));
    if t == [] then
      UntitledNoMark();
      UntitledScene
    else t
  }

  /**
   * A first line with visible text other than stars keeps every character of it but the
   * stars; the placeholder is used exactly when nothing is left once the bold marks are
   * gone, and otherwise the title is what is left.
   */
  lemma TitleKeepsText(firstLine: string)
    ensures NonStars(Trim(firstLine)) != [] ==> NonStars(TitleOf(firstLine)) == NonStars(Trim(firstLine))
    ensures RemoveBoldMarks(Trim(firstLine)) == [] ==> TitleOf(firstLine) == UntitledScene
    ensures RemoveBoldMarks(Trim(firstLine)) != [] ==> TitleOf(firstLine) == RemoveBoldMarks(Trim(firstLine))
  {
    RemoveBoldMarksKeepsText(Trim(firstLine));
  }

  /** A header line `**t**`, with no `*` in a non-empty `t`, is titled `t`. */
  lemma TitleOfBoldLine(t: string)
    requires t != [] && '*' !in t
    ensures TitleOf("**" + t + "**") == t
  {
    var line := "**" + t + "**";
    TrimTrimmed(line);
    RemoveEnclosingMarks(t);
  }

  /** The scene one block gives, if any: the loop body of `parseStoryToScenes`. */
  function SceneOf(block: string): (r: Option<Scene>)
    ensures r.Some? ==> r.value.content != [] && IsTrimmed(r.value.content)
    ensures r.Some? ==> r.value.title != [] && !HasBoldMark(r.value.title)
  {
    var lines := Split(Trim(block), '\n');
    var content := Trim(Join(lines[1..], '\n'));
    if content == [] then None else Some(Scene(TitleOf(lines[0]), content))
  }

  /** A scene as the source promises to render it: a non-empty trimmed content and a title without `**`. */
  predicate WellFormed(sc: Scene) {
    sc.content != [] && IsTrimmed(sc.content) && sc.title != [] && !HasBoldMark(sc.title)
  }

  /** `x + [c] + y` with no `c` in `x` determines `x` and `y`. */
  lemma CutAtFirst(x: string, y: string, x': string, y': string, c: char)
    requires c !in x && c !in x'
    requires x + [c] + y == x' + [c] + y'
    ensures x == x' && y == y'
  {
    var s := x + [c] + y;
    assert forall k :: 0 <= k < |x| ==> s[k] == x[k] != c;
    assert forall k :: 0 <= k < |x'| ==> s[k] == x'[k] != c;
    assert s[|x|] == c && s[|x'|] == c;
    assert x == s[..|x|] && x' == s[..|x'|];
    assert y == s[|x| + 1..] && y' == s[|x'| + 1..];
  }

  /**
   * The scene of a block, line by line: when the trimmed block is its first line, a line
   * break and the rest, the block gives no scene exactly when the rest is blank, and
   * otherwise the scene titled by the first line with the rest, trimmed, as content.
   */
  lemma SceneOfLines(block: string, first: string, rest: string)
    requires Trim(block) == first + "\n" + rest && '\n' !in first
    ensures SceneOf(block).None? <==> AllSpace(rest)
    ensures SceneOf(block).Some? ==> SceneOf(block).value == Scene(TitleOf(first), Trim(rest))
  {
    var t := Trim(block);
    var lines := Split(t, '\n');
    SplitHeadTail(t, '\n');
    assert t[|first|] == '\n';
    CutAtFirst(lines[0], Join(lines[1..], '\n'), first, rest, '\n');
  }

  /** A block that is a single line once trimmed gives no scene. */
  lemma SingleLineNoScene(block: string)
    requires '\n' !in Trim(block)
    ensures SceneOf(block) == None
  {
    SplitNoSeparator(Trim(block), '\n');
  }

  /** A whitespace-only block gives no scene. */
  lemma BlankBlockNoScene(block: string)
    requires AllSpace(block)
    ensures SceneOf(block) == None
  {
    SingleLineNoScene(block);
  }
}
