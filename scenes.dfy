/**
 * `parseStoryToScenes`: the story text is cut, just before every Arabic scene header
 * `**المشهد N:Title**`, into blocks; the blank blocks are dropped; each remaining
 * block gives a scene whose title is its first line without bold marks and whose
 * content is the rest, trimmed, and the scene is kept only when that content is not empty.
 */
module Scenes {
  import opened Wrappers
  import opened Seqs
  import opened Text
  import opened Headers
  import opened SceneBlock

  /** The scenes of a list of blocks, in block order, one at most per block. */
  function Collect(blocks: seq<string>): (scenes: seq<Scene>)
    ensures |scenes| <= |blocks|
  {
    Somes(MapSeq(SceneOf, blocks))
  }

  /** What `parseStoryToScenes` returns for `text`. */
  function StoryScenes(text: string): seq<Scene>
  {
    if Trim(text) == [] then [] else Collect(NonBlank(SplitAtHeaders(text)))
  }

  /** Collecting the scenes of two lists of blocks one after the other keeps their order. */
  lemma CollectAppend(a: seq<string>, b: seq<string>)
    ensures Collect(a + b) == Collect(a) + Collect(b)
  {
    MapAppend(SceneOf, a, b);
    SomesAppend(MapSeq(SceneOf, a), MapSeq(SceneOf, b));
  }

  /** Every collected scene is well formed, and is the scene of one of the blocks. */
  lemma CollectWellFormed(blocks: seq<string>)
    ensures forall k :: 0 <= k < |Collect(blocks)| ==> WellFormed(Collect(blocks)[k])
    ensures forall k :: 0 <= k < |Collect(blocks)| ==>
      exists i :: 0 <= i < |blocks| && SceneOf(blocks[i]) == Some(Collect(blocks)[k])
  {
    var opts := MapSeq(SceneOf, blocks);
    assert Collect(blocks) == Somes(opts);
    forall k | 0 <= k < |Somes(opts)|
      ensures WellFormed(Somes(opts)[k])
      ensures exists i :: 0 <= i < |blocks| && SceneOf(blocks[i]) == Some(Somes(opts)[k])
    {
      SomesFrom(opts, k);
      var i :| 0 <= i < |opts| && opts[i] == Some(Somes(opts)[k]);
      assert SceneOf(blocks[i]) == Some(Somes(opts)[k]);
      assert WellFormed(Somes(opts)[k]);
    }
  }

  /** Every scene has a non-empty, trimmed content and a non-empty title free of `**`. */
  lemma ScenesWellFormed(text: string)
    ensures forall i :: 0 <= i < |StoryScenes(text)| ==> WellFormed(StoryScenes(text)[i])
  {
    CollectWellFormed(NonBlank(SplitAtHeaders(text)));
  }

  /** One block gives its own scene, if any. */
  lemma CollectOne(block: string)
    ensures Collect([block]) == if SceneOf(block).Some? then [SceneOf(block).value] else []
  {
    var opts := MapSeq(SceneOf, [block]);
    assert opts[1..] == [];
  }

  /**
   * Empty or whitespace-only text has no scenes, and the early return for it is only a
   * shortcut: the general path would give no scene either.
   */
  lemma BlankTextNoScenes(text: string)
    requires AllSpace(text)
    ensures StoryScenes(text) == []
    ensures Collect(NonBlank(SplitAtHeaders(text))) == []
  {
    BlankPieces(SplitAtHeaders(text));
    NonBlankOfBlank(SplitAtHeaders(text));
  }

  /** Text in which no header starts past its first character has one scene at most. */
  lemma NoHeaderAtMostOneScene(text: string)
    requires forall k :: 0 < k < |text| ==> !HeaderAt(text, k)
    ensures |StoryScenes(text)| <= 1
  {
    NoHeaderOneBlock(text);
  }

  /** Dropping the blank blocks drops no scene: a blank block gives none. */
  lemma {:induction false} CollectNonBlank(blocks: seq<string>)
    ensures Collect(NonBlank(blocks)) == Collect(blocks)
  {
    if blocks != [] {
      var b, rest := blocks[0], blocks[1..];
      assert blocks == [b] + rest;
      NonBlankAppend([b], rest);
      NonBlankOne(b);
      CollectNonBlank(rest);
      CollectAppend([b], rest);
      CollectAppend(NonBlank([b]), NonBlank(rest));
      if AllSpace(b) {
        BlankBlockNoScene(b);
        CollectOne(b);
        assert NonBlank([b]) + NonBlank(rest) == NonBlank(rest);
      }
    }
  }

  /**
   * Neither the early return for blank text nor the filter changes the result: the
   * scenes of a story are those of all its blocks, in order.
   */
  lemma StoryScenesAllBlocks(text: string)
    ensures StoryScenes(text) == Collect(SplitAtHeaders(text))
  {
    CollectNonBlank(SplitAtHeaders(text));
    if Trim(text) == [] {
      BlankTextNoScenes(text);
    }
  }

  /** One more block adds its scene, if it gives one, at the end. */
  lemma CollectStep(blocks: seq<string>, i: nat, scenes: seq<Scene>, sc: Scene)
    requires i < |blocks| && scenes == Collect(blocks[..i])
    requires SceneOf(blocks[i]).Some? ==> SceneOf(blocks[i]) == Some(sc)
    ensures Collect(blocks[..i + 1]) == if SceneOf(blocks[i]).Some? then scenes + [sc] else scenes
  {
    CollectOne(blocks[i]);
    TakeOneMore(blocks, i);
    CollectAppend(blocks[..i], [blocks[i]]);
  }

  /**
   * `parseStoryToScenes`: return nothing for blank text; otherwise take each non-blank
   * block in turn, shift its first line off as the title, and keep the scene when the
   * remaining lines, joined and trimmed, are not empty.
   */
  method ParseStoryToScenes(text: string) returns (scenes: seq<Scene>)
    ensures scenes == StoryScenes(text)
    ensures forall i :: 0 <= i < |scenes| ==> WellFormed(scenes[i])
  {
    if Trim(text) == [] {
      return [];
    }
    scenes := [];
    var sceneBlocks := NonBlank(SplitAtHeaders(text));
    for i := 0 to |sceneBlocks|
      invariant scenes == Collect(sceneBlocks[..i])
    {
      var block := sceneBlocks[i];
      var lines := Split(Trim(block), '\n');
      var first := lines[0];
      lines := lines[1..];
      var title := RemoveBoldMarks(Trim(first));
      if title == [] {
        title := UntitledScene;
      }
      var content := Trim(Join(lines, '\n'));
      assert SceneOf(block) == if content != [] then Some(Scene(title, content)) else None;
      CollectStep(sceneBlocks, i, scenes, Scene(title, content));
      if content != [] {
        scenes := scenes + [Scene(title, content)];
      }
    }
    TakeAll(sceneBlocks);
    ScenesWellFormed(text);
  }
}
