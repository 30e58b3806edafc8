/**
 * `renderContent`: which view the story panel shows. Loading wins over an error, an
 * error over the story; a story is shown scene by scene, or as one markdown text when
 * no scene can be read from it; with no story, the invitation to write one is shown.
 */
module Render {
  import opened Wrappers
  import opened Text
  import opened Markdown
  import opened SceneBlock
  import opened Scenes
  import opened Seqs

  /** One scene card: the heading and the blocks of its body. */
  datatype SceneCard = SceneCard(title: string, body: seq<Block>)

  /** The views of the story panel. */
  datatype View =
    | Loading
    | Failed(message: string)
    | SceneCards(cards: seq<SceneCard>)
    | WholeText(blocks: seq<Block>)
    | NoStory

  /** `if (error)`: an error is shown when there is one and it is not the empty string. */
  predicate ErrorShown(error: Option<string>) {
    error.Some? && error.value != []
  }

  /** The card of one scene: its title, and its content through `parseMarkdownContent`. */
  function Card(sc: Scene): SceneCard
  {
    SceneCard(sc.title, MarkdownBlocks(sc.content))
  }

  /** `renderContent` for the panel's inputs. */
  function RenderContent(story: string, isLoading: bool, error: Option<string>): (v: View)
    ensures isLoading ==> v == Loading
    ensures !isLoading && ErrorShown(error) ==> v == Failed(error.value)
    ensures v.NoStory? <==> !isLoading && !ErrorShown(error) && story == []
    ensures v.WholeText? <==> !isLoading && !ErrorShown(error) && story != [] && StoryScenes(story) == []
    ensures v.WholeText? ==> v.blocks == MarkdownBlocks(story)
    ensures v.SceneCards? <==> !isLoading && !ErrorShown(error) && StoryScenes(story) != []
    ensures v.SceneCards? ==> v.cards == MapSeq(Card, StoryScenes(story))
  {
    if isLoading then Loading
    else if ErrorShown(error) then Failed(error.value)
    else if story != [] then
      var scenes := StoryScenes(story);
      if |scenes| == 0 then WholeText(MarkdownBlocks(story))
      else SceneCards(MapSeq(Card, scenes))
    else NoStory
  }

  /**
   * A story of whitespace only is not "no story": it is shown as a whole text, and that
   * text has no block.
   */
  lemma BlankStoryShowsEmptyText(story: string, error: Option<string>)
    requires story != [] && AllSpace(story) && !ErrorShown(error)
    ensures RenderContent(story, false, error) == WholeText([])
  {
    BlankTextNoScenes(story);
    NoBlocksIffBlank(story);
  }

  /** Every scene card has a title free of `**` and a body of at least one block. */
  lemma CardsNotEmpty(story: string, isLoading: bool, error: Option<string>)
    ensures var v := RenderContent(story, isLoading, error);
      v.SceneCards? ==> forall i :: 0 <= i < |v.cards| ==>
        v.cards[i].title != [] && !HasBoldMark(v.cards[i].title) && v.cards[i].body != []
  {
    var v := RenderContent(story, isLoading, error);
    if v.SceneCards? {
      ScenesWellFormed(story);
      forall i | 0 <= i < |v.cards|
        ensures v.cards[i].title != [] && !HasBoldMark(v.cards[i].title) && v.cards[i].body != []
      {
        var sc := StoryScenes(story)[i];
        assert WellFormed(sc);
        VisibleTextHasBlocks(sc.content);
      }
    }
  }
}
