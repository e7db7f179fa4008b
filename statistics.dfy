/** `_stories_stats`: how many stories an author has (drafts included) and
    how many figures they hold in total. The average, a rounded float, is
    not part of this model. */
module Statistics {
  import opened Stories
  import opened Figures

  /** `Story.query.filter(Story.author_id == user_id).all()`, in table order. */
  function AuthorStories(store: seq<Story>, author: int): (r: seq<Story>)
    ensures forall s :: s in r <==> s in store && s.authorId == author
    ensures |r| <= |store|
  {
    if store == [] then []
    else if store[0].authorId == author then [store[0]] + AuthorStories(store[1..], author)
    else AuthorStories(store[1..], author)
  }

  /** The number of figures a story's stored field holds once read back. */
  function FigureCount(s: Story): nat
  {
    |Decode(s.figures)|
  }

  /** Sum of `FigureCount` over the stories. */
  function TotalFigures(stories: seq<Story>): nat
  {
    if stories == [] then 0
    else TotalFigures(stories[..|stories| - 1]) + FigureCount(stories[|stories| - 1])
  }

  lemma {:induction false} TotalFiguresAppend(a: seq<Story>, b: seq<Story>)
    ensures TotalFigures(a + b) == TotalFigures(a) + TotalFigures(b)
    decreases |b|
  {
    if b != [] {
      assert (a + b)[..|a + b| - 1] == a + b[..|b| - 1];
      TotalFiguresAppend(a, b[..|b| - 1]);
    } else {
      assert a + b == a;
    }
  }

  /** The loop of `_stories_stats`. */
  method StoriesStats(store: seq<Story>, userId: int) returns (numStories: nat, totNumDice: nat)
    ensures numStories == |AuthorStories(store, userId)|
    ensures totNumDice == TotalFigures(AuthorStories(store, userId))
    ensures numStories == 0 ==> totNumDice == 0
  {
    var all := AuthorStories(store, userId);
    numStories := |all|;
    totNumDice := 0;
    var i := 0;
    while i < |all|
      invariant 0 <= i <= |all|
      invariant totNumDice == TotalFigures(all[..i])
    {
      assert all[..i + 1][..i] == all[..i];
      totNumDice := totNumDice + |Decode(all[i].figures)|;
      i := i + 1;
    }
    assert all[..i] == all;
  }

  /** Each stored story adds its own figure count, so appending a story by
      the author raises the total by the number of figures written into it;
      stories by others change nothing. */
  lemma {:induction false} AuthorStoriesAppend(store: seq<Story>, s: Story, author: int)
    ensures AuthorStories(store + [s], author) ==
      AuthorStories(store, author) + (if s.authorId == author then [s] else [])
    decreases |store|
  {
    if store == [] {
      assert [] + [s] == [s];
    } else {
      assert (store + [s])[1..] == store[1..] + [s];
      AuthorStoriesAppend(store[1..], s, author);
    }
  }

  /** Publishing or drafting a new story whose figures are `words` (at least
      one, none containing '#') adds one story and `|words|` figures to its
      author's statistics. */
  lemma StatsOfNewStory(store: seq<Story>, s: Story, words: seq<string>)
    requires s.figures == Encode(words)
    requires |words| >= 1 && forall w :: w in words ==> Delimiter !in w
    ensures |AuthorStories(store + [s], s.authorId)| == |AuthorStories(store, s.authorId)| + 1
    ensures TotalFigures(AuthorStories(store + [s], s.authorId)) ==
      TotalFigures(AuthorStories(store, s.authorId)) + |words|
  {
    AuthorStoriesAppend(store, s, s.authorId);
    TotalFiguresAppend(AuthorStories(store, s.authorId), [s]);
    DecodeEncode(words);
    assert [s][..0] == [];
  }
}
