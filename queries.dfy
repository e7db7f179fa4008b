/** The read-only handlers of the stories service: all published stories
    (`_stories`), a date range (`_range`), a random recent story
    (`_random_story`) and one story by id (`_open_story`). */
module Queries {
  import opened Http
  import opened Stories

  /** `filter_by(is_draft=False)`, in table order. */
  function Published(store: seq<Story>): (r: seq<Story>)
    ensures forall s :: s in r <==> s in store && !s.isDraft
    ensures |r| <= |store|
  {
    if store == [] then []
    else if store[0].isDraft then Published(store[1..])
    else [store[0]] + Published(store[1..])
  }

  /** A row added at the end of the table is published after all the others
      exactly when it is not a draft: `Published` keeps table order and lists
      each row once. */
  lemma {:induction false} PublishedSnoc(store: seq<Story>, s: Story)
    ensures Published(store + [s]) == Published(store) + (if s.isDraft then [] else [s])
    decreases |store|
  {
    if store == [] {
      assert store + [s] == [s];
    } else {
      assert (store + [s])[0] == store[0];
      assert (store + [s])[1..] == store[1..] + [s];
      PublishedSnoc(store[1..], s);
    }
  }

  predicate NewestFirst(stories: seq<Story>)
  {
    forall i, j :: 0 <= i < j < |stories| ==> stories[i].date >= stories[j].date
  }

  /** Places `s` before the first story that is not newer than it. */
  function InsertByDate(s: Story, sorted: seq<Story>): seq<Story>
  {
    if sorted == [] || sorted[0].date <= s.date then [s] + sorted
    else [sorted[0]] + InsertByDate(s, sorted[1..])
  }

  /** Inserting adds exactly the one story. */
  lemma {:induction false} InsertByDatePermutes(s: Story, sorted: seq<Story>)
    ensures multiset(InsertByDate(s, sorted)) == multiset(sorted) + multiset{s}
    decreases |sorted|
  {
    if sorted != [] && sorted[0].date > s.date {
      assert sorted == [sorted[0]] + sorted[1..];
      InsertByDatePermutes(s, sorted[1..]);
    }
  }

  /** Inserting into a newest-first list keeps it newest first. */
  lemma {:induction false} InsertByDateSorted(s: Story, sorted: seq<Story>)
    requires NewestFirst(sorted)
    ensures NewestFirst(InsertByDate(s, sorted))
    decreases |sorted|
  {
    if sorted != [] && sorted[0].date > s.date {
      var head, tail := sorted[0], sorted[1..];
      InsertByDateSorted(s, tail);
      InsertByDatePermutes(s, tail);
      var rest := InsertByDate(s, tail);
      forall k | 0 <= k < |rest| ensures rest[k].date <= head.date {
        assert rest[k] in multiset(rest);
        if rest[k] != s {
          assert rest[k] in multiset(tail);
          var m :| 0 <= m < |tail| && tail[m] == rest[k];
          assert sorted[m + 1] == tail[m];
        }
      }
      var r := [head] + rest;
      forall i, j | 0 <= i < j < |r| ensures r[i].date >= r[j].date {
        assert r[j] == rest[j - 1];
        if i > 0 {
          assert r[i] == rest[i - 1];
        }
      }
    }
  }

  /** `order_by(desc(Story.date))`; ties keep table order. */
  function SortNewestFirst(stories: seq<Story>): (r: seq<Story>)
    ensures NewestFirst(r)
    ensures multiset(r) == multiset(stories)
  {
    if stories == [] then []
    else
      assert stories == [stories[0]] + stories[1..];
      var rest := SortNewestFirst(stories[1..]);
      InsertByDateSorted(stories[0], rest);
      InsertByDatePermutes(stories[0], rest);
      InsertByDate(stories[0], rest)
  }

  /** `_stories`: every published story and nothing else, newest first. */
  function AllStories(store: seq<Story>): (r: seq<Story>)
    ensures NewestFirst(r)
    ensures multiset(r) == multiset(Published(store))
    ensures forall s :: s in r <==> s in store && !s.isDraft
  {
    var r := SortNewestFirst(Published(store));
    assert forall s :: s in r <==> s in multiset(Published(store));
    r
  }

  /** A `begin`/`end` query argument: missing or empty, a date that parses
      (given by the timestamp of its midnight), or text `strptime` rejects. */
  datatype DateArg = Absent | Day(midnight: Timestamp) | Unparsable

  /** 23:59:59 after midnight. */
  const LastSecond: nat := 23 * 3600 + 59 * 60 + 59

  const WrongUrlParameters: string := "Wrong URL parameters"
  const BeginAfterEnd: string := "Begin date cannot be higher than End date"

  /** Published stories with `lo <= date <= hi`, in table order. */
  function Window(store: seq<Story>, lo: int, hi: int): (r: seq<Story>)
    ensures forall s :: s in r <==> s in store && !s.isDraft && lo <= s.date <= hi
  {
    if store == [] then []
    else if !store[0].isDraft && lo <= store[0].date <= hi then [store[0]] + Window(store[1..], lo, hi)
    else Window(store[1..], lo, hi)
  }

  /** A row added at the end of the table comes last in the window exactly
      when it is published and dated inside it: `Window` keeps table order and
      lists each row once. */
  lemma {:induction false} WindowSnoc(store: seq<Story>, s: Story, lo: int, hi: int)
    ensures Window(store + [s], lo, hi) ==
      Window(store, lo, hi) + (if !s.isDraft && lo <= s.date <= hi then [s] else [])
    decreases |store|
  {
    if store == [] {
      assert store + [s] == [s];
    } else {
      assert (store + [s])[0] == store[0];
      assert (store + [s])[1..] == store[1..] + [s];
      WindowSnoc(store[1..], s, lo, hi);
    }
  }

  /** `_range`: a missing `begin` is `datetime.min`, a missing `end` is today
      at 23:59:59 and a given `end` is pushed to 23:59:59 of its day. */
  function RangeStories(store: seq<Story>, begin: DateArg, end: DateArg, todayMidnight: Timestamp): (r: Result<seq<Story>>)
    ensures r.Abort? ==> r.status == 400
    ensures r.Abort? ==> r.description == WrongUrlParameters || r.description == BeginAfterEnd
    ensures r.Ok? ==> r.value == Window(store, LowerBound(begin), UpperBound(end, todayMidnight))
    ensures r == Abort(400, WrongUrlParameters) <==> begin.Unparsable? || end.Unparsable?
    ensures r == Abort(400, BeginAfterEnd) <==>
      !begin.Unparsable? && !end.Unparsable? && LowerBound(begin) > UpperBound(end, todayMidnight)
    ensures r.Ok? ==> forall s :: s in r.value <==>
      s in store && !s.isDraft && LowerBound(begin) <= s.date <= UpperBound(end, todayMidnight)
  {
    if begin.Unparsable? || end.Unparsable? then Abort(400, WrongUrlParameters)
    else
      var lo, hi := LowerBound(begin), UpperBound(end, todayMidnight);
      if lo > hi then Abort(400, BeginAfterEnd)
      else Ok(Window(store, lo, hi))
  }

  function LowerBound(begin: DateArg): int
  {
    if begin.Day? then begin.midnight else 0
  }

  function UpperBound(end: DateArg, todayMidnight: Timestamp): int
  {
    (if end.Day? then end.midnight else todayMidnight) + LastSecond
  }

  /** Without arguments the range query returns the whole published list in
      table order, when no story is dated after today. */
  lemma RangeWithoutArgumentsIsPublished(store: seq<Story>, todayMidnight: Timestamp)
    requires forall s :: s in store ==> s.date <= todayMidnight + LastSecond
    ensures RangeStories(store, Absent, Absent, todayMidnight) == Ok(Published(store))
  {
    WindowCoversAll(store, todayMidnight + LastSecond);
  }

  lemma {:induction false} WindowCoversAll(store: seq<Story>, hi: int)
    requires forall s :: s in store ==> s.date <= hi
    ensures Window(store, 0, hi) == Published(store)
    decreases |store|
  {
    if store != [] {
      assert store[0] in store;
      assert forall s :: s in store[1..] ==> s in store;
      WindowCoversAll(store[1..], hi);
    }
  }

  /** An end date given as a day includes that whole day. */
  lemma RangeIncludesWholeEndDay(store: seq<Story>, b: Timestamp, e: Timestamp, todayMidnight: Timestamp, s: Story)
    requires b <= e
    requires s in store && !s.isDraft && b <= s.date <= e + LastSecond
    ensures RangeStories(store, Day(b), Day(e), todayMidnight).Ok?
    ensures s in RangeStories(store, Day(b), Day(e), todayMidnight).value
  {
  }

  const NoRecentStories: string := "There are no recent stories by other users"

  /** `(now - timedelta(3)).date()`: midnight three days before `now`. */
  function RecentSince(now: Timestamp): (r: int)
    ensures r % SecondsPerDay == 0
    ensures r <= now - 3 * SecondsPerDay < r + SecondsPerDay
  {
    var t := now - 3 * SecondsPerDay;
    t - t % SecondsPerDay
  }

  /** The stories `_random_story` draws from: published, dated from `since`
      on, and not by the asking user when `user_id` is all digits. */
  function RecentCandidates(store: seq<Story>, userId: Option<string>, since: int): (r: seq<Story>)
    ensures forall s :: s in r <==> s in store && IsCandidate(s, userId, since)
  {
    if store == [] then []
    else if IsCandidate(store[0], userId, since) then [store[0]] + RecentCandidates(store[1..], userId, since)
    else RecentCandidates(store[1..], userId, since)
  }

  /** The candidates keep table order, so `pos` names the same row the
      source's index into the query result does. */
  lemma {:induction false} RecentCandidatesSnoc(store: seq<Story>, s: Story, userId: Option<string>, since: int)
    ensures RecentCandidates(store + [s], userId, since) ==
      RecentCandidates(store, userId, since) + (if IsCandidate(s, userId, since) then [s] else [])
    decreases |store|
  {
    if store == [] {
      assert store + [s] == [s];
    } else {
      assert (store + [s])[0] == store[0];
      assert (store + [s])[1..] == store[1..] + [s];
      RecentCandidatesSnoc(store[1..], s, userId, since);
    }
  }

  predicate IsCandidate(s: Story, userId: Option<string>, since: int)
  {
    !s.isDraft && s.date >= since &&
    (userId.Some? && IsDigits(userId.value) ==> s.authorId != DigitsValue(userId.value))
  }

  /** `_random_story`, with `randint(0, len - 1)` given as `pos`. */
  function RandomStory(store: seq<Story>, userId: Option<string>, now: Timestamp, pos: int): (r: Result<Story>)
    requires var c := RecentCandidates(store, userId, RecentSince(now)); c != [] ==> 0 <= pos < |c|
    ensures r.Abort? <==> RecentCandidates(store, userId, RecentSince(now)) == []
    ensures r.Abort? ==> r == Abort(404, NoRecentStories)
    ensures r.Ok? ==> r.value in store && !r.value.isDraft && r.value.date >= RecentSince(now)
    ensures r.Ok? && userId.Some? && IsDigits(userId.value) ==> r.value.authorId != DigitsValue(userId.value)
    ensures r.Ok? ==> r.value == RecentCandidates(store, userId, RecentSince(now))[pos]
  {
    var candidates := RecentCandidates(store, userId, RecentSince(now));
    if |candidates| == 0 then Abort(404, NoRecentStories)
    else
      assert candidates[pos] in candidates;
      Ok(candidates[pos])
  }

  /** With a single candidate, every draw returns it. */
  lemma RandomSingleCandidate(store: seq<Story>, userId: Option<string>, now: Timestamp, pos: int, s: Story)
    requires RecentCandidates(store, userId, RecentSince(now)) == [s]
    requires pos == 0
    ensures RandomStory(store, userId, now, pos) == Ok(s)
  {
  }

  /** The draw reaches every candidate: each recent published story by
      another user is returned for some `pos` in the range `randint` draws
      from. */
  lemma EveryCandidateCanBeDrawn(store: seq<Story>, userId: Option<string>, now: Timestamp, s: Story)
    requires s in RecentCandidates(store, userId, RecentSince(now))
    ensures exists pos ::
      0 <= pos < |RecentCandidates(store, userId, RecentSince(now))| && RandomStory(store, userId, now, pos) == Ok(s)
  {
    var c := RecentCandidates(store, userId, RecentSince(now));
    var pos :| 0 <= pos < |c| && c[pos] == s;
    assert RandomStory(store, userId, now, pos) == Ok(s);
  }

  const StoryNotFound: string := "Specified story not found"

  /** `_open_story`: the first row with that id, or 404. */
  function OpenStory(store: seq<Story>, id: int): (r: Result<Story>)
    ensures r.Ok? <==> HasId(store, id)
    ensures r.Ok? ==> r.value in store && r.value.id == id
    ensures r.Abort? ==> r == Abort(404, StoryNotFound)
  {
    match FindStory(store, id)
    case Some(s) => Ok(s)
    case None => Abort(404, StoryNotFound)
  }
}
