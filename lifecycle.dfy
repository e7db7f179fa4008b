/** What the state-changing handlers of the stories service do to the
    story table and to the user's session: `_get_draft` (resume a draft),
    `_write_story` (save a draft or publish) and `_manage_stories` (delete).
    Each is a function from the state before to the answer and the state
    after; the class in module Service carries them out step by step. */
module Lifecycle {
  import opened Http
  import opened Stories
  import opened Validation
  import opened Figures

  /** The two session keys the handlers use; `None` is an absent key. */
  datatype Session = Session(figures: Option<seq<string>>, idStory: Option<int>)

  const NoDraftSession := Session(None, None)

  datatype State = State(store: seq<Story>, session: Session)

  datatype Outcome = Outcome(response: Response, state: State)

  /** The JSON body of a write; `None` is a missing key. */
  datatype WriteRequest = WriteRequest(text: Option<string>, asDraft: Option<bool>, userId: Option<int>)

  const SessionOk: string := "Session  to continue writing a draft OK"
  const InvalidDraftRequest: string :=
    "Request is invalid, check if you are the author of the story and it is still a draft"
  const WrongParameters: string := "Wrong parameters"
  const DraftUpdated: string := "Draft updated"
  const DraftCreated: string := "Draft created"
  const DraftPublished: string := "Draft has been published"
  const NewStoryPublished: string := "New story has been published"
  const InvalidDelete: string :=
    "Request is invalid, check if you are the author of the story and the id is a valid one"
  const StoryDeleted: string := "Story has been deleted"

  /** `now` with its seconds dropped, as the strftime/strptime round trip
      with format "%Y %m %d %H:%M" leaves it. */
  function MinuteOf(now: Timestamp): (t: Timestamp)
    ensures t <= now < t + 60 && t % 60 == 0
  {
    now - now % 60
  }

  /** The `.update(...)` of the rows with `id`: new text and date, and
      `is_draft` cleared when publishing. */
  function Rewrite(store: seq<Story>, id: int, text: string, date: Timestamp, publish: bool): (r: seq<Story>)
    ensures |r| == |store|
  {
    seq(|store|, i requires 0 <= i < |store| =>
      if store[i].id == id then store[i].(text := text, date := date, isDraft := store[i].isDraft && !publish)
      else store[i])
  }

  /** `_get_draft`: open the draft `idStory` for writing. */
  function StartDraft(st: State, idStory: int, userId: Option<string>): Outcome
  {
    var story := FindStory(st.store, idStory);
    if userId.Some? && IsDigits(userId.value) && story.Some? &&
       story.value.authorId == DigitsValue(userId.value) && story.value.isDraft
    then
      Outcome(Response(200, SessionOk),
              State(st.store, Session(Some(Decode(story.value.figures)), Some(story.value.id))))
    else
      Outcome(Response(400, InvalidDraftRequest), st)
  }

  /** The row a new write adds. Its date is `now`: the column default lies
      outside this model. */
  function NewStory(id: int, author: int, text: string, figures: seq<string>, draft: bool, now: Timestamp): Story
  {
    Story(id, author, text, Encode(figures), draft, now)
  }

  /** `_write_story`. A missing key of the body or of the session raises
      KeyError, answered with 400; publishing first runs the validator
      against the session's figures. `newId` is the id the database gives a
      new row. */
  function WriteStory(st: State, req: WriteRequest, now: Timestamp, newId: int): Outcome
  {
    if req.text.None? || req.asDraft.None? || req.userId.None? then
      Outcome(Response(400, WrongParameters), st)
    else
      var text, author, figures := req.text.value, req.userId.value, st.session.figures;
      if req.asDraft.value then
        match st.session.idStory
        case Some(id) =>
          // the update is committed and `id_story` popped before `figures` is
          var store' := Rewrite(st.store, id, text, MinuteOf(now), false);
          if figures.None? then
            Outcome(Response(400, WrongParameters), State(store', st.session.(idStory := None)))
          else
            Outcome(Response(200, DraftUpdated), State(store', NoDraftSession))
        case None =>
          if figures.None? then
            Outcome(Response(400, WrongParameters), st)
          else
            Outcome(Response(201, DraftCreated),
                    State(st.store + [NewStory(newId, author, text, figures.value, true, now)], NoDraftSession))
      else if figures.None? then
        Outcome(Response(400, WrongParameters), st)
      else
        var missing := Cover(figures.value, multiset(Tokens(text)));
        if missing != [] then
          Outcome(Response(422, MissingPrefix + Unwords(missing)), st)
        else
          match st.session.idStory
          case Some(id) =>
            Outcome(Response(201, DraftPublished),
                    State(Rewrite(st.store, id, text, MinuteOf(now), true), NoDraftSession))
          case None =>
            Outcome(Response(201, NewStoryPublished),
                    State(st.store + [NewStory(newId, author, text, figures.value, false, now)], NoDraftSession))
  }

  /** `_manage_stories`. A missing or non-numeric `user_id` is refused before
      the row is looked up; with an all-digits `user_id` the source fails on an
      id with no row, so only then must the row exist. */
  function DeleteStory(st: State, idStory: int, userId: Option<string>): Outcome
    requires userId.Some? && IsDigits(userId.value) ==> HasId(st.store, idStory)
  {
    if userId.None? || !IsDigits(userId.value) then
      Outcome(Response(400, InvalidDelete), st)
    else if FindStory(st.store, idStory).value.authorId != DigitsValue(userId.value) then
      Outcome(Response(400, InvalidDelete), st)
    else
      Outcome(Response(200, StoryDeleted), State(RemoveStory(st.store, idStory), st.session))
  }

  // ---------------------------------------------------------------------
  // Resuming a draft

  /** Only the author of a draft, named by an all-digits `user_id`, may
      resume it; the session then holds the draft's figures and id, and
      nothing else changes. Any other request is refused with 400 and
      changes nothing. */
  lemma StartDraftOnlyForOwnDraft(st: State, k: nat, userId: Option<string>)
    requires UniqueIds(st.store) && k < |st.store|
    ensures var s := st.store[k]; var o := StartDraft(st, s.id, userId);
      && (o.response.status == 200 <==>
            userId.Some? && IsDigits(userId.value) && s.authorId == DigitsValue(userId.value) && s.isDraft)
      && (o.response.status == 200 ==>
            o == Outcome(Response(200, SessionOk), State(st.store, Session(Some(Decode(s.figures)), Some(s.id)))))
      && (o.response.status != 200 ==> o == Outcome(Response(400, InvalidDraftRequest), st))
  {
    FindUnique(st.store, k);
  }

  lemma StartDraftUnknownId(st: State, idStory: int, userId: Option<string>)
    requires !HasId(st.store, idStory)
    ensures StartDraft(st, idStory, userId) == Outcome(Response(400, InvalidDraftRequest), st)
  {
  }

  /** The figures a resumed draft puts in the session encode back to the
      stored field, when that field is framed by '#'. */
  lemma ResumedFiguresEncodeBack(st: State, idStory: int, userId: Option<string>)
    requires StartDraft(st, idStory, userId).response.status == 200
    ensures var s := FindStory(st.store, idStory).value;
      var session := StartDraft(st, idStory, userId).state.session;
      session.figures.Some? &&
      (|s.figures| >= 2 && s.figures[0] == Delimiter && s.figures[|s.figures| - 1] == Delimiter ==>
         Encode(session.figures.value) == s.figures)
  {
    var s := FindStory(st.store, idStory).value;
    if |s.figures| >= 2 && s.figures[0] == Delimiter && s.figures[|s.figures| - 1] == Delimiter {
      EncodeDecode(s.figures);
    }
  }

  // ---------------------------------------------------------------------
  // Writing

  /** The text contains every figure, counted with multiplicity, among its
      lower-cased, punctuation-free words. */
  predicate ContainsAll(text: string, figures: seq<string>)
  {
    multiset(figures) <= multiset(Tokens(text))
  }

  predicate WellFormed(req: WriteRequest)
  {
    req.text.Some? && req.asDraft.Some? && req.userId.Some?
  }

  /** Publishing succeeds exactly when the text contains all the session's
      figures; otherwise the answer is 422 listing what is missing, in the
      figures' order, and neither the table nor the session changes. */
  lemma PublishAcceptedIffContainsAll(st: State, req: WriteRequest, now: Timestamp, newId: int)
    requires WellFormed(req) && !req.asDraft.value && st.session.figures.Some?
    ensures var o := WriteStory(st, req, now, newId);
      var figures, text := st.session.figures.value, req.text.value;
      && (IsSuccess(o.response) <==> ContainsAll(text, figures))
      && (!IsSuccess(o.response) ==>
            var missing := Cover(figures, multiset(Tokens(text)));
            && o == Outcome(Response(422, MissingPrefix + Unwords(missing)), st)
            && multiset(missing) == multiset(figures) - multiset(Tokens(text))
            && IsSubsequence(missing, figures))
  {
    var figures, text := st.session.figures.value, req.text.value;
    CoverEmptyIffContained(figures, multiset(Tokens(text)));
    CoverMultiset(figures, multiset(Tokens(text)));
    CoverIsSubsequence(figures, multiset(Tokens(text)));
  }

  /** A write succeeds exactly when the body has its three keys, the session
      holds figures, and the write is a draft or its text contains them; a
      successful write always leaves the session without either key. */
  lemma WriteSucceedsIff(st: State, req: WriteRequest, now: Timestamp, newId: int)
    ensures var o := WriteStory(st, req, now, newId);
      && (IsSuccess(o.response) <==>
            WellFormed(req) && st.session.figures.Some? &&
            (req.asDraft.value || ContainsAll(req.text.value, st.session.figures.value)))
      && (IsSuccess(o.response) ==> o.state.session == NoDraftSession)
  {
    if WellFormed(req) && st.session.figures.Some? && !req.asDraft.value {
      PublishAcceptedIffContainsAll(st, req, now, newId);
    }
  }

  /** A refused write changes nothing, with one exception taken from the
      source: saving a draft update without `figures` in the session commits
      the update and drops `id_story` before the missing key is noticed. */
  lemma FailedWriteChangesNothingElse(st: State, req: WriteRequest, now: Timestamp, newId: int)
    ensures var o := WriteStory(st, req, now, newId);
      !IsSuccess(o.response) ==>
        o.state == st ||
        (o.response == Response(400, WrongParameters) && req.asDraft == Some(true) &&
         st.session.idStory.Some? && st.session.figures.None? &&
         o.state == State(Rewrite(st.store, st.session.idStory.value, req.text.value, MinuteOf(now), false),
                          NoDraftSession))
  {
  }

  /** Saving a draft while `id_story` is in the session rewrites only the
      text and date of that story: no row is added or removed, `is_draft`,
      authors and figures stay, and both session keys are removed. */
  lemma DraftUpdateChangesOnlyTextAndDate(st: State, req: WriteRequest, now: Timestamp, newId: int)
    requires WellFormed(req) && req.asDraft.value
    requires st.session.idStory.Some? && st.session.figures.Some?
    ensures var o := WriteStory(st, req, now, newId); var id := st.session.idStory.value;
      && o.response == Response(200, DraftUpdated)
      && o.state.session == NoDraftSession
      && |o.state.store| == |st.store|
      && forall i :: 0 <= i < |st.store| ==>
           var before, after := st.store[i], o.state.store[i];
           && after.id == before.id && after.authorId == before.authorId
           && after.figures == before.figures && after.isDraft == before.isDraft
           && (before.id == id ==> after.text == req.text.value && after.date == MinuteOf(now))
           && (before.id != id ==> after == before)
  {
  }

  /** A write without `id_story` that succeeds appends exactly one row that
      carries the session's figures, is a draft exactly when asked, and is
      answered with 201. */
  lemma NewWriteAppendsOneStory(st: State, req: WriteRequest, now: Timestamp, newId: int)
    requires WellFormed(req) && st.session.idStory.None? && st.session.figures.Some?
    requires req.asDraft.value || ContainsAll(req.text.value, st.session.figures.value)
    ensures var o := WriteStory(st, req, now, newId);
      && o.state.store == st.store + [Story(newId, req.userId.value, req.text.value,
                                            Encode(st.session.figures.value), req.asDraft.value, now)]
      && o.response == Response(201, if req.asDraft.value then DraftCreated else NewStoryPublished)
      && o.state.session == NoDraftSession
  {
    if !req.asDraft.value {
      PublishAcceptedIffContainsAll(st, req, now, newId);
    }
  }

  /** Publishing the session's draft clears `is_draft` of that story and sets
      its text and date, with 201; no row is added. */
  lemma PublishDraftClearsDraftFlag(st: State, req: WriteRequest, now: Timestamp, newId: int)
    requires WellFormed(req) && !req.asDraft.value
    requires st.session.idStory.Some? && st.session.figures.Some?
    requires ContainsAll(req.text.value, st.session.figures.value)
    ensures var o := WriteStory(st, req, now, newId); var id := st.session.idStory.value;
      && o.response == Response(201, DraftPublished)
      && o.state.session == NoDraftSession
      && |o.state.store| == |st.store|
      && forall i :: 0 <= i < |st.store| ==>
           var before, after := st.store[i], o.state.store[i];
           && after.id == before.id && after.authorId == before.authorId && after.figures == before.figures
           && (before.id == id ==> !after.isDraft && after.text == req.text.value && after.date == MinuteOf(now))
           && (before.id != id ==> after == before)
  {
    PublishAcceptedIffContainsAll(st, req, now, newId);
  }

  /** No write removes a row or changes a row's id, author or figures: a
      story's figures are fixed when it is created. */
  lemma WriteKeepsIdentityOfRows(st: State, req: WriteRequest, now: Timestamp, newId: int)
    ensures var o := WriteStory(st, req, now, newId);
      && |st.store| <= |o.state.store| <= |st.store| + 1
      && forall i :: 0 <= i < |st.store| ==>
           o.state.store[i].id == st.store[i].id &&
           o.state.store[i].authorId == st.store[i].authorId &&
           o.state.store[i].figures == st.store[i].figures
  {
  }

  /** Given a fresh id for new rows, a write keeps ids unique. */
  lemma WritePreservesUniqueIds(st: State, req: WriteRequest, now: Timestamp, newId: int)
    requires UniqueIds(st.store) && !HasId(st.store, newId)
    ensures UniqueIds(WriteStory(st, req, now, newId).state.store)
  {
    var o := WriteStory(st, req, now, newId);
    WriteKeepsIdentityOfRows(st, req, now, newId);
    if |o.state.store| == |st.store| + 1 {
      assert o.state.store[|st.store|].id == newId;
      forall i, j | 0 <= i < j < |o.state.store|
        ensures o.state.store[i].id != o.state.store[j].id
      {
        if j == |st.store| {
          assert st.store[i] in st.store;
        }
      }
    }
  }

  /** A draft resumed through `_get_draft` and then published carries a
      text that contains its own stored figures: the session's figures were
      read from the story itself. */
  lemma ResumedDraftPublishedContainsItsFigures(st: State, k: nat, userId: Option<string>,
                                                 req: WriteRequest, now: Timestamp, newId: int)
    requires UniqueIds(st.store) && k < |st.store|
    requires StartDraft(st, st.store[k].id, userId).response.status == 200
    requires WellFormed(req) && !req.asDraft.value
    requires IsSuccess(WriteStory(StartDraft(st, st.store[k].id, userId).state, req, now, newId).response)
    ensures var after := WriteStory(StartDraft(st, st.store[k].id, userId).state, req, now, newId).state.store[k];
      && !after.isDraft && after.figures == st.store[k].figures
      && ContainsAll(after.text, Decode(after.figures))
  {
    var s := st.store[k];
    StartDraftOnlyForOwnDraft(st, k, userId);
    var mid := StartDraft(st, s.id, userId).state;
    WriteSucceedsIff(mid, req, now, newId);
    PublishDraftClearsDraftFlag(mid, req, now, newId);
  }

  /** When the session's figures are not the story's own (the session was
      filled some other way), publishing the draft checks the text against
      the session's figures only: here a draft whose stored figure is "cat"
      is published with an empty text. */
  lemma PublishedDraftNeedNotContainItsFigures()
    ensures var story := Story(1, 3, "", Encode(["cat"]), true, 0);
      var st := State([story], Session(Some([]), Some(1)));
      var o := WriteStory(st, WriteRequest(Some(""), Some(false), Some(3)), 0, 2);
      && o.response == Response(201, DraftPublished)
      && !o.state.store[0].isDraft
      && !ContainsAll(o.state.store[0].text, Decode(o.state.store[0].figures))
  {
    var story := Story(1, 3, "", Encode(["cat"]), true, 0);
    var st := State([story], Session(Some([]), Some(1)));
    var req := WriteRequest(Some(""), Some(false), Some(3));
    DecodeEncode(["cat"]);
    assert Tokens("") == [];
    assert ContainsAll("", []);
    PublishDraftClearsDraftFlag(st, req, 0, 2);
    assert multiset(Tokens(""))["cat"] == 0;
  }

  /** Resume a draft, publish it with a text containing its figures, then
      send the same write again: the first write publishes the story and
      empties the session, so the second finds no figures and gets 400. */
  lemma ResumePublishRepeat(st: State, k: nat, userId: string, text: string, now: Timestamp, newId: int)
    requires UniqueIds(st.store) && k < |st.store|
    requires st.store[k].isDraft && IsDigits(userId) && st.store[k].authorId == DigitsValue(userId)
    requires ContainsAll(text, Decode(st.store[k].figures))
    ensures var req := WriteRequest(Some(text), Some(false), Some(DigitsValue(userId)));
      var o1 := StartDraft(st, st.store[k].id, Some(userId));
      var o2 := WriteStory(o1.state, req, now, newId);
      var o3 := WriteStory(o2.state, req, now, newId);
      && o1.response == Response(200, SessionOk)
      && o2.response == Response(201, DraftPublished)
      && !o2.state.store[k].isDraft && o2.state.store[k].text == text
      && |o2.state.store| == |st.store|
      && o2.state.session == NoDraftSession
      && o3 == Outcome(Response(400, WrongParameters), o2.state)
  {
    var req := WriteRequest(Some(text), Some(false), Some(DigitsValue(userId)));
    StartDraftOnlyForOwnDraft(st, k, Some(userId));
    var o1 := StartDraft(st, st.store[k].id, Some(userId));
    PublishDraftClearsDraftFlag(o1.state, req, now, newId);
  }

  // ---------------------------------------------------------------------
  // Deleting

  /** Only the author, named by an all-digits `user_id`, may delete a story;
      then exactly that row goes and the order of the others is kept.
      Otherwise the answer is 400 and nothing changes. */
  lemma DeleteOnlyByAuthor(st: State, k: nat, userId: Option<string>)
    requires UniqueIds(st.store) && k < |st.store|
    ensures var s := st.store[k]; var o := DeleteStory(st, s.id, userId);
      && (o.response.status == 200 <==>
            userId.Some? && IsDigits(userId.value) && s.authorId == DigitsValue(userId.value))
      && (o.response.status == 200 ==>
            o == Outcome(Response(200, StoryDeleted), State(st.store[..k] + st.store[k + 1..], st.session)) &&
            |o.state.store| == |st.store| - 1)
      && (o.response.status != 200 ==> o == Outcome(Response(400, InvalidDelete), st))
  {
    FindUnique(st.store, k);
    RemoveUnique(st.store, k);
  }

  /** A missing or non-numeric `user_id` is refused before the row is looked
      up, so any id, one no row has included, gets 400 and nothing changes. */
  lemma DeleteWithoutNumericUserRefused(st: State, idStory: int, userId: Option<string>)
    requires userId.None? || !IsDigits(userId.value)
    ensures DeleteStory(st, idStory, userId) == Outcome(Response(400, InvalidDelete), st)
  {
  }
}
