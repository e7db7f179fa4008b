/** The stateful handlers of the stories service: the story table and the
    user's session are fields that each handler updates in place, as the
    source does with `db.session` and Flask's `session`. Each method is
    proved to produce the answer and the new state that module Lifecycle
    specifies. */
module Service {
  import opened Http
  import opened Stories
  import opened Validation
  import opened Figures
  import opened Lifecycle

  class StoryService {
    var store: seq<Story>
    var session: Session

    constructor (store: seq<Story>, session: Session)
      ensures this.store == store && this.session == session
    {
      this.store := store;
      this.session := session;
    }

    /** `_get_draft` for a GET with an id. */
    method GetDraft(idStory: int, userId: Option<string>) returns (r: Response)
      modifies this
      ensures Outcome(r, State(store, session)) == StartDraft(State(old(store), old(session)), idStory, userId)
    {
      var story := FindStory(store, idStory);
      if userId.Some? && IsDigits(userId.value) && story.Some? &&
         story.value.authorId == DigitsValue(userId.value) && story.value.isDraft
      {
        session := session.(figures := Some(SplitOn(story.value.figures, Delimiter)));
        var parts := session.figures.value;
        session := session.(figures := Some(if |parts| < 2 then [] else parts[1..|parts| - 1]));
        session := session.(idStory := Some(story.value.id));
        r := Response(200, SessionOk);
      } else {
        r := Response(400, InvalidDraftRequest);
      }
    }

    /** `_write_story` for a POST. */
    method WriteStory(req: WriteRequest, now: Timestamp, newId: int) returns (r: Response)
      modifies this
      ensures Outcome(r, State(store, session)) == Lifecycle.WriteStory(State(old(store), old(session)), req, now, newId)
    {
      if req.text.None? || req.asDraft.None? || req.userId.None? {
        return Response(400, WrongParameters);
      }
      var text, draft, userId := req.text.value, req.asDraft.value, req.userId.value;
      if draft {
        if session.idStory.Some? {
          store := Rewrite(store, session.idStory.value, text, MinuteOf(now), false);
          session := session.(idStory := None);
          r := Response(200, DraftUpdated);
        } else {
          if session.figures.None? {
            return Response(400, WrongParameters);
          }
          store := store + [Story(newId, userId, text, Encode(session.figures.value), true, now)];
          r := Response(201, DraftCreated);
        }
        if session.figures.None? {
          return Response(400, WrongParameters);
        }
        session := session.(figures := None);
      } else {
        if session.figures.None? {
          return Response(400, WrongParameters);
        }
        var missing := MissingFigures(session.figures.value, Tokens(text));
        if |missing| > 0 {
          var message := MissingPrefix;
          var i := 0;
          while i < |missing|
            invariant 0 <= i <= |missing|
            invariant message == MissingPrefix + Unwords(missing[..i])
            invariant store == old(store) && session == old(session)
          {
            UnwordsSnoc(missing[..i], missing[i]);
            assert missing[..i + 1] == missing[..i] + [missing[i]];
            assert MissingPrefix + Unwords(missing[..i]) + missing[i] + " " ==
              MissingPrefix + (Unwords(missing[..i]) + missing[i] + " ");
            message := message + missing[i] + " ";
            i := i + 1;
          }
          assert missing[..i] == missing;
          return Response(422, message);
        }
        if session.idStory.Some? {
          store := Rewrite(store, session.idStory.value, text, MinuteOf(now), true);
          session := session.(idStory := None);
          r := Response(201, DraftPublished);
        } else {
          store := store + [Story(newId, userId, text, Encode(session.figures.value), false, now)];
          r := Response(201, NewStoryPublished);
        }
        session := session.(figures := None);
      }
    }

    /** `_manage_stories`: delete a story on its author's request. */
    method ManageStories(idStory: int, userId: Option<string>) returns (r: Response)
      requires userId.Some? && IsDigits(userId.value) ==> HasId(store, idStory)
      modifies this
      ensures Outcome(r, State(store, session)) == DeleteStory(State(old(store), old(session)), idStory, userId)
    {
      if userId.None? || !IsDigits(userId.value) {
        r := Response(400, InvalidDelete);
      } else if FindStory(store, idStory).value.authorId != DigitsValue(userId.value) {
        r := Response(400, InvalidDelete);
      } else {
        store := RemoveStory(store, idStory);
        r := Response(200, StoryDeleted);
      }
    }
  }
}
