/** The story record of the stories service and the lookups its handlers
    make on the table of stories, which is modelled as a sequence of rows in
    insertion order. */
module Stories {
  import opened Http

  /** Seconds since `datetime.min` (0001-01-01 00:00:00), so that the
      default lower bound of a range query is 0. */
  type Timestamp = nat

  const SecondsPerDay: nat := 86400

  datatype Story = Story(
    id: int,
    authorId: int,
    text: string,
    figures: string,   // the required words, framed as "#w1#w2#...#"
    isDraft: bool,
    date: Timestamp)

  /** The database's primary-key guarantee. */
  predicate UniqueIds(store: seq<Story>)
  {
    forall i, j :: 0 <= i < j < |store| ==> store[i].id != store[j].id
  }

  predicate HasId(store: seq<Story>, id: int)
  {
    exists s :: s in store && s.id == id
  }

  /** `Story.query.filter(Story.id == id).first()`. */
  function FindStory(store: seq<Story>, id: int): (r: Option<Story>)
    ensures r.Some? <==> HasId(store, id)
    ensures r.Some? ==> r.value in store && r.value.id == id
  {
    if store == [] then None
    else if store[0].id == id then Some(store[0])
    else
      var r := FindStory(store[1..], id);
      assert forall s :: s in store[1..] ==> s in store;
      assert HasId(store, id) ==> HasId(store[1..], id) by {
        if HasId(store, id) {
          var s :| s in store && s.id == id;
          assert s == store[0] || s in store[1..];
        }
      }
      r
  }

  /** With unique ids the row found is the one row carrying that id. */
  lemma FindUnique(store: seq<Story>, k: nat)
    requires UniqueIds(store)
    requires k < |store|
    ensures FindStory(store, store[k].id) == Some(store[k])
  {
    var r := FindStory(store, store[k].id);
    var j :| 0 <= j < |store| && store[j] == r.value;
    assert j == k;
  }

  /** `story_to_delete.delete()`: every row carrying `id` is dropped. */
  function RemoveStory(store: seq<Story>, id: int): (r: seq<Story>)
    ensures forall s :: s in r <==> s in store && s.id != id
    ensures |r| <= |store|
  {
    if store == [] then []
    else if store[0].id == id then RemoveStory(store[1..], id)
    else [store[0]] + RemoveStory(store[1..], id)
  }

  /** With unique ids, deleting removes exactly the one target row and keeps
      the order of the others. */
  lemma {:induction false} RemoveUnique(store: seq<Story>, k: nat)
    requires UniqueIds(store)
    requires k < |store|
    ensures RemoveStory(store, store[k].id) == store[..k] + store[k + 1..]
    decreases |store|
  {
    var tail := store[1..];
    assert store == [store[0]] + tail;
    UniqueTail(store);
    if k == 0 {
      RemoveAbsent(tail, store[0].id);
    } else {
      RemoveUnique(tail, k - 1);
      assert store[..k] == [store[0]] + tail[..k - 1];
      assert store[k + 1..] == tail[k..];
    }
  }

  /** The rows after the first keep unique ids, none equal to the first's. */
  lemma UniqueTail(store: seq<Story>)
    requires UniqueIds(store) && |store| > 0
    ensures UniqueIds(store[1..])
    ensures forall i :: 0 <= i < |store[1..]| ==> store[1..][i].id != store[0].id
  {
    var tail := store[1..];
    forall i, j | 0 <= i < j < |tail| ensures tail[i].id != tail[j].id {
      assert tail[i] == store[i + 1] && tail[j] == store[j + 1];
    }
    forall i | 0 <= i < |tail| ensures tail[i].id != store[0].id {
      assert tail[i] == store[i + 1];
    }
  }

  lemma {:induction false} RemoveAbsent(store: seq<Story>, id: int)
    requires forall i :: 0 <= i < |store| ==> store[i].id != id
    ensures RemoveStory(store, id) == store
    decreases |store|
  {
    if store != [] {
      RemoveAbsent(store[1..], id);
    }
  }

  /** Python's `str.isdigit` on ASCII text. */
  predicate IsDigits(s: string)
  {
    |s| > 0 && forall i :: 0 <= i < |s| ==> '0' <= s[i] <= '9'
  }

  /** `int(s)` for a string of decimal digits. */
  function DigitsValue(s: string): nat
    requires IsDigits(s)
    decreases |s|
  {
    var d := s[|s| - 1] as int - '0' as int;
    if |s| == 1 then d else DigitsValue(s[..|s| - 1]) * 10 + d
  }
}
