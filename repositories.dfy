/** The repository records the screen holds, and the value-level meaning of
    the two updates the screen applies to its list of them. */
module Repositories {

  /** One repository record as the remote service returns it. The service
      owns `id` and `likes`; the client only ever replaces a whole record. */
  datatype Repo = Repo(id: string, title: string, techs: seq<string>, likes: int)

  /** The outcome of one request to the remote service: either a response
      arrived (with its status code and parsed body), or the request's
      promise was rejected (transport failure, or a status the client
      library itself refuses). */
  datatype Reply<T> = Received(status: int, data: T) | Failed

  /** Status code the like handler accepts as success. */
  const LikeOk: int := 200

  /** Every id occurs at most once in the list. The service is expected to
      keep this; the client never checks it. */
  ghost predicate UniqueIds(s: seq<Repo>)
  {
    forall i, j :: 0 <= i < j < |s| ==> s[i].id != s[j].id
  }

  /** The index `Array.prototype.findIndex` yields when searching for the
      first record with the given id: -1 when there is none. */
  function FirstIndexOf(s: seq<Repo>, id: string): (k: int)
    ensures -1 <= k < |s|
    ensures k >= 0 ==> s[k].id == id
    ensures forall j :: 0 <= j < |s| && (k < 0 || j < k) ==> s[j].id != id
    decreases |s|
  {
    if |s| == 0 then -1
    else if s[0].id == id then 0
    else
      var k' := FirstIndexOf(s[1..], id);
      if k' < 0 then -1 else k' + 1
  }

  /** The element assignment `a[k] = v` with `k` a result of findIndex: an
      index writes that element; -1 only attaches a non-index property to the
      JavaScript array, so no element changes. */
  function AssignAt(s: seq<Repo>, k: int, v: Repo): (r: seq<Repo>)
    requires -1 <= k < |s|
    ensures |r| == |s|
    ensures forall j :: 0 <= j < |s| && j != k ==> r[j] == s[j]
    ensures 0 <= k ==> r[k] == v
  {
    if k < 0 then s else s[k := v]
  }

  /** The list after a like response with status 200 for `id` whose body is
      `body`: the first record with that id is replaced by the body. */
  function LikeUpdated(s: seq<Repo>, id: string, body: Repo): (r: seq<Repo>)
    ensures |r| == |s|
  {
    AssignAt(s, FirstIndexOf(s, id), body)
  }

  /** Independent, recursive statement of "replace the first record whose
      id matches", used as a reference for LikeUpdated. */
  function ReplaceFirst(s: seq<Repo>, id: string, body: Repo): (r: seq<Repo>)
    decreases |s|
  {
    if s == [] then []
    else if s[0].id == id then [body] + s[1..]
    else [s[0]] + ReplaceFirst(s[1..], id, body)
  }

  /** A matching record with no match before it is the one FirstIndexOf
      names. */
  lemma FirstIndexOfIsFirstMatch(s: seq<Repo>, id: string, i: int)
    requires 0 <= i < |s| && s[i].id == id
    requires forall j :: 0 <= j < i ==> s[j].id != id
    ensures FirstIndexOf(s, id) == i
  {
  }

  /** With a matching record at `i` and none before it, the like update
      writes the body at `i` and changes nothing else. */
  lemma LikeReplacesFirstMatch(s: seq<Repo>, id: string, body: Repo, i: int)
    requires 0 <= i < |s| && s[i].id == id
    requires forall j :: 0 <= j < i ==> s[j].id != id
    ensures LikeUpdated(s, id, body) == s[i := body]
  {
    FirstIndexOfIsFirstMatch(s, id, i);
  }

  /** When no record has the id, the like update changes nothing. */
  lemma LikeAbsentIsNoop(s: seq<Repo>, id: string, body: Repo)
    requires forall j :: 0 <= j < |s| ==> s[j].id != id
    ensures LikeUpdated(s, id, body) == s
  {
  }

  /** A later occurrence of the same id is never touched: only the first
      occurrence is replaced. */
  lemma LikeLeavesLaterDuplicates(s: seq<Repo>, id: string, body: Repo, i: int, j: int)
    requires 0 <= i < j < |s| && s[i].id == id && s[j].id == id
    ensures LikeUpdated(s, id, body)[j] == s[j]
  {
  }

  /** The like update agrees with the recursive reference definition. */
  lemma {:induction false} LikeMatchesReplaceFirst(s: seq<Repo>, id: string, body: Repo)
    ensures LikeUpdated(s, id, body) == ReplaceFirst(s, id, body)
    decreases |s|
  {
    if s == [] {
    } else if s[0].id == id {
      assert FirstIndexOf(s, id) == 0;
    } else {
      var t := s[1..];
      LikeMatchesReplaceFirst(t, id, body);
      var k' := FirstIndexOf(t, id);
      assert s == [s[0]] + t;
      if k' < 0 {
        assert LikeUpdated(s, id, body) == s;
        assert LikeUpdated(t, id, body) == t;
      } else {
        assert FirstIndexOf(s, id) == k' + 1;
        assert LikeUpdated(s, id, body) == [s[0]] + t[k' := body];
      }
    }
  }

  /** Writing a record whose id matches `y` exactly when the one it replaces
      did leaves the first index of `y` where it was. */
  lemma {:induction false} FirstIndexOfAfterWrite(s: seq<Repo>, i: int, v: Repo, y: string)
    requires 0 <= i < |s|
    requires (s[i].id == y) == (v.id == y)
    ensures FirstIndexOf(s[i := v], y) == FirstIndexOf(s, y)
    decreases |s|
  {
    var t := s[i := v];
    if i == 0 {
      if s[0].id != y {
        assert t[1..] == s[1..];
      }
    } else if s[0].id != y {
      FirstIndexOfAfterWrite(s[1..], i - 1, v, y);
      assert t[1..] == s[1..][i - 1 := v];
    }
  }

  /** The server's record for `id` carries `id`; then the like update keeps
      the ids of the list unique. */
  lemma LikeKeepsIdsUnique(s: seq<Repo>, id: string, body: Repo)
    requires UniqueIds(s) && body.id == id
    ensures UniqueIds(LikeUpdated(s, id, body))
  {
    var k := FirstIndexOf(s, id);
    var r := LikeUpdated(s, id, body);
    if k >= 0 {
      forall i, j | 0 <= i < j < |r| ensures r[i].id != r[j].id {
        assert r[i].id == s[i].id && r[j].id == s[j].id;
      }
    }
  }

  /** Two status-200 responses for the same id, applied in arrival order,
      the first carrying that id: the one handled last decides the record,
      whatever the first said. */
  lemma LikeLastResponseWins(s: seq<Repo>, id: string, first: Repo, second: Repo)
    requires first.id == id
    ensures LikeUpdated(LikeUpdated(s, id, first), id, second) == LikeUpdated(s, id, second)
  {
    var k := FirstIndexOf(s, id);
    if k >= 0 {
      FirstIndexOfAfterWrite(s, k, first, id);
    }
  }

  /** Responses for two different ids, each carrying its own id, handled one
      after the other (each on the list the previous one installed), give
      the same list in either order. */
  lemma LikeDifferentIdsCommute(s: seq<Repo>, x: string, xb: Repo, y: string, yb: Repo)
    requires x != y && xb.id == x && yb.id == y
    ensures LikeUpdated(LikeUpdated(s, x, xb), y, yb)
         == LikeUpdated(LikeUpdated(s, y, yb), x, xb)
  {
    var i := FirstIndexOf(s, x);
    var j := FirstIndexOf(s, y);
    if i >= 0 {
      FirstIndexOfAfterWrite(s, i, xb, y);
    }
    if j >= 0 {
      FirstIndexOfAfterWrite(s, j, yb, x);
    }
    if i >= 0 && j >= 0 {
      assert i != j;
      assert s[i := xb][j := yb] == s[j := yb][i := xb];
    }
  }
}
