/** The list-state controller of the repository screen: the `repositories`
    state it holds and the two handlers that replace it. */
module AppState {
  import opened Repositories

  /** `Array.prototype.findIndex` with the predicate "record id equals `id`":
      a left-to-right scan that stops at the first match. */
  method FindIndex(a: array<Repo>, id: string) returns (k: int)
    ensures k == FirstIndexOf(a[..], id)
    ensures -1 <= k < a.Length
    ensures k >= 0 ==> a[k].id == id && forall j :: 0 <= j < k ==> a[j].id != id
    ensures k == -1 <==> forall j :: 0 <= j < a.Length ==> a[j].id != id
  {
    var i := 0;
    while i < a.Length
      invariant 0 <= i <= a.Length
      invariant forall j :: 0 <= j < i ==> a[j].id != id
    {
      if a[i].id == id {
        FirstIndexOfIsFirstMatch(a[..], id, i);
        return i;
      }
      i := i + 1;
    }
    k := -1;
    assert FirstIndexOf(a[..], id) == -1;
  }

  /** The screen component and its `repositories` state. The array a field
      holds is never written after it is set: each update installs a new one. */
  class App {
    var repositories: array<Repo>

    /** The records the screen currently shows, in order. */
    ghost function Items(): (s: seq<Repo>)
      reads this, repositories
    {
      repositories[..]
    }

    /** The state starts as an empty list. */
    constructor ()
      ensures Items() == []
    {
      repositories := new Repo[0];
    }

    /** The initial load. A received reply replaces the whole list by its
        body in the service's order (its status is not inspected); a rejected
        request is reported and leaves the list as it was. */
    method FetchRepositories(reply: Reply<seq<Repo>>) returns (reported: bool)
      modifies this
      ensures reported <==> reply.Failed?
      ensures reply.Received? ==> Items() == reply.data && fresh(repositories)
      ensures reply.Failed? ==> repositories == old(repositories) && Items() == old(Items())
    {
      match reply
      case Received(_, data) =>
        var fetched := new Repo[|data|](i requires 0 <= i < |data| => data[i]);
        repositories := fetched;
        reported := false;
      case Failed =>
        reported := true;
    }

    /** The like handler for `id`. Only a received reply with status 200
        changes the state: the current list is copied, the first record with
        a matching id is overwritten in the copy by the reply's body (an
        index of -1 writes no element), and the copy becomes the state. Any
        other outcome is reported and changes nothing. The array held before
        the call is never modified. */
    method HandleLikeRepository(id: string, reply: Reply<Repo>) returns (reported: bool)
      modifies this
      ensures reported <==> !(reply.Received? && reply.status == LikeOk)
      ensures !reported ==> Items() == LikeUpdated(old(Items()), id, reply.data)
      ensures !reported ==> fresh(repositories)
      ensures reported ==> repositories == old(repositories) && Items() == old(Items())
      ensures unchanged(old(repositories))
    {
      if reply.Received? && reply.status == LikeOk {
        var newRepository := reply.data;
        var current := repositories;
        var newRepositories := new Repo[current.Length](i requires 0 <= i < current.Length reads current => current[i]);
        assert newRepositories[..] == current[..];
        var repositoryIndex := FindIndex(newRepositories, id);
        if repositoryIndex >= 0 {
          newRepositories[repositoryIndex] := newRepository;
        }
        repositories := newRepositories;
        reported := false;
      } else {
        reported := true;
      }
    }
  }

  /** Two records loaded, then a like for the second: only the second
      changes, and a later failed like leaves the list alone. */
  method LikeScenario()
  {
    var one := Repo("1", "A", ["js"], 0);
    var two := Repo("2", "B", ["ts"], 3);
    var app := new App();
    var reported := app.FetchRepositories(Received(200, [one, two]));
    assert app.Items() == [one, two];
    var liked := two.(likes := 4);
    reported := app.HandleLikeRepository("2", Received(200, liked));
    assert FirstIndexOf([one, two], "2") == 1;
    assert app.Items() == [one, liked];
    reported := app.HandleLikeRepository("1", Received(500, one));
    assert reported && app.Items() == [one, liked];
  }
}
