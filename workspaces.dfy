/** Workspace listing: the search for the personal workspace and the
    accumulation of every workspace as a display option. */
module Workspaces {
  import opened Wrappers
  import opened Seqs
  import opened Remote

  /** A workspace record of the platform (only the fields the model reads). */
  datatype Workspace = Workspace(id: string, name: string, workspaceType: string)

  /** The display projection of a workspace. */
  datatype WorkspaceOption = WorkspaceOption(value: string, caption: string)

  /** Both workspace walks request pages of this many records. */
  const WorkspacePageSize: nat := 50

  /** The workspace type that marks a single-user workspace. */
  const PersonalType := "personal"

  predicate IsPersonal(w: Workspace) {
    w.workspaceType == PersonalType
  }

  /** The projection of one workspace: its id as value, its name as caption (the `label` field). */
  function ToOption(w: Workspace): (o: WorkspaceOption) {
    WorkspaceOption(w.id, w.name)
  }

  /** The projection of a list of workspaces, element by element. */
  function ToOptions(ws: seq<Workspace>): (os: seq<WorkspaceOption>)
    ensures |os| == |ws|
    ensures forall i :: 0 <= i < |ws| ==> os[i].value == ws[i].id && os[i].caption == ws[i].name
  {
    seq(|ws|, i requires 0 <= i < |ws| => ToOption(ws[i]))
  }

  /** Projecting two lists one after the other is projecting their concatenation. */
  lemma ToOptionsConcat(a: seq<Workspace>, b: seq<Workspace>)
    ensures ToOptions(a + b) == ToOptions(a) + ToOptions(b)
  {
    assert forall i :: 0 <= i < |a + b| ==> ToOptions(a + b)[i] == (ToOptions(a) + ToOptions(b))[i];
  }

  /** Walks the workspace pages 1, 2, ... and returns the first personal
      workspace; null once a page that is not full holds none. */
  method GetPersonalWorkspace(l: Listing<Workspace>) returns (r: Result<Option<Workspace>, Error>)
    ensures r == Search(l, WorkspacePageSize, IsPersonal)
  {
    var pageNum := 1;
    var hasMore := true;
    while hasMore
      invariant pageNum >= 1
      invariant FullBefore(l, WorkspacePageSize, pageNum - 1)
      invariant hasMore <==> pageNum == 1 || IsFull(Fetch(l, pageNum - 1), WorkspacePageSize)
      invariant pageNum > 1 ==> !Failed(Fetch(l, pageNum - 1))
      invariant NoMatch(Gathered(l, pageNum - 1), IsPersonal)
      decreases if hasMore then PagesLeft(l, pageNum) + 1 else 0
    {
      var workspaces := Fetch(l, pageNum);
      if Failed(workspaces) {
        SearchMiss(l, WorkspacePageSize, IsPersonal, pageNum);
        return Failure(Thrown(workspaces.value.message));
      }
      var items := ItemsOf(workspaces);
      for j := 0 to |items|
        invariant NoMatch(items[..j], IsPersonal)
      {
        if IsPersonal(items[j]) {
          SearchHit(l, WorkspacePageSize, IsPersonal, pageNum, j);
          return Success(Some(items[j]));
        }
        assert items[..j + 1] == items[..j] + [items[j]];
        NoMatchConcat(items[..j], [items[j]], IsPersonal);
      }
      assert items[..|items|] == items;
      NoMatchConcat(Gathered(l, pageNum - 1), items, IsPersonal);
      hasMore := IsFull(workspaces, WorkspacePageSize);
      pageNum := pageNum + 1;
    }
    SearchMiss(l, WorkspacePageSize, IsPersonal, pageNum - 1);
    return Success(None);
  }

  /** Walks the workspace pages 1, 2, ... and returns the projection of every
      workspace read, after `passes` passes of the loop. */
  method FetchAllWorkspaces(l: Listing<Workspace>) returns (r: Result<seq<WorkspaceOption>, Error>, ghost passes: nat)
    ensures passes == LastPage(l, WorkspacePageSize, 1)
    ensures r == match Collect(l, WorkspacePageSize)
      case Success(ws) => Success(ToOptions(ws))
      case Failure(e) => Failure(e)
  {
    var pageNum := 1;
    var allWorkspaces: seq<WorkspaceOption> := [];
    var hasMore := true;
    while hasMore
      invariant pageNum >= 1
      invariant FullBefore(l, WorkspacePageSize, pageNum - 1)
      invariant hasMore <==> pageNum == 1 || IsFull(Fetch(l, pageNum - 1), WorkspacePageSize)
      invariant pageNum > 1 ==> !Failed(Fetch(l, pageNum - 1))
      invariant allWorkspaces == ToOptions(Gathered(l, pageNum - 1))
      decreases if hasMore then PagesLeft(l, pageNum) + 1 else 0
    {
      var response := Fetch(l, pageNum);
      if Failed(response) {
        LastPageIs(l, WorkspacePageSize, pageNum);
        return Failure(Thrown(response.value.message)), pageNum;
      }
      var workspaces := ToOptions(ItemsOf(response));
      ToOptionsConcat(Gathered(l, pageNum - 1), ItemsOf(response));
      allWorkspaces := allWorkspaces + workspaces;
      hasMore := IsFull(response, WorkspacePageSize);
      pageNum := pageNum + 1;
    }
    LastPageIs(l, WorkspacePageSize, pageNum - 1);
    return Success(allWorkspaces), pageNum - 1;
  }

  /** Pages of 50, 50 and 30 workspaces: three passes, 130 options. Pages of
      50 and 50: three passes, the last one answered by an empty page. */
  lemma BoundaryPages(a: seq<Workspace>, b: seq<Workspace>, c: seq<Workspace>)
    requires |a| == 50 && |b| == 50 && |c| == 30
    ensures LastPage(Pages([Listed(a), Listed(b), Listed(c)]), WorkspacePageSize, 1) == 3
    ensures Collect(Pages([Listed(a), Listed(b), Listed(c)]), WorkspacePageSize) == Success(a + b + c)
    ensures LastPage(Pages([Listed(a), Listed(b)]), WorkspacePageSize, 1) == 3
    ensures Collect(Pages([Listed(a), Listed(b)]), WorkspacePageSize) == Success(a + b)
  {
    var three := [Listed(a), Listed(b), Listed(c)];
    CompleteListing(three, WorkspacePageSize);
    assert AllItems(three) == a + b + c by {
      assert three[1..] == [Listed(b), Listed(c)];
      assert [Listed(b), Listed(c)][1..] == [Listed(c)];
      assert AllItems([Listed(c)]) == c + AllItems([]) == c;
      assert AllItems([Listed(b), Listed(c)]) == b + c;
    }
    var two := [Listed(a), Listed(b)];
    CompleteListing(two, WorkspacePageSize);
    assert AllItems(two) == a + b by {
      assert two[1..] == [Listed(b)];
      assert AllItems([Listed(b)]) == b + AllItems([]) == b;
    }
  }
}
