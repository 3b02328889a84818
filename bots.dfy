/** Bot listing and the find-or-create workflow for the demo's bot. */
module Bots {
  import opened Wrappers
  import opened Seqs
  import opened Remote
  import opened Workspaces

  /** A bot record as the bot listing returns it. */
  datatype SimpleBot = SimpleBot(botId: string, botName: string, description: string, iconUrl: string, publishTime: string)

  /** What bot creation returns. */
  datatype NewBot = NewBot(botId: string)

  /** The arguments of a bot-creation call. */
  datatype CreateRequest = CreateRequest(spaceId: string, name: string, description: string)

  /** The arguments of a publishing call. */
  datatype PublishRequest = PublishRequest(botId: string, connectorIds: seq<string>)

  /** A call that changes remote state. */
  datatype Write = Create(create: CreateRequest) | Publish(publish: PublishRequest)

  /** The outcome of the find-or-create workflow and the writes it issued, in order. */
  datatype Provision = Provision(result: Result<SimpleBot, Error>, writes: seq<Write>)

  /** The bot walk requests pages of this many records. */
  const BotPageSize: nat := 20

  const RealtimeBotName := "realtime-call-up"
  const RealtimeBotDescription := "A bot for realtime call up demo"
  /** The single connector channel the new bot is published to. */
  const ApiConnector := "API"

  /** The search predicate of the bot walk: exact name equality. */
  function NameIs(name: string): SimpleBot -> bool {
    (b: SimpleBot) => b.botName == name
  }

  /** Walks the bot pages of workspace `workspaceId` and returns the first bot
      named `botName`; null once a page that is not full holds none.
      `bots(id)` is the bot listing of workspace `id`. */
  method GetBotByName(bots: string -> Listing<SimpleBot>, workspaceId: string, botName: string)
    returns (r: Result<Option<SimpleBot>, Error>)
    ensures r == Search(bots(workspaceId), BotPageSize, NameIs(botName))
  {
    var l := bots(workspaceId);
    var pageIndex := 1;
    var hasMore := true;
    while hasMore
      invariant pageIndex >= 1
      invariant FullBefore(l, BotPageSize, pageIndex - 1)
      invariant hasMore <==> pageIndex == 1 || IsFull(Fetch(l, pageIndex - 1), BotPageSize)
      invariant pageIndex > 1 ==> !Failed(Fetch(l, pageIndex - 1))
      invariant NoMatch(Gathered(l, pageIndex - 1), NameIs(botName))
      decreases if hasMore then PagesLeft(l, pageIndex) + 1 else 0
    {
      var response := Fetch(l, pageIndex);
      if Failed(response) {
        SearchMiss(l, BotPageSize, NameIs(botName), pageIndex);
        return Failure(Thrown(response.value.message));
      }
      var items := ItemsOf(response);
      for j := 0 to |items|
        invariant NoMatch(items[..j], NameIs(botName))
      {
        if items[j].botName == botName {
          SearchHit(l, BotPageSize, NameIs(botName), pageIndex, j);
          return Success(Some(items[j]));
        }
        assert items[..j + 1] == items[..j] + [items[j]];
        NoMatchConcat(items[..j], [items[j]], NameIs(botName));
      }
      assert items[..|items|] == items;
      NoMatchConcat(Gathered(l, pageIndex - 1), items, NameIs(botName));
      hasMore := IsFull(response, BotPageSize);
      pageIndex := pageIndex + 1;
    }
    SearchMiss(l, BotPageSize, NameIs(botName), pageIndex - 1);
    return Success(None);
  }

  /** The find-or-create workflow as a decision over what the remote answers:
      the workspace listing, the bot listing of each workspace, the answer to a
      creation call and the answer to a publishing call. */
  function GetOrCreateRealtimeCallUpBot(
    workspaces: Listing<Workspace>,
    bots: string -> Listing<SimpleBot>,
    create: CreateRequest -> Result<Option<NewBot>, Error>,
    publish: PublishRequest -> Outcome<Error>): (p: Provision)
    ensures p.result.Success? ==> p.result.value.botName == RealtimeBotName
    ensures |p.writes| <= 2
    ensures p.writes != [] ==>
              && p.writes[0].Create?
              && p.writes[0].create.name == RealtimeBotName
              && p.writes[0].create.description == RealtimeBotDescription
    ensures |p.writes| == 2 ==> p.writes[1].Publish? && p.writes[1].publish.connectorIds == [ApiConnector]
  {
    match Search(workspaces, WorkspacePageSize, IsPersonal)
    case Failure(e) => Provision(Failure(e), [])
    case Success(None) => Provision(Failure(PersonalWorkspaceNotFound), [])
    case Success(Some(personal)) =>
      match Search(bots(personal.id), BotPageSize, NameIs(RealtimeBotName))
      case Failure(e) => Provision(Failure(e), [])
      case Success(Some(existing)) => Provision(Success(existing), [])
      case Success(None) =>
        var creation := CreateRequest(personal.id, RealtimeBotName, RealtimeBotDescription);
        match create(creation)
        case Failure(e) => Provision(Failure(e), [Create(creation)])
        case Success(None) => Provision(Failure(BotCreationFailed), [Create(creation)])
        case Success(Some(newBot)) =>
          var publishing := PublishRequest(newBot.botId, [ApiConnector]);
          match publish(publishing)
          case Fail(e) => Provision(Failure(e), [Create(creation), Publish(publishing)])
          case Pass => Provision(Success(SimpleBot(newBot.botId, RealtimeBotName, "", "", "")),
                                 [Create(creation), Publish(publishing)])
  }

  /** Without a personal workspace the workflow fails before touching bots:
      with the workspace listing's exception if its last page read threw,
      otherwise with the workflow's own "personal workspace not found". */
  lemma NoPersonalWorkspaceFails(
    workspaces: Listing<Workspace>, bots: string -> Listing<SimpleBot>,
    create: CreateRequest -> Result<Option<NewBot>, Error>, publish: PublishRequest -> Outcome<Error>)
    requires NoMatch(Gathered(workspaces, LastPage(workspaces, WorkspacePageSize, 1)), IsPersonal)
    ensures var k := LastPage(workspaces, WorkspacePageSize, 1);
      GetOrCreateRealtimeCallUpBot(workspaces, bots, create, publish)
        == if Failed(Fetch(workspaces, k))
           then Provision(Failure(Thrown(Fetch(workspaces, k).value.message)), [])
           else Provision(Failure(PersonalWorkspaceNotFound), [])
  {
  }

  /** An exception from the bot listing propagates, and nothing is written. */
  lemma BotListingFailureFails(
    workspaces: Listing<Workspace>, bots: string -> Listing<SimpleBot>,
    create: CreateRequest -> Result<Option<NewBot>, Error>, publish: PublishRequest -> Outcome<Error>,
    personal: Workspace, e: Error)
    requires Search(workspaces, WorkspacePageSize, IsPersonal) == Success(Some(personal))
    requires Search(bots(personal.id), BotPageSize, NameIs(RealtimeBotName)) == Failure(e)
    ensures GetOrCreateRealtimeCallUpBot(workspaces, bots, create, publish) == Provision(Failure(e), [])
  {
  }

  /** A listed bot named realtime-call-up in the personal workspace is
      returned as it is, and nothing is created or published: running the
      workflow again once the created bot is listed creates no duplicate. */
  lemma ExistingBotIsReused(
    workspaces: Listing<Workspace>, bots: string -> Listing<SimpleBot>,
    create: CreateRequest -> Result<Option<NewBot>, Error>, publish: PublishRequest -> Outcome<Error>,
    personal: Workspace, existing: SimpleBot)
    requires Search(workspaces, WorkspacePageSize, IsPersonal) == Success(Some(personal))
    requires Search(bots(personal.id), BotPageSize, NameIs(RealtimeBotName)) == Success(Some(existing))
    ensures GetOrCreateRealtimeCallUpBot(workspaces, bots, create, publish) == Provision(Success(existing), [])
  {
  }

  /** With no such bot listed, the workflow creates one in the personal
      workspace, publishes it to the API connector and returns a record made
      of the new id and the fixed name, other fields blank. */
  lemma MissingBotIsCreated(
    workspaces: Listing<Workspace>, bots: string -> Listing<SimpleBot>,
    create: CreateRequest -> Result<Option<NewBot>, Error>, publish: PublishRequest -> Outcome<Error>,
    personal: Workspace)
    requires Search(workspaces, WorkspacePageSize, IsPersonal) == Success(Some(personal))
    requires Search(bots(personal.id), BotPageSize, NameIs(RealtimeBotName)) == Success(None)
    ensures var p := GetOrCreateRealtimeCallUpBot(workspaces, bots, create, publish);
      var creation := CreateRequest(personal.id, RealtimeBotName, RealtimeBotDescription);
      match create(creation)
      case Failure(e) => p == Provision(Failure(e), [Create(creation)])
      case Success(None) => p == Provision(Failure(BotCreationFailed), [Create(creation)])
      case Success(Some(newBot)) =>
        && p.writes == [Create(creation), Publish(PublishRequest(newBot.botId, [ApiConnector]))]
        && (publish(PublishRequest(newBot.botId, [ApiConnector])).Pass? ==>
              p.result == Success(SimpleBot(newBot.botId, RealtimeBotName, "", "", "")))
        && (publish(PublishRequest(newBot.botId, [ApiConnector])).Fail? ==>
              p.result == Failure(publish(PublishRequest(newBot.botId, [ApiConnector])).error))
  {
  }
}
