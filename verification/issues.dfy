/** `handleIssues` (handlers/issues.go): the pipeline run for each accepted `issues` event.
    The GitHub client is an oracle: `getIssue` and `updateIssue` say how the remote side
    answers each call, and the handler returns the trace of what it did — its client calls
    and its log lines, in order. */
module Issues {
  import opened Results
  import opened Text
  import opened Models
  import opened Story
  import opened Checklist

  /** How the remote GitHub API answers: the fetched issue or an error, and for an update
      `None` on success or the error text. */
  datatype Client = Client(
    getIssue: string -> Result<Issue>,
    updateIssue: (string, IssueUpdate) -> Option<string>
  )

  /** One observable step of the handler. */
  datatype Action =
    | Log(line: string)
    | GetIssue(url: string)
    | UpdateIssue(url: string, update: IssueUpdate)

  /** The client calls in a trace, in order, without the log lines. */
  function Calls(trace: seq<Action>): (calls: seq<Action>)
    ensures |calls| <= |trace|
    ensures forall i :: 0 <= i < |calls| ==> !calls[i].Log?
  {
    if trace == [] then []
    else if trace[0].Log? then Calls(trace[1..])
    else [trace[0]] + Calls(trace[1..])
  }

  lemma CallsOfFour(a: Action, b: Action, c: Action, d: Action)
    requires a.Log? && !b.Log? && !c.Log? && d.Log?
    ensures Calls([a, b, c, d]) == [b, c]
  {
    assert [a, b, c, d][1..] == [b, c, d];
    assert [b, c, d][1..] == [c, d];
    assert [c, d][1..] == [d];
    assert Calls([d]) == [];
    assert Calls([c, d]) == [c];
    assert Calls([b, c, d]) == [b, c];
  }

  lemma CallsOfThree(a: Action, b: Action, c: Action)
    requires a.Log? && !b.Log? && c.Log?
    ensures Calls([a, b, c]) == [b]
  {
    assert [a, b, c][1..] == [b, c];
    assert [b, c][1..] == [c];
    assert Calls([c]) == [];
    assert Calls([b, c]) == [b];
  }

  /** `logger.Println(a, b, c)` joins its operands with single spaces. */
  function Line(a: string, b: string, c: string): (s: string)
    ensures a + " " <= s
    ensures |s| == |a| + |b| + |c| + 2
  {
    a + " " + b + " " + c
  }

  /** The event is one the handler acts on: a closed issue outside the story repository. */
  predicate Relevant(storyRepo: string, event: IssueEvent) {
    event.action == "closed" && event.repository.fullName != storyRepo
  }

  /** A relevant event whose issue body refers to a story: the case that reaches the client. */
  predicate StoryFound(storyRepo: string, event: IssueEvent)
    requires RegexLiteral(storyRepo)
  {
    Relevant(storyRepo, event) && FindStory(storyRepo, event.issue.body) != ""
  }

  /** The owner and repository of the closed issue, which the ticking pattern interpolates,
      are literal. */
  predicate TickableNames(event: IssueEvent) {
    RegexLiteral(event.repository.owner.login) && RegexLiteral(event.repository.name)
  }

  /** The new story body: the closed issue's line ticked in the fetched story. */
  function TickedStory(story: Issue, event: IssueEvent): (u: IssueUpdate)
    requires TickableNames(event)
  {
    IssueUpdate(Tick(story.body, event.repository.owner.login, event.repository.name, event.issue.number))
  }

  /** `handleIssues(storyRepo, client, logger, event)`: nothing for an irrelevant event;
      otherwise at most one fetch, of the story the issue body refers to, and at most one
      update, of the fetched story's own URL with its body ticked; an update only after a
      successful fetch. Every log line starts with the closed issue's URL, and the last one
      reports how the client answered. */
  function HandleIssues(storyRepo: string, client: Client, event: IssueEvent): (trace: seq<Action>)
    requires RegexLiteral(storyRepo)
    requires StoryFound(storyRepo, event) && client.getIssue(FindStory(storyRepo, event.issue.body)).Ok? ==>
      TickableNames(event)
    ensures !Relevant(storyRepo, event) ==> trace == []
    ensures Relevant(storyRepo, event) && FindStory(storyRepo, event.issue.body) == "" ==>
      trace == [Log(Line(event.issue.url, "could not find story:", event.issue.body))]
    ensures forall i :: 0 <= i < |trace| && trace[i].Log? ==>
      event.issue.url + " " <= trace[i].line
    ensures |Calls(trace)| <= 2
    ensures |Calls(trace)| >= 1 <==> StoryFound(storyRepo, event)
    ensures |Calls(trace)| >= 1 ==>
      Calls(trace)[0] == GetIssue(FindStory(storyRepo, event.issue.body))
    ensures |Calls(trace)| == 2 <==>
      && StoryFound(storyRepo, event)
      && client.getIssue(FindStory(storyRepo, event.issue.body)).Ok?
    ensures |Calls(trace)| == 2 ==>
      var story := client.getIssue(FindStory(storyRepo, event.issue.body)).value;
      Calls(trace)[1] == UpdateIssue(story.url, TickedStory(story, event))
    ensures StoryFound(storyRepo, event) ==>
      && |trace| == |Calls(trace)| + 2
      && trace[0] == Log(Line(event.issue.url, "found connected story:", FindStory(storyRepo, event.issue.body)))
    ensures StoryFound(storyRepo, event) ==>
      var fetched := client.getIssue(FindStory(storyRepo, event.issue.body));
      fetched.Err? ==>
        trace[|trace| - 1] == Log(Line(event.issue.url, "error getting story:", fetched.error))
    ensures StoryFound(storyRepo, event) ==>
      var fetched := client.getIssue(FindStory(storyRepo, event.issue.body));
      fetched.Ok? ==>
        var updated := client.updateIssue(fetched.value.url, TickedStory(fetched.value, event));
        && (updated.Some? ==>
              trace[|trace| - 1] == Log(Line(event.issue.url, "error updating issue body:", updated.value)))
        && (updated.None? ==>
              trace[|trace| - 1] == Log(Line(event.issue.url, "updated story:", FindStory(storyRepo, event.issue.body))))
  {
    if event.action != "closed" || event.repository.fullName == storyRepo then []
    else
      var url := event.issue.url;
      var storyUrl := FindStory(storyRepo, event.issue.body);
      if storyUrl == "" then
        [Log(Line(url, "could not find story:", event.issue.body))]
      else
        var found := Log(Line(url, "found connected story:", storyUrl));
        match client.getIssue(storyUrl)
        case Err(e) =>
          CallsOfThree(found, GetIssue(storyUrl), Log(Line(url, "error getting story:", e)));
          [found, GetIssue(storyUrl), Log(Line(url, "error getting story:", e))]
        case Ok(story) =>
          var update := TickedStory(story, event);
          var done := match client.updateIssue(story.url, update)
            case Some(e) => Log(Line(url, "error updating issue body:", e))
            case None => Log(Line(url, "updated story:", storyUrl));
          CallsOfFour(found, GetIssue(storyUrl), UpdateIssue(story.url, update), done);
          [found, GetIssue(storyUrl), UpdateIssue(story.url, update), done]
  }
}

module IssuesExamples {
  import opened Results
  import opened Text
  import opened Models
  import opened Story
  import opened Issues
  import opened StoryExamples
  import opened ChecklistExamples

  /** Closing acme/worker#7, whose body says `fixes acme/stories#4`. */
  function Closed(action: string, fullName: string): IssueEvent {
    IssueEvent(
      action,
      Issue("https://api.github.com/repos/acme/worker/issues/7", 70, 7, "ship it", [], "closed",
            "fixes " + Stories + "#4"),
      Repository(1, "worker", fullName, Owner("acme"), ""),
      None)
  }

  lemma NamesAreLiteral(action: string, fullName: string)
    ensures RegexLiteral(Stories)
    ensures TickableNames(Closed(action, fullName))
  {
    assert forall i :: 0 <= i < |Stories| ==> Stories[i] !in RegexMetachars;
    assert forall i :: 0 <= i < |"acme"| ==> "acme"[i] !in RegexMetachars;
    assert forall i :: 0 <= i < |"worker"| ==> "worker"[i] !in RegexMetachars;
  }

  /** End to end: the story fetched from the resolved URL has the line
      `- [ ] ship it (acme/worker#7)`, and the update sent to the story's own URL ticks it. */
  lemma ClosingTicksStory(story: Issue, client: Client)
    requires story.body == ShipIt
    requires client.getIssue(StoryApiUrl(Stories, '4')) == Ok(story)
    ensures RegexLiteral(Stories) && TickableNames(Closed("closed", "acme/worker"))
    ensures var calls := Calls(HandleIssues(Stories, client, Closed("closed", "acme/worker")));
      calls == [GetIssue(StoryApiUrl(Stories, '4')),
                UpdateIssue(story.url, IssueUpdate("- [x] ship it (acme/worker#7)"))]
  {
    NamesAreLiteral("closed", "acme/worker");
    ShorthandResolves(Stories, "fixes ", "#4");
    ShipItTicked();
    var event := Closed("closed", "acme/worker");
    assert "acme/worker" != Stories;
    assert Relevant(Stories, event);
  }

  /** Reopening the issue, or closing an issue of the story repository itself, does nothing. */
  lemma OtherEventsIgnored(client: Client)
    ensures RegexLiteral(Stories)
    ensures TickableNames(Closed("reopened", "acme/worker"))
    ensures TickableNames(Closed("closed", Stories))
    ensures HandleIssues(Stories, client, Closed("reopened", "acme/worker")) == []
    ensures HandleIssues(Stories, client, Closed("closed", Stories)) == []
  {
    NamesAreLiteral("reopened", "acme/worker");
    NamesAreLiteral("closed", Stories);
  }

  /** When the story cannot be fetched, the only call is the fetch. */
  lemma FetchFailureStopsBeforeUpdate(client: Client, e: string)
    requires client.getIssue(StoryApiUrl(Stories, '4')) == Err(e)
    ensures RegexLiteral(Stories) && TickableNames(Closed("closed", "acme/worker"))
    ensures Calls(HandleIssues(Stories, client, Closed("closed", "acme/worker")))
            == [GetIssue(StoryApiUrl(Stories, '4'))]
  {
    NamesAreLiteral("closed", "acme/worker");
    ShorthandResolves(Stories, "fixes ", "#4");
    assert "acme/worker" != Stories;
  }

  /** An event from a repository whose name holds a metacharacter, such as `socket.io`, is
      accepted; when it is not a closing event it causes nothing. */
  lemma MetacharRepositoryReopenedIgnored(client: Client)
    ensures !RegexLiteral("socket.io")
    ensures RegexLiteral(Stories)
    ensures var event := Closed("reopened", "acme/socket.io").(repository :=
      Repository(2, "socket.io", "acme/socket.io", Owner("acme"), ""));
      HandleIssues(Stories, client, event) == []
  {
    NamesAreLiteral("reopened", "acme/socket.io");
    assert "socket.io"[6] == '.';
  }

  /** A closed issue of `acme/socket.io` whose story cannot be fetched is handled in full:
      the ticking pattern, which would interpolate `socket.io`, is never needed. */
  lemma MetacharRepositoryFetchFails(client: Client, e: string)
    requires client.getIssue(StoryApiUrl(Stories, '4')) == Err(e)
    ensures RegexLiteral(Stories)
    ensures FindStory(Stories, Closed("closed", "acme/socket.io").issue.body) == StoryApiUrl(Stories, '4')
    ensures var event := Closed("closed", "acme/socket.io").(repository :=
      Repository(2, "socket.io", "acme/socket.io", Owner("acme"), ""));
      Calls(HandleIssues(Stories, client, event)) == [GetIssue(StoryApiUrl(Stories, '4'))]
  {
    NamesAreLiteral("closed", "acme/socket.io");
    ShorthandResolves(Stories, "fixes ", "#4");
    assert "acme/socket.io" != Stories;
  }
}
