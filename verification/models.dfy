/** The GitHub webhook payload types the handlers read. Each Go field held by reference that the
    handlers dereference without a nil check (the issue, the repository, its owner) is a
    plain value here, since a nil there would make the Go code panic. */
module Models {
  import opened Results

  datatype Owner = Owner(login: string)

  datatype Label = Label(url: string, name: string, color: string)

  datatype Repository = Repository(
    id: int,
    name: string,
    fullName: string,
    owner: Owner,
    hooksUrl: string
  )

  /** GitHub issue numbers are positive; `number` is rendered with `%d`. */
  datatype Issue = Issue(
    url: string,
    id: int,
    number: nat,
    title: string,
    labels: seq<Label>,
    state: string,
    body: string
  )

  /** The payload of an `issues` webhook delivery (`eventLabel` is the JSON field `label`). */
  datatype IssueEvent = IssueEvent(
    action: string,
    issue: Issue,
    repository: Repository,
    eventLabel: Option<Label>
  )

  /** The PATCH body sent to update an issue: only its text changes. */
  datatype IssueUpdate = IssueUpdate(body: string)
}
