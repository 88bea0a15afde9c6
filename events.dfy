/** The event records of the GitHub events API as the source declares them
    (src/github_events/mod.rs). The enumerations are closed: the source has
    no fallback variant, so an unrecognised tag makes decoding of the whole
    page fail (that decoding is a parameter of the pagination model). */
module Events {
  import opened Prelude

  /** `created_at`; parsed by the source but never inspected. */
  datatype Timestamp = Timestamp(secondsSinceEpoch: int)

  datatype Actor = Actor(login: string)

  /** The source's variants are the lower-case tags themselves (`opened`
      is a Dafny keyword, hence the capitals here). */
  datatype Action = Created | Closed | Edited | Opened | Started

  datatype Payload = Payload(action: Option<Action>)

  datatype Type =
    | CommitCommentEvent
    | CreateEvent
    | DeleteEvent
    | DeploymentEvent
    | DeploymentStatusEvent
    | DownloadEvent
    | FollowEvent
    | ForkEvent
    | ForkApplyEvent
    | GistEvent
    | GollumEvent
    | InstallationEvent
    | InstallationRepositoriesEvent
    | IssueCommentEvent
    | IssuesEvent
    | LabelEvent
    | MarketplacePurchaseEvent
    | MemberEvent
    | MembershipEvent
    | MilestoneEvent
    | OrganizationEvent
    | OrgBlockEvent
    | PageBuildEvent
    | ProjectCardEvent
    | ProjectColumnEvent
    | ProjectEvent
    | PublicEvent
    | PullRequestEvent
    | PullRequestReviewEvent
    | PullRequestReviewCommentEvent
    | PushEvent
    | ReleaseEvent
    | RepositoryEvent
    | StatusEvent
    | TeamEvent
    | TeamAddEvent
    | WatchEvent

  datatype RawEvent = RawEvent(actor: Actor, payload: Payload, eventType: Type, createdAt: Timestamp)
}
