/**
 The records the environment-list editor works on: one environment entry per
 deployment target, the manifest that holds the ordered list of them, and the
 two policy switches of a put or delete.
 */
module Data {

  /** How an entry may be removed: permanent entries can be protected from deletion. */
  datatype Lifecycle = Temporary | Permanent

  /** The event that produced the entry (`'push' | 'pull_request'`). */
  datatype ActionType = Push | PullRequest

  /** The rollout strategy of the entry (`'blue_green' | 'canary' | 'none'`). */
  datatype Strategy = BlueGreen | Canary | NoStrategy

  /** CI-run labels attached to an entry. */
  datatype ActionLabels = ActionLabels(workerNumber: string, commitMessage: string, commitSha: string)

  /**
   One environment entry. The pair (env, key) identifies it; the other fields
   are payload that the editor copies but never inspects, except `lifecycle`,
   which deletion consults.
   */
  datatype Entry = Entry(
    env: string,
    lifecycle: Lifecycle,
    key: string,
    actionType: ActionType,
    actionLabels: ActionLabels,
    imageTag: string,
    strategy: Strategy
  )

  /**
   A node of a manifest read with the failsafe YAML schema: every scalar is a
   string. Used for the parts of the manifest the editor never touches.
   */
  datatype Node =
    | Null
    | Scalar(text: string)
    | Sequence(items: seq<Node>)
    | Mapping(fields: seq<(string, Node)>)

  /** The manifest: its ordered environment list plus everything else, kept opaque. */
  datatype Manifest = Manifest(environments: seq<Entry>, rest: Node)

  /** The per-call policy switches. */
  datatype Options = Options(enableUpdate: bool, enablePermanentProtection: bool)

  /** The conditions under which the source throws, each with the data its message names. */
  datatype Error =
    | InvalidInput(name: string, value: string)
    | AlreadyExists(env: string, key: string)
    | NotFound(env: string, key: string)
    | Protected(env: string, key: string)
}
