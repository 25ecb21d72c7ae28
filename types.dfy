/** The values a reconciliation run works on: the two input datasets, the
    remote gateway lists, the update payload, and the trace of external
    calls the run makes. */
module Types {

  datatype Option<+T> = None | Some(value: T)

  /** One row of the device inventory. `kind` holds the row's `type` field
      (`type` is a reserved word in Dafny). */
  datatype Device = Device(email: string, name: string, kind: string, vip: string)

  /** One row of the group-membership roster. A user in several groups has
      several rows, and a row may be repeated. */
  datatype GroupMembership = GroupMembership(email: string, group: string)

  /** An entry of the gateway list directory. */
  datatype RemoteList = RemoteList(id: string, name: string)

  /** An item of a gateway list: `value` is what the list matches on (the
      device's virtual IP); `description` is informational only. */
  datatype ListEntry = ListEntry(description: string, value: string)

  /** The body of one list update: the values to delete and the entries to add.
      The same value is both persisted and sent to the list. */
  datatype Payload = Payload(remove: seq<string>, append: seq<ListEntry>)

  /** One call to the outside world, in the order the run makes them. */
  datatype Event =
    | ReadDirectory                                // GET of the account's gateway lists
    | ReadItems(listId: string)                    // GET of one list's items
    | Persist(objectName: string, body: Payload)   // put of the payload into the object store
    | Write(listId: string, body: Payload)         // PATCH of one list

  /** The answer of the item read for each list id. An id that is absent
      stands for a read that failed; `None` for a reply whose `result` is null. */
  type ItemStore = map<string, Option<seq<ListEntry>>>

  /** Everything the run reads. A dataset object that is `None` is missing
      from the object store; a `directory` that is `None` is a directory read
      that failed. */
  datatype Stores = Stores(
    devicesObject: Option<seq<Device>>,
    groupsObject: Option<seq<GroupMembership>>,
    directory: Option<seq<RemoteList>>,
    items: ItemStore)

  /** The run's configuration: the groups to reconcile in order, the prefix
      of list names and persisted object names, and whether the store switch
      is truthy. */
  datatype Config = Config(groups: seq<string>, prefix: string, storeR2: bool)

  /** How the run was started: by an HTTP request or by the cron trigger. */
  datatype Invocation = OnDemand | Scheduled

  /** The result of a run. `DatasetMissing` is the 404 reply; `Aborted` is a run
      ended by a failed read, with the calls made before it; `Finished` carries
      the reply body, which only an on-demand run has. */
  datatype Outcome =
    | DatasetMissing(status: nat, error: string)
    | Aborted(trace: seq<Event>)
    | Finished(trace: seq<Event>, reply: Option<string>)

  const NotFoundStatus: nat := 404
  const NotFoundError: string := "File not found in R2 bucket"
  const UpdatedMessage: string := "Gateway lists updated!"
}
