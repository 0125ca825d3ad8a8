/**
 The data the queue sorter reads from a buildable queue item: whether its
 task is a project, the project's optional priority property, and the cause
 actions attached to the item. Java `null` is modelled with `Option`.
 */
module Items {
  import opened JavaInt

  /** A possibly-null Java reference. */
  datatype Option<+T> = None | Some(value: T)

  /** Why an item became buildable; `Other` stands for every cause kind that carries no weight. */
  datatype Cause = Scm | Timer | User | Other

  /** The three global cause weights held by the job property's descriptor. */
  datatype Weights = Weights(user: Int32, scm: Int32, timer: Int32)

  /**
   A buildable item. `NonProject` is an item whose task is not a project;
   a `Project` carries its optional configured priority and its optional list
   of cause actions, each of which holds an optional list of causes.
   */
  datatype Item =
    | NonProject
    | Project(prop: Option<Int32>, causeActions: Option<seq<Option<seq<Cause>>>>)

  /** The priority given to a project that has no priority property. */
  const DEFAULT_PRIORITY: Int32 := 100

  /** The priority given to an item whose task is not a project. */
  const NON_PROJECT_PRIORITY: Int32 := 0
}
