/** The persisted entities (`users`, `projects`, `nodes`, `revisions` tables)
    and the store that holds them. A row's primary key is its key in the
    table's map; keys are handed out by an auto-increment counter. */
module Models {
  import opened Wrappers

  datatype User = User(email: string, name: Option<string>, passwordHash: string)

  /** `docType` is free text: nothing restricts it to "docx" or "pptx". */
  datatype Project = Project(userId: int, title: string, docType: string, mainPrompt: Option<string>)

  /** `content` is `None` until the first generation. */
  datatype Node = Node(projectId: int, idx: int, title: Option<string>, content: Option<string>)

  datatype Revision = Revision(
    nodeId: int,
    userId: int,
    promptText: string,
    resultText: string,
    feedback: Option<string>)

  /** One table: rows by primary key, and the key the next insert receives. */
  datatype Table<T> = Table(rows: map<int, T>, next: int) {

    /** Every key was handed out by the counter, starting at 1. */
    predicate Valid() {
      next >= 1 && forall k :: k in rows ==> 1 <= k < next
    }

    /** `db.add(row); db.commit()`: the row receives a fresh key and nothing
        else in the table changes. */
    function Insert(v: T): (r: (Table<T>, int))
      requires Valid()
      ensures r.0.Valid()
      ensures r.1 >= 1 && r.1 !in rows
      ensures r.0.rows == rows[r.1 := v]
      ensures r.0.rows.Keys == rows.Keys + {r.1}
    {
      (Table(rows[next := v], next + 1), next)
    }

    /** Keys of the rows satisfying `p`, in ascending key order: the order a
        filtered query returns them in. */
    function Where(p: T -> bool): (ids: seq<int>)
      requires Valid()
      ensures forall i :: 0 <= i < |ids| ==> ids[i] in rows && p(rows[ids[i]])
      ensures forall i, j :: 0 <= i < j < |ids| ==> ids[i] < ids[j]
      ensures forall k :: k in rows && p(rows[k]) ==> k in ids
    {
      Scan(rows, p, 1, next)
    }
  }

  function EmptyTable<T>(): Table<T> {
    Table(map[], 1)
  }

  /** Keys in `[lo, hi)` of the rows satisfying `p`, ascending. */
  function Scan<T>(rows: map<int, T>, p: T -> bool, lo: int, hi: int): (ids: seq<int>)
    ensures forall i :: 0 <= i < |ids| ==> lo <= ids[i] < hi && ids[i] in rows && p(rows[ids[i]])
    ensures forall i, j :: 0 <= i < j < |ids| ==> ids[i] < ids[j]
    ensures forall k :: lo <= k < hi && k in rows && p(rows[k]) ==> k in ids
    decreases hi - lo
  {
    if lo >= hi then []
    else if lo in rows && p(rows[lo]) then [lo] + Scan(rows, p, lo + 1, hi)
    else Scan(rows, p, lo + 1, hi)
  }

  /** `.first()`: the lowest key among the rows satisfying `p`. */
  function First<T>(t: Table<T>, p: T -> bool): (r: Option<int>)
    requires t.Valid()
    ensures r.Some? ==> r.value in t.rows && p(t.rows[r.value])
    ensures r.Some? ==> forall k :: k in t.rows && p(t.rows[k]) ==> r.value <= k
    ensures r.None? <==> forall k :: k in t.rows ==> !p(t.rows[k])
  {
    var ids := t.Where(p);
    if |ids| == 0 then None
    else
      assert forall k :: k in ids ==> ids[0] <= k;
      Some(ids[0])
  }

  datatype Store = Store(
    users: Table<User>,
    projects: Table<Project>,
    nodes: Table<Node>,
    revisions: Table<Revision>)
  {
    predicate Valid() {
      users.Valid() && projects.Valid() && nodes.Valid() && revisions.Valid()
    }

    /** The `unique=True` constraint on `users.email`. */
    predicate EmailsUnique() {
      forall a, b :: a in users.rows && b in users.rows && users.rows[a].email == users.rows[b].email ==> a == b
    }

    /** Foreign keys: every project's owner and every node's project exist. */
    predicate Linked() {
      && (forall k :: k in projects.rows ==> projects.rows[k].userId in users.rows)
      && (forall k :: k in nodes.rows ==> nodes.rows[k].projectId in projects.rows)
    }

    /** What every request handler keeps true of the store. */
    predicate Consistent() {
      Valid() && EmailsUnique() && Linked()
    }
  }

  function EmptyStore(): (s: Store)
    ensures s.Consistent()
  {
    Store(EmptyTable(), EmptyTable(), EmptyTable(), EmptyTable())
  }
}
