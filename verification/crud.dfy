/** The data-access functions: each one reads the store or returns the store
    with exactly the rows it adds or the one field it changes. */
module Crud {
  import opened Wrappers
  import opened Http
  import opened Models

  /** An entry of a project's initial outline (`NodeCreate`). */
  datatype NodeIn = NodeIn(title: string, idx: int)

  /** A freshly added outline node: no content yet. */
  function NewNode(projectId: int, title: string, idx: int): Node {
    Node(projectId, idx, Some(title), None)
  }

  /** `get_user_by_email`: the key of the first user with that email. */
  function GetUserByEmail(s: Store, email: string): (r: Option<int>)
    requires s.Valid()
    ensures r.Some? ==> r.value in s.users.rows && s.users.rows[r.value].email == email
    ensures r.None? <==> forall k :: k in s.users.rows ==> s.users.rows[k].email != email
  {
    First(s.users, (u: User) => u.email == email)
  }

  /** `create_user`: adds exactly one user, storing the hash of the password,
      never the password itself. */
  function CreateUser(s: Store, email: string, password: string, name: Option<string>, hash: string -> string): (r: (Store, int))
    requires s.Valid()
    ensures r.0.Valid()
    ensures r.1 !in s.users.rows
    ensures r.0.users.rows == s.users.rows[r.1 := User(email, name, hash(password))]
    ensures r.0.projects == s.projects && r.0.nodes == s.nodes && r.0.revisions == s.revisions
  {
    var (users, id) := s.users.Insert(User(email, name, hash(password)));
    (s.(users := users), id)
  }

  /** `authenticate_user`: the user found by email, provided the password
      verifies against that user's stored hash. */
  function AuthenticateUser(s: Store, email: string, password: string, verify: (string, string) -> bool): (r: Option<int>)
    requires s.Valid()
    ensures r.Some? ==> r == GetUserByEmail(s, email) && verify(password, s.users.rows[r.value].passwordHash)
    ensures r.None? <==> GetUserByEmail(s, email).None? || !verify(password, s.users.rows[GetUserByEmail(s, email).value].passwordHash)
  {
    match GetUserByEmail(s, email)
    case None => None
    case Some(id) => if verify(password, s.users.rows[id].passwordHash) then Some(id) else None
  }

  /** With unique emails, authentication fails exactly when no user has that
      email and accepts that password. */
  lemma AuthenticateUserIff(s: Store, email: string, password: string, verify: (string, string) -> bool)
    requires s.Valid() && s.EmailsUnique()
    ensures AuthenticateUser(s, email, password, verify).None? <==>
      forall k :: k in s.users.rows && s.users.rows[k].email == email ==> !verify(password, s.users.rows[k].passwordHash)
  {
  }

  /** Inserts one node per outline entry, in order. */
  function AddNodes(t: Table<Node>, projectId: int, entries: seq<NodeIn>): (r: Table<Node>)
    requires t.Valid()
    ensures r.Valid()
    ensures r.next == t.next + |entries|
    ensures forall k :: k in r.rows <==> k in t.rows || t.next <= k < r.next
    ensures forall k :: k in t.rows ==> r.rows[k] == t.rows[k]
    ensures forall i :: 0 <= i < |entries| ==> r.rows[t.next + i] == NewNode(projectId, entries[i].title, entries[i].idx)
    decreases |entries|
  {
    if |entries| == 0 then t
    else
      var e := entries[0];
      var (t', _) := t.Insert(NewNode(projectId, e.title, e.idx));
      var r := AddNodes(t', projectId, entries[1..]);
      assert forall i :: 1 <= i < |entries| ==> entries[1..][i - 1] == entries[i];
      r
  }

  /** `create_project`: one project with the given fields, then one node per
      outline entry; an absent outline (`None`) creates no node. */
  function CreateProject(
    s: Store, userId: int, title: string, docType: string, mainPrompt: Option<string>, entries: Option<seq<NodeIn>>
  ): (r: (Store, int))
    requires s.Valid()
    ensures r.0.Valid()
    ensures r.1 !in s.projects.rows
    ensures r.0.projects.rows == s.projects.rows[r.1 := Project(userId, title, docType, mainPrompt)]
    ensures forall k :: k in r.0.nodes.rows <==> k in s.nodes.rows || s.nodes.next <= k < s.nodes.next + |entries.GetOr([])|
    ensures forall k :: k in s.nodes.rows ==> r.0.nodes.rows[k] == s.nodes.rows[k]
    ensures forall i :: 0 <= i < |entries.GetOr([])| ==>
      r.0.nodes.rows[s.nodes.next + i] == NewNode(r.1, entries.GetOr([])[i].title, entries.GetOr([])[i].idx)
    ensures r.0.users == s.users && r.0.revisions == s.revisions
  {
    var (projects, pid) := s.projects.Insert(Project(userId, title, docType, mainPrompt));
    var es := entries.GetOr([]);
    var nodes := AddNodes(s.nodes, pid, es);
    (s.(projects := projects, nodes := nodes), pid)
  }

  /** Creating a project for an existing user keeps the store consistent:
      the project's owner exists and every new node points at the project. */
  lemma CreateProjectConsistent(
    s: Store, userId: int, title: string, docType: string, mainPrompt: Option<string>, entries: Option<seq<NodeIn>>
  )
    requires s.Consistent() && userId in s.users.rows
    ensures CreateProject(s, userId, title, docType, mainPrompt, entries).0.Consistent()
  {
    var (s', pid) := CreateProject(s, userId, title, docType, mainPrompt, entries);
    var es := entries.GetOr([]);
    forall k | k in s'.nodes.rows ensures s'.nodes.rows[k].projectId in s'.projects.rows {
      if k !in s.nodes.rows {
        var i := k - s.nodes.next;
        assert s'.nodes.rows[s.nodes.next + i] == NewNode(pid, es[i].title, es[i].idx);
      }
    }
  }

  /** The keys of a project's nodes in key order: `project.nodes`. */
  function NodesOf(s: Store, projectId: int): (ids: seq<int>)
    requires s.Valid()
    ensures forall i :: 0 <= i < |ids| ==> ids[i] in s.nodes.rows && s.nodes.rows[ids[i]].projectId == projectId
    ensures forall k :: k in s.nodes.rows && s.nodes.rows[k].projectId == projectId ==> k in ids
    ensures forall i, j :: 0 <= i < j < |ids| ==> ids[i] < ids[j]
  {
    s.nodes.Where((n: Node) => n.projectId == projectId)
  }

  /** Two ascending sequences with the same elements are equal. */
  lemma {:induction false} AscendingUnique(a: seq<int>, b: seq<int>)
    requires forall i, j :: 0 <= i < j < |a| ==> a[i] < a[j]
    requires forall i, j :: 0 <= i < j < |b| ==> b[i] < b[j]
    requires forall x :: x in a <==> x in b
    ensures a == b
    decreases |a|
  {
    assert |a| > 0 ==> a[0] in a;
    assert |b| > 0 ==> b[0] in b;
    if |a| > 0 {
      assert a[0] in b && b[0] in a;
      assert a[0] == b[0];
      forall x ensures x in a[1..] <==> x in b[1..] {
        if x in a[1..] {
          assert x in b && x != b[0];
        }
        if x in b[1..] {
          assert x in a && x != a[0];
        }
      }
      AscendingUnique(a[1..], b[1..]);
      assert a == [a[0]] + a[1..] && b == [b[0]] + b[1..];
    }
  }

  /** Creating a project with N outline entries and reading its nodes back
      gives N nodes with the entries' titles and indexes, in entry order. */
  lemma CreateProjectNodes(
    s: Store, userId: int, title: string, docType: string, mainPrompt: Option<string>, entries: seq<NodeIn>
  )
    requires s.Consistent()
    ensures var (s', pid) := CreateProject(s, userId, title, docType, mainPrompt, Some(entries));
      var ids := NodesOf(s', pid);
      && |ids| == |entries|
      && forall i :: 0 <= i < |ids| ==> s'.nodes.rows[ids[i]] == NewNode(pid, entries[i].title, entries[i].idx)
  {
    var r := CreateProject(s, userId, title, docType, mainPrompt, Some(entries));
    assert Some(entries).GetOr([]) == entries;
    OutlineReadBack(s, r.0, r.1, entries);
  }

  lemma OutlineReadBack(s: Store, s': Store, pid: int, entries: seq<NodeIn>)
    requires s.Consistent() && s'.Valid()
    requires pid !in s.projects.rows
    requires forall k :: k in s'.nodes.rows <==> k in s.nodes.rows || s.nodes.next <= k < s.nodes.next + |entries|
    requires forall k :: k in s.nodes.rows ==> s'.nodes.rows[k] == s.nodes.rows[k]
    requires forall i :: 0 <= i < |entries| ==>
      s'.nodes.rows[s.nodes.next + i] == NewNode(pid, entries[i].title, entries[i].idx)
    ensures var ids := NodesOf(s', pid);
      && |ids| == |entries|
      && forall i :: 0 <= i < |ids| ==> s'.nodes.rows[ids[i]] == NewNode(pid, entries[i].title, entries[i].idx)
  {
    var ids := NodesOf(s', pid);
    var lo := s.nodes.next;
    forall x ensures x in ids <==> lo <= x < lo + |entries| {
      OutlineMember(s, s', pid, entries, x);
    }
    var expected := Range(lo, |entries|);
    AscendingUnique(ids, expected);
  }

  /** A key belongs to the new project's nodes exactly when it is one of the
      keys handed out for the outline. */
  lemma OutlineMember(s: Store, s': Store, pid: int, entries: seq<NodeIn>, x: int)
    requires s.Consistent() && s'.Valid()
    requires pid !in s.projects.rows
    requires forall k :: k in s'.nodes.rows <==> k in s.nodes.rows || s.nodes.next <= k < s.nodes.next + |entries|
    requires forall k :: k in s.nodes.rows ==> s'.nodes.rows[k] == s.nodes.rows[k]
    requires forall i :: 0 <= i < |entries| ==>
      s'.nodes.rows[s.nodes.next + i] == NewNode(pid, entries[i].title, entries[i].idx)
    ensures x in NodesOf(s', pid) <==> s.nodes.next <= x < s.nodes.next + |entries|
  {
    var lo := s.nodes.next;
    assert x in s.nodes.rows ==> s.nodes.rows[x].projectId in s.projects.rows;
    if lo <= x < lo + |entries| {
      assert s'.nodes.rows[lo + (x - lo)] == NewNode(pid, entries[x - lo].title, entries[x - lo].idx);
    }
  }

  /** The integers `lo`, `lo + 1`, ..., `lo + n - 1`. */
  function Range(lo: int, n: nat): (r: seq<int>)
    ensures |r| == n
    ensures forall i :: 0 <= i < n ==> r[i] == lo + i
    ensures forall x :: x in r <==> lo <= x < lo + n
  {
    var r := seq(n, i requires 0 <= i < n => lo + i);
    forall x | lo <= x < lo + n ensures x in r {
      assert r[x - lo] == x;
    }
    r
  }


  /** `get_projects_for_user`: exactly the keys of the projects the user owns. */
  function GetProjectsForUser(s: Store, userId: int): (ids: seq<int>)
    requires s.Valid()
    ensures forall k :: k in ids <==> k in s.projects.rows && s.projects.rows[k].userId == userId
    ensures forall i, j :: 0 <= i < j < |ids| ==> ids[i] < ids[j]
  {
    s.projects.Where((p: Project) => p.userId == userId)
  }

  /** `get_project`: the project with that key, if any. */
  function GetProject(s: Store, projectId: int): (r: Option<Project>)
    ensures r.Some? <==> projectId in s.projects.rows
    ensures r.Some? ==> r.value == s.projects.rows[projectId]
  {
    if projectId in s.projects.rows then Some(s.projects.rows[projectId]) else None
  }

  /** `add_node`: adds exactly one node, with no content yet. The project is
      not checked here; callers check it. */
  function AddNode(s: Store, projectId: int, title: string, idx: int): (r: (Store, int))
    requires s.Valid()
    ensures r.0.Valid()
    ensures r.1 !in s.nodes.rows
    ensures r.0.nodes.rows == s.nodes.rows[r.1 := Node(projectId, idx, Some(title), None)]
    ensures r.0.users == s.users && r.0.projects == s.projects && r.0.revisions == s.revisions
  {
    var (nodes, id) := s.nodes.Insert(NewNode(projectId, title, idx));
    (s.(nodes := nodes), id)
  }

  /** `s'` is `s` with node `nodeId`'s content set to `content`, and nothing else changed. */
  predicate OnlyContentChanged(s: Store, s': Store, nodeId: int, content: string)
    requires nodeId in s.nodes.rows
  {
    && s'.users == s.users && s'.projects == s.projects && s'.revisions == s.revisions
    && s'.nodes.next == s.nodes.next
    && s'.nodes.rows.Keys == s.nodes.rows.Keys
    && (forall k :: k in s.nodes.rows && k != nodeId ==> s'.nodes.rows[k] == s.nodes.rows[k])
    && var (n, n') := (s.nodes.rows[nodeId], s'.nodes.rows[nodeId]);
       && n'.content == Some(content)
       && n'.projectId == n.projectId && n'.idx == n.idx && n'.title == n.title
  }

  /** Sets node `nodeId`'s content (the node must exist). */
  function SetContent(s: Store, nodeId: int, content: string): (s': Store)
    requires s.Valid() && nodeId in s.nodes.rows
    ensures s'.Valid()
    ensures OnlyContentChanged(s, s', nodeId, content)
  {
    var n := s.nodes.rows[nodeId];
    s.(nodes := s.nodes.(rows := s.nodes.rows[nodeId := n.(content := Some(content))]))
  }

  /** `update_node_content`: changes only the content of that node. A missing
      node makes the attribute assignment fail. */
  function UpdateNodeContent(s: Store, nodeId: int, content: string): (r: Result<Store, Failure>)
    requires s.Valid()
    ensures r.Err? <==> nodeId !in s.nodes.rows
    ensures r.Ok? ==> r.value.Valid() && OnlyContentChanged(s, r.value, nodeId, content)
  {
    if nodeId in s.nodes.rows then Ok(SetContent(s, nodeId, content))
    else Err(Crash("'NoneType' object has no attribute 'content_current'"))
  }

  /** `create_revision`: appends one revision and leaves existing ones alone. */
  function CreateRevision(
    s: Store, nodeId: int, userId: int, promptText: string, resultText: string, feedback: Option<string>
  ): (r: (Store, int))
    requires s.Valid()
    ensures r.0.Valid()
    ensures r.1 !in s.revisions.rows
    ensures r.0.revisions.rows == s.revisions.rows[r.1 := Revision(nodeId, userId, promptText, resultText, feedback)]
    ensures |r.0.revisions.rows| == |s.revisions.rows| + 1
    ensures r.0.users == s.users && r.0.projects == s.projects && r.0.nodes == s.nodes
  {
    var (revisions, id) := s.revisions.Insert(Revision(nodeId, userId, promptText, resultText, feedback));
    (s.(revisions := revisions), id)
  }
}
