/** The request handlers of the HTTP API. Each handler takes the store and
    the request's inputs and returns either the store after its commits with
    the response, or the failure it raises. Everything the handlers call but
    this model does not compute (password hashing, JWT signing and checking,
    the language model, the clock) comes in through `Env`. */
module Api {
  import opened Wrappers
  import opened Http
  import opened PyStr
  import opened Models
  import opened Crud
  import opened Auth
  import opened Export

  /** The opaque collaborators of one request. `upstream` is the language
      model's answer to a prompt, `None` when the call raises; `now` is the
      current time in seconds. */
  datatype Env = Env(
    hash: string -> string,
    verify: (string, string) -> bool,
    encode: Claims -> string,
    decode: string -> JwtOutcome,
    upstream: string -> Option<string>,
    now: int)

  const EmailTaken := HttpError(BadRequest, "Email already registered")
  const BadCredentials := HttpError(Unauthorized, "Invalid credentials")
  const InvalidToken := HttpError(Unauthorized, "Invalid token")
  const UserNotFound := HttpError(NotFound, "User not found")
  const ProjectNotFound := HttpError(NotFound, "Project not found")
  const NodeNotFound := HttpError(NotFound, "Node not found")
  const InvalidFormat := HttpError(BadRequest, "Invalid format")

  /** What `call_llm` returns when the model call raises. */
  const LlmErrorText := "\U{26A0}\U{FE0F} Error generating content"

  /** The title slide layout of the default template has a title and a
      subtitle placeholder. */
  const TitleLayoutPlaceholders := 2

  // ---------------------------------------------------------------------------
  // Responses

  /** `NodeOut` (and the body of `get_node`, which adds the project key that
      the row already holds). */
  datatype NodeOut = NodeOut(id: int, node: Node)

  /** `ProjectOut`: the project's fields and its nodes. */
  datatype ProjectOut = ProjectOut(id: int, project: Project, nodes: seq<NodeOut>)

  /** The file an export streams back, by its logical content. */
  datatype ExportFile =
    | DocxFile(filename: string, blocks: seq<Block>)
    | PptxFile(filename: string, slides: seq<Slide>)

  /** The rows of a project's nodes, in key order. */
  function ProjectNodes(s: Store, projectId: int): (ns: seq<Node>)
    requires s.Valid()
    ensures |ns| == |NodesOf(s, projectId)|
    ensures forall i :: 0 <= i < |ns| ==> ns[i].projectId == projectId
    ensures forall i :: 0 <= i < |ns| ==> ns[i] == s.nodes.rows[NodesOf(s, projectId)[i]]
  {
    var ids := NodesOf(s, projectId);
    seq(|ids|, i requires 0 <= i < |ids| => s.nodes.rows[ids[i]])
  }

  function ProjectView(s: Store, projectId: int): (r: ProjectOut)
    requires s.Valid() && projectId in s.projects.rows
    ensures r.id == projectId && r.project == s.projects.rows[projectId]
    ensures |r.nodes| == |NodesOf(s, projectId)|
    ensures forall i :: 0 <= i < |r.nodes| ==>
      r.nodes[i].id in s.nodes.rows && r.nodes[i].node == s.nodes.rows[r.nodes[i].id] && r.nodes[i].node.projectId == projectId
    ensures forall i :: 0 <= i < |r.nodes| ==> r.nodes[i].id == NodesOf(s, projectId)[i]
    ensures forall i, j :: 0 <= i < j < |r.nodes| ==> r.nodes[i].id < r.nodes[j].id
  {
    var ids := NodesOf(s, projectId);
    ProjectOut(projectId, s.projects.rows[projectId],
      seq(|ids|, i requires 0 <= i < |ids| => NodeOut(ids[i], s.nodes.rows[ids[i]])))
  }

  // ---------------------------------------------------------------------------
  // Authentication

  /** The access token issued for a user: subject = the user's key as a
      decimal string, default lifetime. */
  function IssueToken(env: Env, userId: int): string {
    CreateAccessToken(map["sub" := Str(IntToStr(userId))], env.now, None, env.encode)
  }

  /** `int(x)` for a float: truncation toward zero. */
  function IntOfFloat(x: real): (n: int)
    ensures x >= 0.0 ==> n as real <= x < n as real + 1.0
    ensures x < 0.0 ==> n as real - 1.0 < x <= n as real
  {
    if x >= 0.0 then x.Floor else -((-x).Floor)
  }

  /** `int(payload.get("sub"))`: an integer is kept, a float truncated, a
      boolean read as 0 or 1, a string parsed; a missing or null subject, an
      array, an object and a string that is not a decimal integer raise. */
  function SubjectId(c: Claims): (r: Result<int, Failure>)
    ensures "sub" in c && c["sub"].Num? ==> r == Ok(c["sub"].n)
    ensures "sub" in c && c["sub"].Float? ==> r.Ok? && r.value == IntOfFloat(c["sub"].x)
    ensures "sub" in c && c["sub"].Bool? ==> r == Ok(if c["sub"].b then 1 else 0)
    ensures "sub" in c && c["sub"].Str? ==> (r.Ok? <==> ParseInt(c["sub"].s).Some?)
    ensures "sub" in c && c["sub"].Str? && r.Ok? ==> r.value == ParseInt(c["sub"].s).value
    ensures "sub" !in c || c["sub"].Null? || c["sub"].Composite? ==> r.Err? && r.error.Crash?
    ensures r.Err? ==> r.error.Crash?
  {
    if "sub" !in c then Err(Crash(NotANumber("NoneType")))
    else match c["sub"]
      case Null => Err(Crash(NotANumber("NoneType")))
      case Composite => Err(Crash(NotANumber("list")))
      case Num(n) => Ok(n)
      case Float(x) => Ok(IntOfFloat(x))
      case Bool(b) => Ok(if b then 1 else 0)
      case Str(t) =>
        match ParseInt(t)
        case None => Err(Crash("invalid literal for int() with base 10"))
        case Some(n) => Ok(n)
  }

  function NotANumber(typeName: string): string {
    "int() argument must be a string, a bytes-like object or a real number, not '" + typeName + "'"
  }

  /** `register`: a taken email is refused with 400; otherwise one user is
      added and a token for that user is returned. */
  function Register(s: Store, env: Env, email: string, password: string, name: Option<string>): (r: Result<(Store, int, string), Failure>)
    requires s.Valid()
    ensures r.Err? <==> exists k :: k in s.users.rows && s.users.rows[k].email == email
    ensures r.Err? ==> r.error == EmailTaken
    ensures r.Ok? ==> var (s', id, token) := r.value;
      && s'.Valid()
      && id !in s.users.rows
      && s'.users.rows == s.users.rows[id := User(email, name, env.hash(password))]
      && s'.projects == s.projects && s'.nodes == s.nodes && s'.revisions == s.revisions
      && token == IssueToken(env, id)
  {
    if GetUserByEmail(s, email).Some? then Err(EmailTaken)
    else
      var (s', id) := CreateUser(s, email, password, name, env.hash);
      Ok((s', id, IssueToken(env, id)))
  }

  /** `login`: 401 exactly when authentication fails; the token names the
      authenticated user. */
  function Login(s: Store, env: Env, email: string, password: string): (r: Result<string, Failure>)
    requires s.Valid()
    ensures r.Err? <==> AuthenticateUser(s, email, password, env.verify).None?
    ensures r.Err? ==> r.error == BadCredentials
    ensures r.Ok? ==> r.value == IssueToken(env, AuthenticateUser(s, email, password, env.verify).value)
  {
    match AuthenticateUser(s, email, password, env.verify)
    case None => Err(BadCredentials)
    case Some(id) => Ok(IssueToken(env, id))
  }

  /** `get_current_user`: the header's token must decode to a non-empty
      payload (else 401) whose subject is the key of an existing user (else
      404). */
  function CurrentUser(s: Store, env: Env, header: Option<string>): (r: Result<int, Failure>)
    ensures GetCurrentToken(header).Err? ==> r == Err(GetCurrentToken(header).error)
    ensures GetCurrentToken(header).Ok? ==>
      var payload := DecodeAccessToken(GetCurrentToken(header).value, env.decode);
      && (payload.None? || payload.value == map[] ==> r == Err(InvalidToken))
      && (payload.Some? && payload.value != map[] && SubjectId(payload.value).Err? ==>
            r == Err(SubjectId(payload.value).error))
      && (payload.Some? && payload.value != map[] && SubjectId(payload.value).Ok? ==>
            var id := SubjectId(payload.value).value;
            r == if id in s.users.rows then Ok(id) else Err(UserNotFound))
    ensures r.Ok? ==> r.value in s.users.rows
  {
    var token :- GetCurrentToken(header);
    var payload := DecodeAccessToken(token, env.decode);
    if payload.None? || payload.value == map[] then Err(InvalidToken)
    else
      var id :- SubjectId(payload.value);
      if id in s.users.rows then Ok(id) else Err(UserNotFound)
  }

  /** A token issued for an existing user, presented as `Bearer <token>`,
      authenticates that user, provided the JWT library decodes what it
      encoded and the encoding is a single non-blank word. */
  lemma IssuedTokenResolves(s: Store, env: Env, userId: int)
    requires userId in s.users.rows
    requires var token := IssueToken(env, userId);
      && token != [] && NoSpace(token)
      && env.decode(token) == Decoded(AccessClaims(map["sub" := Str(IntToStr(userId))], env.now, None))
    ensures CurrentUser(s, env, Some("Bearer " + IssueToken(env, userId))) == Ok(userId)
  {
    var token := IssueToken(env, userId);
    assert SpellsBearer("Bearer");
    BearerHeaderAccepted("", "Bearer", " ", token, "");
    assert "" + "Bearer" + " " + token + "" == "Bearer " + token;
    var c := AccessClaims(map["sub" := Str(IntToStr(userId))], env.now, None);
    assert "exp" in c;
    assert c["sub"] == Str(IntToStr(userId));
    ParseIntToStr(userId);
  }

  /** When the JWT library decodes whatever it encodes, an issued token
      carries the user's key as its subject and expires one day after it was
      issued. */
  lemma IssuedTokenClaims(env: Env, userId: int)
    requires forall c :: env.decode(env.encode(c)) == Decoded(c)
    ensures var payload := DecodeAccessToken(IssueToken(env, userId), env.decode);
      && payload.Some?
      && SubjectId(payload.value) == Ok(userId)
      && payload.value["exp"] == Num(env.now + DefaultTtl)
  {
    var data := map["sub" := Str(IntToStr(userId))];
    CreateAccessTokenDecodes(data, env.now, None, env.encode, env.decode);
    var c := AccessClaims(data, env.now, None);
    assert c["sub"] == Str(IntToStr(userId));
    ParseIntToStr(userId);
  }

  /** Registering and then logging in with the same email and password
      yields a token for the registered user, when the password verifies
      against its own hash. */
  lemma RegisterThenLogin(s: Store, env: Env, email: string, password: string, name: Option<string>)
    requires s.Valid()
    requires Register(s, env, email, password, name).Ok?
    requires env.verify(password, env.hash(password))
    ensures var (s', id, token) := Register(s, env, email, password, name).value;
      Login(s', env, email, password) == Ok(token)
  {
    var (s', id, token) := Register(s, env, email, password, name).value;
    assert forall k :: k in s'.users.rows && s'.users.rows[k].email == email ==> k == id;
    assert GetUserByEmail(s', email) == Some(id);
  }

  /** Registration keeps every store invariant, in particular unique emails. */
  lemma RegisterConsistent(s: Store, env: Env, email: string, password: string, name: Option<string>)
    requires s.Consistent()
    requires Register(s, env, email, password, name).Ok?
    ensures Register(s, env, email, password, name).value.0.Consistent()
  {
  }

  // ---------------------------------------------------------------------------
  // Projects

  /** The ownership check of `get_project`, `add_node` and `export`: a
      project that does not exist and one owned by someone else get the same
      404. */
  function OwnedProject(s: Store, userId: int, projectId: int): (r: Result<Project, Failure>)
    ensures r.Ok? <==> projectId in s.projects.rows && s.projects.rows[projectId].userId == userId
    ensures r.Ok? ==> r.value == s.projects.rows[projectId]
    ensures r.Err? ==> r.error == ProjectNotFound
  {
    match GetProject(s, projectId)
    case None => Err(ProjectNotFound)
    case Some(p) => if p.userId != userId then Err(ProjectNotFound) else Ok(p)
  }

  /** Someone else's project answers exactly as if it did not exist. */
  lemma ForeignProjectLooksAbsent(s: Store, userId: int, projectId: int)
    requires projectId in s.projects.rows && s.projects.rows[projectId].userId != userId
    ensures OwnedProject(s, userId, projectId) ==
      OwnedProject(s.(projects := s.projects.(rows := s.projects.rows - {projectId})), userId, projectId)
  {
  }

  /** `create_project` (handler): the project belongs to the caller and gets
      one node per outline entry; a missing outline is an empty one. */
  function PostProject(
    s: Store, env: Env, header: Option<string>,
    title: string, docType: string, mainPrompt: Option<string>, outline: Option<seq<NodeIn>>
  ): (r: Result<(Store, ProjectOut), Failure>)
    requires s.Valid()
    ensures CurrentUser(s, env, header).Err? ==> r == Err(CurrentUser(s, env, header).error)
    ensures r.Ok? <==> CurrentUser(s, env, header).Ok?
    ensures r.Ok? ==> var (s', out) := r.value;
      && s'.Valid()
      && out.id !in s.projects.rows
      && s'.projects.rows == s.projects.rows[out.id := Project(CurrentUser(s, env, header).value, title, docType, mainPrompt)]
      && s'.users == s.users && s'.revisions == s.revisions
    ensures r.Ok? ==> var (s', out) := r.value;
      && (forall k :: k in s'.nodes.rows <==> k in s.nodes.rows || s.nodes.next <= k < s.nodes.next + |outline.GetOr([])|)
      && (forall k :: k in s.nodes.rows ==> s'.nodes.rows[k] == s.nodes.rows[k])
      && (forall i :: 0 <= i < |outline.GetOr([])| ==>
            s'.nodes.rows[s.nodes.next + i] == NewNode(out.id, outline.GetOr([])[i].title, outline.GetOr([])[i].idx))
    ensures r.Ok? ==> var (s', out) := r.value;
      s'.Valid() && out.id in s'.projects.rows && out == ProjectView(s', out.id)
  {
    var userId :- CurrentUser(s, env, header);
    var (s', pid) := CreateProject(s, userId, title, docType, mainPrompt, Some(outline.GetOr([])));
    Ok((s', ProjectView(s', pid)))
  }

  /** On a consistent store, the created project reads back with one node
      per outline entry, in entry order, each with the entry's title and
      index and no content. */
  lemma PostProjectOutline(
    s: Store, env: Env, header: Option<string>,
    title: string, docType: string, mainPrompt: Option<string>, outline: Option<seq<NodeIn>>
  )
    requires s.Consistent()
    requires PostProject(s, env, header, title, docType, mainPrompt, outline).Ok?
    ensures var (s', out) := PostProject(s, env, header, title, docType, mainPrompt, outline).value;
      var es := outline.GetOr([]);
      && |out.nodes| == |es|
      && forall i :: 0 <= i < |es| ==> out.nodes[i].node == NewNode(out.id, es[i].title, es[i].idx)
  {
    var userId := CurrentUser(s, env, header).value;
    var es := outline.GetOr([]);
    CreateProjectNodes(s, userId, title, docType, mainPrompt, es);
  }

  /** `list_projects`: exactly the caller's projects, in key order. */
  function ListProjects(s: Store, env: Env, header: Option<string>): (r: Result<seq<ProjectOut>, Failure>)
    requires s.Valid()
    ensures r.Ok? <==> CurrentUser(s, env, header).Ok?
    ensures r.Err? ==> r == Err(CurrentUser(s, env, header).error)
    ensures r.Ok? ==> var userId := CurrentUser(s, env, header).value;
      && (forall i :: 0 <= i < |r.value| ==> r.value[i].project.userId == userId)
      && (forall i, j :: 0 <= i < j < |r.value| ==> r.value[i].id < r.value[j].id)
      && (forall k :: k in s.projects.rows && s.projects.rows[k].userId == userId ==>
            exists i :: 0 <= i < |r.value| && r.value[i].id == k)
    ensures r.Ok? ==> forall i :: 0 <= i < |r.value| ==>
      r.value[i].id in s.projects.rows && r.value[i] == ProjectView(s, r.value[i].id)
  {
    var userId :- CurrentUser(s, env, header);
    var ids := GetProjectsForUser(s, userId);
    var out := ProjectViews(s, ids);
    forall k | k in s.projects.rows && s.projects.rows[k].userId == userId
      ensures exists i :: 0 <= i < |out| && out[i].id == k
    {
      var i :| 0 <= i < |ids| && ids[i] == k;
      assert out[i].id == k;
    }
    Ok(out)
  }

  function ProjectViews(s: Store, ids: seq<int>): (out: seq<ProjectOut>)
    requires s.Valid()
    requires forall i :: 0 <= i < |ids| ==> ids[i] in s.projects.rows
    ensures |out| == |ids|
    ensures forall i :: 0 <= i < |ids| ==> out[i].id == ids[i] && out[i].project == s.projects.rows[ids[i]]
    ensures forall i :: 0 <= i < |ids| ==> |out[i].nodes| == |NodesOf(s, ids[i])|
    ensures forall i, j :: 0 <= i < |ids| && 0 <= j < |out[i].nodes| ==>
      out[i].nodes[j].id == NodesOf(s, ids[i])[j] && out[i].nodes[j].node == s.nodes.rows[NodesOf(s, ids[i])[j]]
  {
    seq(|ids|, i requires 0 <= i < |ids| => ProjectView(s, ids[i]))
  }

  /** `get_project` (handler): the caller's project with its nodes. */
  function ReadProject(s: Store, env: Env, header: Option<string>, projectId: int): (r: Result<ProjectOut, Failure>)
    requires s.Valid()
    ensures CurrentUser(s, env, header).Err? ==> r == Err(CurrentUser(s, env, header).error)
    ensures CurrentUser(s, env, header).Ok? ==>
      (r.Ok? <==> OwnedProject(s, CurrentUser(s, env, header).value, projectId).Ok?)
    ensures CurrentUser(s, env, header).Ok? && r.Err? ==> r.error == ProjectNotFound
    ensures r.Ok? ==> r.value.id == projectId && r.value.project == s.projects.rows[projectId]
    ensures r.Ok? ==> forall k :: k in s.nodes.rows && s.nodes.rows[k].projectId == projectId <==>
      exists i :: 0 <= i < |r.value.nodes| && r.value.nodes[i].id == k
    ensures r.Ok? ==> r.value == ProjectView(s, projectId)
  {
    var userId :- CurrentUser(s, env, header);
    var _ :- OwnedProject(s, userId, projectId);
    var out := ProjectView(s, projectId);
    assert forall k :: k in s.nodes.rows && s.nodes.rows[k].projectId == projectId ==>
      exists i :: 0 <= i < |NodesOf(s, projectId)| && NodesOf(s, projectId)[i] == k && out.nodes[i].id == k;
    Ok(out)
  }

  /** `add_node` (handler): one node, with no content, in one of the caller's
      projects; nothing changes when the project is absent or not theirs. */
  function PostNode(s: Store, env: Env, header: Option<string>, projectId: int, title: string, idx: int): (r: Result<(Store, NodeOut), Failure>)
    requires s.Valid()
    ensures CurrentUser(s, env, header).Err? ==> r == Err(CurrentUser(s, env, header).error)
    ensures CurrentUser(s, env, header).Ok? ==>
      (r.Ok? <==> OwnedProject(s, CurrentUser(s, env, header).value, projectId).Ok?)
    ensures CurrentUser(s, env, header).Ok? && r.Err? ==> r.error == ProjectNotFound
    ensures r.Ok? ==> var (s', out) := r.value;
      && s'.Valid()
      && out.id !in s.nodes.rows
      && out.node == Node(projectId, idx, Some(title), None)
      && s'.nodes.rows == s.nodes.rows[out.id := out.node]
      && s'.users == s.users && s'.projects == s.projects && s'.revisions == s.revisions
  {
    var userId :- CurrentUser(s, env, header);
    var _ :- OwnedProject(s, userId, projectId);
    var (s', id) := AddNode(s, projectId, title, idx);
    Ok((s', NodeOut(id, s'.nodes.rows[id])))
  }

  // ---------------------------------------------------------------------------
  // Nodes: generation and refinement

  /** `str(x)` in an f-string for an optional string. */
  function Show(o: Option<string>): (r: string)
    ensures o.Some? ==> r == o.value
    ensures o.None? ==> r == "None"
  {
    match o
    case Some(v) => v
    case None => "None"
  }

  const GenerateHead := "    Generate content" + " for the document section:"
  const RefineHead := "    Refine the existing content."

  lemma ConsThree<T>(a: T, b: T, c: T, s: seq<T>, t: seq<T>)
    ensures [a] + ([b] + ([c] + (s + t))) == [a, b, c] + s + t
  {
  }

  lemma HeadsHaveNoNewline()
    ensures '\n' !in GenerateHead && '\n' !in RefineHead
  {
    GenerateHeadOneLine();
    RefineHeadOneLine();
  }

  lemma GenerateHeadOneLine()
    ensures '\n' !in GenerateHead
  {
    assert '\n' !in "    Generate content";
    assert '\n' !in " for the document section:";
  }

  lemma RefineHeadOneLine()
    ensures '\n' !in RefineHead
  {
  }

  /** The prompt `generate_node` sends: the lines of the f-string joined by
      newlines. */
  function GeneratePrompt(title: Option<string>, topic: Option<string>): string {
    Join(["", GenerateHead, "    Title: " + Show(title), "    Main Topic: " + Show(topic), "    "], '\n')
  }

  /** Read line by line, the generation prompt holds the section title and
      the project topic on lines of their own, provided neither contains a
      newline. */
  lemma GeneratePromptLines(title: Option<string>, topic: Option<string>)
    requires '\n' !in Show(title) && '\n' !in Show(topic)
    ensures Split(GeneratePrompt(title, topic), '\n') ==
      ["", GenerateHead, "    Title: " + Show(title), "    Main Topic: " + Show(topic), "    "]
  {
    var ls := ["", GenerateHead, "    Title: " + Show(title), "    Main Topic: " + Show(topic), "    "];
    assert '\n' !in ls[2] && '\n' !in ls[3];
    SplitJoin(ls, '\n');
  }

  /** The prompt `refine_node` sends: the lines of the f-string joined by
      newlines. */
  function RefinePrompt(title: Option<string>, content: Option<string>, instruction: string): string {
    Join(["", RefineHead, "    Section Title: " + Show(title), "    Existing Content: " + Show(content),
          "    Refinement Instruction: " + instruction, "    "], '\n')
  }

  /** Read line by line, the refinement prompt holds the section title on
      one line, then the existing content over as many lines as it has, then
      the instruction on a line of its own (title and instruction without
      newlines). */
  lemma RefinePromptLines(title: Option<string>, content: Option<string>, instruction: string)
    requires '\n' !in Show(title) && '\n' !in instruction
    ensures Split(RefinePrompt(title, content, instruction), '\n') ==
      ["", RefineHead, "    Section Title: " + Show(title)]
      + Split("    Existing Content: " + Show(content), '\n')
      + ["    Refinement Instruction: " + instruction, "    "]
  {
    var l2 := "    Section Title: " + Show(title);
    var l3 := "    Existing Content: " + Show(content);
    var l4 := "    Refinement Instruction: " + instruction;
    var ls := ["", RefineHead, l2, l3, l4, "    "];
    assert '\n' !in l2 && '\n' !in l4;
    var j3 := Join(ls[3..], '\n');
    var j2 := Join(ls[2..], '\n');
    var j1 := Join(ls[1..], '\n');
    assert ls[5..] == ["    "];
    assert ls[4..] == [l4] + ls[5..];
    assert Join(ls[4..], '\n') == l4 + ['\n'] + "    ";
    assert j3 == l3 + ['\n'] + (l4 + ['\n'] + "    ");
    assert j2 == l2 + ['\n'] + j3;
    assert j1 == RefineHead + ['\n'] + j2;
    assert Join(ls, '\n') == "" + ['\n'] + j1;
    HeadsHaveNoNewline();
    var s3 := Split(l3, '\n');
    var last := [l4, "    "];
    SplitConcat(l4, "    ", '\n');
    SplitWhole(l4, '\n');
    SplitWhole("    ", '\n');
    assert Split(l4 + ['\n'] + "    ", '\n') == last;
    SplitConcat(l3, l4 + ['\n'] + "    ", '\n');
    assert Split(j3, '\n') == s3 + last;
    SplitConcat(l2, j3, '\n');
    SplitWhole(l2, '\n');
    assert Split(j2, '\n') == [l2] + (s3 + last);
    SplitConcat(RefineHead, j2, '\n');
    SplitWhole(RefineHead, '\n');
    assert Split(j1, '\n') == [RefineHead] + ([l2] + (s3 + last));
    SplitConcat("", j1, '\n');
    SplitWhole("", '\n');
    assert Split(Join(ls, '\n'), '\n') == [""] + ([RefineHead] + ([l2] + (s3 + last)));
    ConsThree("", RefineHead, l2, s3, last);
  }

  /** `call_llm`: the model's text, or the error text when the call raises;
      never an exception. */
  function CallLlm(env: Env, prompt: string): (text: string)
    ensures env.upstream(prompt).Some? ==> text == env.upstream(prompt).value
    ensures env.upstream(prompt).None? ==> text == LlmErrorText
  {
    env.upstream(prompt).GetOr(LlmErrorText)
  }

  /** `filter_by(id=node_id, project_id=project_id).first()`: the node, if it
      exists and belongs to that project. */
  function FindNode(s: Store, projectId: int, nodeId: int): (r: Option<Node>)
    ensures r.Some? <==> nodeId in s.nodes.rows && s.nodes.rows[nodeId].projectId == projectId
    ensures r.Some? ==> r.value == s.nodes.rows[nodeId]
  {
    if nodeId in s.nodes.rows && s.nodes.rows[nodeId].projectId == projectId then Some(s.nodes.rows[nodeId])
    else None
  }

  /** `generate_node`: asks the model for the section's content and stores
      the answer as the node's content. No caller check and no revision. */
  function GenerateNode(s: Store, env: Env, projectId: int, nodeId: int): (r: Result<(Store, NodeOut), Failure>)
    requires s.Valid()
    ensures FindNode(s, projectId, nodeId).None? ==> r == Err(NodeNotFound)
    ensures s.Linked() ==> (r.Ok? <==> FindNode(s, projectId, nodeId).Some?)
    ensures r.Ok? ==> FindNode(s, projectId, nodeId).Some? && projectId in s.projects.rows
    ensures r.Ok? ==> var (s', out) := r.value;
      var n := s.nodes.rows[nodeId];
      && s'.Valid()
      && OnlyContentChanged(s, s', nodeId, CallLlm(env, GeneratePrompt(n.title, s.projects.rows[projectId].mainPrompt)))
      && out.id == nodeId && out.node == s'.nodes.rows[nodeId]
  {
    var n :- FindNode(s, projectId, nodeId).ToResult(NodeNotFound);
    if projectId !in s.projects.rows then Err(Crash("'NoneType' object has no attribute 'main_prompt'"))
    else
      var text := CallLlm(env, GeneratePrompt(n.title, s.projects.rows[projectId].mainPrompt));
      var s' := SetContent(s, nodeId, text);
      Ok((s', NodeOut(nodeId, s'.nodes.rows[nodeId])))
  }

  /** `refine_node`: sends the current content and the instruction to the
      model and replaces the content with its answer. No caller check and no
      revision. */
  function RefineNode(s: Store, env: Env, projectId: int, nodeId: int, instruction: string): (r: Result<(Store, NodeOut), Failure>)
    requires s.Valid()
    ensures r.Ok? <==> FindNode(s, projectId, nodeId).Some?
    ensures r.Err? ==> r.error == NodeNotFound
    ensures r.Ok? ==> var (s', out) := r.value;
      var n := s.nodes.rows[nodeId];
      && s'.Valid()
      && OnlyContentChanged(s, s', nodeId, CallLlm(env, RefinePrompt(n.title, n.content, instruction)))
      && out.id == nodeId && out.node == s'.nodes.rows[nodeId]
  {
    var n :- FindNode(s, projectId, nodeId).ToResult(NodeNotFound);
    var text := CallLlm(env, RefinePrompt(n.title, n.content, instruction));
    var s' := SetContent(s, nodeId, text);
    Ok((s', NodeOut(nodeId, s'.nodes.rows[nodeId])))
  }

  /** `get_node`: the node, when it belongs to that project. No caller check. */
  function ReadNode(s: Store, projectId: int, nodeId: int): (r: Result<NodeOut, Failure>)
    ensures r.Ok? <==> nodeId in s.nodes.rows && s.nodes.rows[nodeId].projectId == projectId
    ensures r.Err? ==> r.error == NodeNotFound
    ensures r.Ok? ==> r.value == NodeOut(nodeId, s.nodes.rows[nodeId])
  {
    var n :- FindNode(s, projectId, nodeId).ToResult(NodeNotFound);
    Ok(NodeOut(nodeId, n))
  }

  /** After generating, reading the node back shows the model's text, and a
      node of another project is not reachable through this project's path. */
  lemma GenerateThenRead(s: Store, env: Env, projectId: int, nodeId: int)
    requires s.Valid()
    requires GenerateNode(s, env, projectId, nodeId).Ok?
    ensures var s' := GenerateNode(s, env, projectId, nodeId).value.0;
      var n := s.nodes.rows[nodeId];
      ReadNode(s', projectId, nodeId) ==
        Ok(NodeOut(nodeId, n.(content := Some(CallLlm(env, GeneratePrompt(n.title, s.projects.rows[projectId].mainPrompt))))))
  {
  }

  /** A node is found through its own project's path and no other. */
  lemma NodeOnlyUnderItsProject(s: Store, projectId: int, otherId: int, nodeId: int)
    requires nodeId in s.nodes.rows && s.nodes.rows[nodeId].projectId == projectId && otherId != projectId
    ensures ReadNode(s, projectId, nodeId).Ok?
    ensures ReadNode(s, otherId, nodeId) == Err(NodeNotFound)
  {
  }

  // ---------------------------------------------------------------------------
  // Export

  /** `export`: the caller's project as a .docx (the default) or a .pptx
      file; any other format is refused with 400 once the project check has
      passed. */
  function ExportProject(s: Store, env: Env, header: Option<string>, projectId: int, format: Option<string>): (r: Result<ExportFile, Failure>)
    requires s.Valid()
    ensures CurrentUser(s, env, header).Err? ==> r == Err(CurrentUser(s, env, header).error)
    ensures CurrentUser(s, env, header).Ok? && OwnedProject(s, CurrentUser(s, env, header).value, projectId).Err? ==>
      r == Err(ProjectNotFound)
    ensures r.Ok? ==> OwnedProject(s, CurrentUser(s, env, header).value, projectId).Ok?
    ensures CurrentUser(s, env, header).Ok? && OwnedProject(s, CurrentUser(s, env, header).value, projectId).Ok? ==>
      (r.Err? <==> format.GetOr("docx") != "docx" && format.GetOr("docx") != "pptx")
    ensures r.Err? && r.error == InvalidFormat ==> format.Some?
    ensures r.Ok? && r.value.DocxFile? ==> var p := s.projects.rows[projectId];
      && format.GetOr("docx") == "docx"
      && r.value.filename == (if p.title != "" then p.title else "document") + ".docx"
      && r.value.blocks == AssembleDocx(p, ProjectNodes(s, projectId))
    ensures r.Ok? && r.value.PptxFile? ==> var p := s.projects.rows[projectId];
      && format == Some("pptx")
      && r.value.filename == (if p.title != "" then p.title else "presentation") + ".pptx"
      && r.value.slides == AssemblePptx(p, ProjectNodes(s, projectId), TitleLayoutPlaceholders)
  {
    var userId :- CurrentUser(s, env, header);
    var p :- OwnedProject(s, userId, projectId);
    var ns := ProjectNodes(s, projectId);
    var fmt := format.GetOr("docx");
    if fmt == "docx" then Ok(DocxFile(Or(Some(p.title), "document") + ".docx", AssembleDocx(p, ns)))
    else if fmt == "pptx" then Ok(PptxFile(Or(Some(p.title), "presentation") + ".pptx", AssemblePptx(p, ns, TitleLayoutPlaceholders)))
    else Err(InvalidFormat)
  }

  /** Leaving out the format is the same as asking for docx. */
  lemma ExportDefaultsToDocx(s: Store, env: Env, header: Option<string>, projectId: int)
    requires s.Valid()
    ensures ExportProject(s, env, header, projectId, None) == ExportProject(s, env, header, projectId, Some("docx"))
  {
  }

  // ---------------------------------------------------------------------------
  // Store invariants across handlers

  lemma PostProjectConsistent(
    s: Store, env: Env, header: Option<string>,
    title: string, docType: string, mainPrompt: Option<string>, outline: Option<seq<NodeIn>>
  )
    requires s.Consistent()
    requires PostProject(s, env, header, title, docType, mainPrompt, outline).Ok?
    ensures PostProject(s, env, header, title, docType, mainPrompt, outline).value.0.Consistent()
  {
    CreateProjectConsistent(s, CurrentUser(s, env, header).value, title, docType, mainPrompt, Some(outline.GetOr([])));
  }

  lemma PostNodeConsistent(s: Store, env: Env, header: Option<string>, projectId: int, title: string, idx: int)
    requires s.Consistent()
    requires PostNode(s, env, header, projectId, title, idx).Ok?
    ensures PostNode(s, env, header, projectId, title, idx).value.0.Consistent()
  {
  }

  lemma GenerateConsistent(s: Store, env: Env, projectId: int, nodeId: int)
    requires s.Consistent()
    requires GenerateNode(s, env, projectId, nodeId).Ok?
    ensures GenerateNode(s, env, projectId, nodeId).value.0.Consistent()
  {
  }

  lemma RefineConsistent(s: Store, env: Env, projectId: int, nodeId: int, instruction: string)
    requires s.Consistent()
    requires RefineNode(s, env, projectId, nodeId, instruction).Ok?
    ensures RefineNode(s, env, projectId, nodeId, instruction).value.0.Consistent()
  {
  }
}
