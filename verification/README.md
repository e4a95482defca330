# AI Document Generation backend — a Dafny model

This project models the backend of a small document-authoring service. A user
registers and logs in with a JWT bearer token. They create a *project*: a
title, a free-text document type, a main prompt and an outline of *nodes*
(sections with a title and an index). A language model writes a section's
content on request, and the user refines it with a further instruction. The
project is exported as a Word document or a PowerPoint deck.

The model is split into modules that follow the program's files:

- `Wrappers` and `Http` hold the `Option`/`Result` types and the HTTP error
  (`HttpError(status, detail)`). `Http` also has `Crash`, the uncaught Python
  exception that the framework turns into a 500.
- `PyStr` holds the Python string operations the backend relies on:
  `str.strip()`, `str.lstrip(chars)`, `str.split("\n")`, `str.split()` (split
  on whitespace), `str.lower()`, `str(int)` and `int(str)`.
- `Models` holds the four tables (`users`, `projects`, `nodes`,
  `revisions`). Each is a map from primary key to row plus the next key to
  hand out. `Store.Consistent` states unique emails, that every project's
  owner exists and that every node's project exists. The foreign keys of
  `revisions` (`node_id`, `user_id`) are not part of it.
- `Crud` holds the data-access functions, as pure functions from store to
  store.
- `Auth` covers the bearer-header parser, the token's claim set and lifetime,
  and the decode wrapper.
- `Export` models `assemble_docx` and `assemble_pptx`. They produce the
  logical content of the file: a list of blocks (headings, paragraphs, bullet
  items) or a list of slides.
- `Api` holds every request handler. Each one takes the store, an `Env` of
  opaque collaborators and the request's inputs. It returns the new store and
  the response, or the failure it raises. The collaborators are password
  hashing, JWT encoding and decoding, the language model and the clock.

## Model

| member | source | states |
|---|---|---|
| PyStr.Strip | backend/app/services/export_service.py:15 | `str.strip()`: the result is empty exactly when the line is all whitespace, and otherwise neither starts nor ends with whitespace |
| PyStr.StripIsTrim | backend/app/services/export_service.py:15 | the stripped line is the contiguous middle of the line, and only whitespace was removed on either side |
| PyStr.StripNoop | backend/app/services/export_service.py:16 | stripping a line that neither starts nor ends with whitespace changes nothing |
| PyStr.LStripSet | backend/app/services/export_service.py:16 | `lstrip("-* ")` removes exactly the leading run of those characters: the result is the rest of the line after that run, and it starts with another character |
| PyStr.StripPadded | backend/app/services/export_service.py:15 | a text that neither starts nor ends with whitespace, padded with whitespace on both sides, strips back to itself |
| PyStr.LStripStripSlice | backend/app/services/export_service.py:16 | `line.lstrip(chars).strip()` is the part of the line after the leading run of `chars` and the whitespace that follows it, and only whitespace comes after that part |
| PyStr.Split | backend/app/services/export_service.py:14 | `split("\n")` gives one more piece than there are newlines, no piece contains a newline, and joining the pieces restores the text |
| PyStr.SplitJoin | backend/app/services/export_service.py:14 | splitting the join of newline-free lines gives back exactly those lines |
| PyStr.SplitPiece | backend/app/services/export_service.py:14 | splitting `a + "\n" + t` gives `a` followed by the pieces of `t` |
| PyStr.Words | backend/app/auth.py:53 | `split()`: every word is non-empty and free of whitespace, and the words concatenated are the text with its whitespace removed |
| PyStr.TwoWords | backend/app/auth.py:53 | whitespace, a word, whitespace, a word, whitespace splits into exactly those two words |
| PyStr.WordsSkipSpace | backend/app/auth.py:53 | leading whitespace never produces a word |
| PyStr.WordsTakeWord | backend/app/auth.py:53 | a run of non-whitespace followed by whitespace (or the end) is the first word, and the rest of the words come from what follows |
| PyStr.Lower | backend/app/auth.py:54 | `lower()` keeps the length and lowers each character independently |
| PyStr.LowerMatches | backend/app/auth.py:54 | a word lowers to a given lower-case word exactly when each letter is that letter in either case |
| PyStr.NatToDigits | backend/app/main.py:38 | `str(n)` for a natural number is a non-empty run of digits with no leading zero |
| PyStr.IntToStr | backend/app/main.py:38 | `str(id)` starts with "-" exactly when `id` is negative, and the rest is digits |
| PyStr.ParseInt | backend/app/main.py:53 | `int(s)`: an all-blank string and a string whose first character is neither blank, a sign nor a digit are rejected |
| PyStr.ParseSigned | backend/app/main.py:53 | the trimmed text parses only when it is non-empty, and never when it starts with a character other than a sign or a digit |
| PyStr.ParseIntRejectsSeparator | backend/app/main.py:53 | a string starting with one of `\x1c`-`\x1f` does not parse, although `str.isspace()` holds for that character |
| PyStr.ParseUnsigned | backend/app/main.py:53 | a bare run of digits parses to its decimal value |
| PyStr.ParseNegative | backend/app/main.py:53 | "-" followed by digits parses to the negated value |
| PyStr.IntTrimPadded | backend/app/main.py:53 | `int()` ignores blanks (its six `IntSpace` characters) around the number |
| PyStr.ParseIntAccepts | backend/app/main.py:53 | every blank-padded run of digits with an optional "+" or "-" parses, to the digits' value, negated after "-" |
| PyStr.ParseIntShape | backend/app/main.py:53 | conversely, an accepted string is blanks, an optional sign, one or more digits and blanks, and its value is the one the digits spell; so trailing junk is refused |
| PyStr.ParseIntExamples | backend/app/main.py:53 | `int(" 7 ")` is 7, `int("+5")` is 5 and `int("5x")` raises |
| PyStr.ParseIntToStr | backend/app/main.py:38 | `int(str(id))` gives back `id` for every integer, negative ones included |
| PyStr.DigitsRoundTrip | backend/app/main.py:38 | the decimal digits of a natural number evaluate back to that number |
| Models.Table.Insert | backend/app/crud.py:10-12 | an insert gets a fresh positive key, adds exactly that row and keeps every other row |
| Models.Table.Where | backend/app/crud.py:33 | a filtered query returns exactly the keys of the matching rows, in ascending order |
| Models.First | backend/app/crud.py:6 | `.first()` is the lowest matching key, and it is absent exactly when no row matches |
| Models.EmptyStore | backend/app/models.py:6-43 | a fresh database satisfies every store invariant |
| Crud.GetUserByEmail | backend/app/crud.py:5-6 | the result is a user with that email, and it is absent exactly when no user has that email |
| Crud.CreateUser | backend/app/crud.py:8-13 | exactly one user is added, under a new key, storing the hash of the password; the other tables are unchanged |
| Crud.AuthenticateUser | backend/app/crud.py:15-19 | the user found by email is returned exactly when the password verifies against their stored hash |
| Crud.AuthenticateUserIff | backend/app/crud.py:15-19 | with unique emails, authentication fails exactly when no user with that email has a hash the password verifies against |
| Crud.CreateProject | backend/app/crud.py:21-30 | one new project with the given fields, plus one content-less node per outline entry under consecutive new keys; existing rows are untouched |
| Crud.CreateProjectConsistent | backend/app/crud.py:21-30 | creating a project for an existing user keeps unique emails and every foreign key |
| Crud.CreateProjectNodes | backend/app/crud.py:24-28 | the new project's nodes, read back in key order, are the outline entries in order |
| Crud.NodesOf | backend/app/models.py:23 | `project.nodes` holds exactly that project's nodes, in ascending key order |
| Crud.AscendingUnique | backend/app/models.py:23 | two ascending key lists with the same members are equal, so `project.nodes` is determined |
| Crud.AddNodes | backend/app/crud.py:25-27 | entry `i` of the outline becomes node `next + i`; earlier rows are kept |
| Crud.GetProjectsForUser | backend/app/crud.py:32-33 | the keys of exactly the user's projects, ascending |
| Crud.GetProject | backend/app/crud.py:35-36 | the project with that key, absent exactly when there is none |
| Crud.AddNode | backend/app/crud.py:38-41 | exactly one node is added, with the given title and index and no content; the other tables are unchanged |
| Crud.SetContent | backend/app/main.py:101-102 | only that node's content changes; every other row of every table is unchanged |
| Crud.UpdateNodeContent | backend/app/crud.py:43-48 | an existing node gets the new content and nothing else changes; a missing key fails |
| Crud.CreateRevision | backend/app/crud.py:50-53 | exactly one revision is appended with the given fields; existing revisions and other tables are unchanged |
| Auth.GetCurrentToken | backend/app/auth.py:49-57 | a missing or empty header gives 401 "Authorization header missing"; otherwise the token is accepted exactly when the header has two words and the first lowers to "bearer", and the second word is the token; anything else gives 401 "Invalid Authorization header format" |
| Auth.BearerHeaderAccepted | backend/app/auth.py:53-57 | any header of the form blank, "bearer" in any letter case, blank, token, blank yields the token |
| Auth.SpellsBearerLower | backend/app/auth.py:54 | `w.lower() == "bearer"` exactly when `w` spells bearer in a mix of cases |
| Auth.OtherSchemeRejected | backend/app/auth.py:53-55 | a header whose first word is not "bearer" in any letter case is rejected with the format error |
| Auth.Lifetime | backend/app/auth.py:35 | a missing or zero delta falls back to 24 hours; any other delta is used as given |
| Auth.AccessClaims | backend/app/auth.py:33-36 | the signed claims are the caller's claims with `exp` set to now plus the lifetime; every other claim is kept |
| Auth.CreateAccessTokenDecodes | backend/app/auth.py:33-37 | when decoding inverts encoding, a token made by `create_access_token` decodes to the caller's claims with `exp` added |
| Auth.DecodeAccessToken | backend/app/auth.py:40-45 | the payload is returned when decoding succeeds, and `None` exactly when the JWT library raises |
| Export.Or | backend/app/services/export_service.py:8 | `x or default` for an optional string: the value when non-empty, the default otherwise |
| Export.InsertByIdx | backend/app/services/export_service.py:11 | inserting into an index-sorted list keeps it sorted and adds exactly that node |
| Export.SortByIdx | backend/app/services/export_service.py:11 | `sorted(nodes, key=idx)` is sorted by index and a permutation of the nodes |
| Export.SortStable | backend/app/services/export_service.py:11 | the sort is stable: nodes with equal index keep their relative order |
| Export.InsertWithIdx | backend/app/services/export_service.py:11 | inserting a node puts it before the nodes already holding its index, and leaves the other index groups unchanged |
| Export.StableSortUnique | backend/app/services/export_service.py:11 | two sorted lists that hold the same nodes and have the same order within each index are equal |
| Export.SortByIdxIsStableSort | backend/app/services/export_service.py:11 | any sorted, stable permutation of the nodes is the result of the sort |
| Export.SortExample | backend/app/services/export_service.py:11 | nodes with indexes 3, 1, 2 are emitted in the order 1, 2, 3 |
| Export.Lines | backend/app/services/export_service.py:13-14 | empty or absent content yields no lines; otherwise the lines are the newline-split pieces and join back to the content |
| Export.MarkedIsPrefix | backend/app/services/export_service.py:15 | the bullet test is exactly `startswith("- ") or startswith("* ")` |
| Export.BulletText | backend/app/services/export_service.py:16 | the bullet text is at least two characters shorter than the stripped line and, when non-empty, is itself stripped |
| Export.BulletTextSlice | backend/app/services/export_service.py:16 | the bullet text is the slice of the stripped line that starts after the marks and the spaces that follow them, and only whitespace comes after it |
| Export.Classify | backend/app/services/export_service.py:15-18 | a line becomes a paragraph holding the line unchanged (surrounding whitespace included) or a bullet item holding stripped text |
| Export.ClassifyBulletLine | backend/app/services/export_service.py:15-16 | whitespace, "-" or "*", a space, any further marks and spaces, a text `w` and whitespace: the line is the bullet item `w`, inner spaces of `w` kept |
| Export.RepeatedMarkExample | backend/app/services/export_service.py:16 | "- - x" is the bullet item "x" |
| Export.PaddedMarkExample | backend/app/services/export_service.py:15-16 | "  * x  " is the bullet item "x" |
| Export.SpacedTextExample | backend/app/services/export_service.py:16 | "- hello world" is the bullet item "hello world" |
| Export.ClassifyBulletIff | backend/app/services/export_service.py:15 | a line is a bullet exactly when, after leading whitespace, it starts with "-" or "*" followed by a space |
| Export.ClassifyMarkedWord | backend/app/services/export_service.py:15-16 | "- word" and "* word" become the bullet item "word" |
| Export.ClassifyPlainWord | backend/app/services/export_service.py:17-18 | a word that starts with neither "-" nor "*" stays a plain paragraph |
| Export.NodeBlocks | backend/app/services/export_service.py:12-18 | each section is one level-2 heading with the title (or ""), then one classified block per content line |
| Export.ClassifyAll | backend/app/services/export_service.py:14-18 | one non-heading block per line, each the classification of that line |
| Export.NodeBlocksOfLines | backend/app/services/export_service.py:13-18 | content joined from newline-free lines gives one block per line, each the classification of that line |
| Export.BulletExample | backend/app/services/export_service.py:13-18 | content "- a\nb\n* c" gives the blocks bullet a, paragraph b, bullet c after the heading |
| Export.AssembleDocx | backend/app/services/export_service.py:6-22 | the document opens with a level-1 heading holding the title, or "Document" when the title is empty; a "Topic: " paragraph follows exactly when the main prompt is non-empty; everything after that is the section blocks of the nodes in index order |
| Export.Titles | backend/app/services/export_service.py:12 | the section titles of a node list, with an absent title shown as "" |
| Export.SectionBlocks | backend/app/services/export_service.py:11-18 | the sections' blocks hold one heading per node plus one block per content line, and their level-2 headings are the node titles in order |
| Export.SectionBlocksAt | backend/app/services/export_service.py:11-18 | node `i`'s blocks (its heading, then its own classified lines) start right after the blocks of nodes `0` to `i - 1` |
| Export.DocxNodeBlocks | backend/app/services/export_service.py:8-18 | in the document, the `i`-th node in index order has its heading and then exactly its own classified lines, right after the title, the topic and the earlier nodes' blocks |
| Export.DocxSections | backend/app/services/export_service.py:6-18 | the document's section headings are the titles of the nodes in index order; content lines never add a section heading |
| Export.DocxSize | backend/app/services/export_service.py:6-18 | the document has 1 block, plus 1 for the topic, plus one heading and one block per content line for each node |
| Export.BlockCountSort | backend/app/services/export_service.py:11 | sorting does not change how many blocks the sections produce |
| Export.WriteBody | backend/app/services/export_service.py:40-45 | the first line replaces the frame's text and later lines are appended; with no lines the frame is left as it was |
| Export.NodeSlide | backend/app/services/export_service.py:35-45 | a content slide titled with the node title (or ""), whose body is the content's lines unclassified, joining back to the content exactly |
| Export.AssemblePptx | backend/app/services/export_service.py:24-49 | one title slide and then one content slide per node; the title is set only when non-empty (no fallback), and the subtitle only when the main prompt is non-empty and the layout has a second placeholder; slide `i + 1` is the slide of the `i`-th node in index order |
| Export.PptxSlides | backend/app/services/export_service.py:34-45 | slide `i + 1` carries the title of the `i`-th node in index order; for non-empty content its body has one paragraph per newline-separated piece and joins back to the content; otherwise it keeps the placeholder's single empty paragraph |
| Export.DocxPptxAgree | backend/app/services/export_service.py:11-12 | the deck's content slides and the document's sections have the same titles in the same order |
| Api.IntOfFloat | backend/app/main.py:53 | `int(x)` of a float truncates toward zero |
| Api.SubjectId | backend/app/main.py:53 | `int(payload.get("sub"))`: an integer subject is used as is, a float is truncated toward zero, a boolean is 0 or 1, a string is accepted exactly when `int()` parses it (blanks `\x1c`-`\x1f` excluded); a missing, null, array or object subject raises |
| Api.CurrentUser | backend/app/main.py:49-56 | header errors pass through; an undecodable or empty payload gives 401 "Invalid token"; a non-integer subject raises; an unknown user gives 404 "User not found"; success names an existing user |
| Api.IssuedTokenClaims | backend/app/main.py:38 | the token issued for a user decodes to a payload whose subject reads back as that user's key and whose `exp` is now plus 24 hours |
| Api.IssuedTokenResolves | backend/app/main.py:38 | a token issued for an existing user, sent as "Bearer <token>", authenticates that user when decoding inverts encoding |
| Api.Register | backend/app/main.py:33-39 | 400 "Email already registered" exactly when some user has that email; otherwise one user is added with the hashed password and a token naming the new user is returned |
| Api.RegisterConsistent | backend/app/main.py:33-39 | a successful registration keeps emails unique and the store consistent |
| Api.RegisterThenLogin | backend/app/main.py:33-47 | after registering, logging in with the same email and password returns the same token |
| Api.Login | backend/app/main.py:41-47 | 401 "Invalid credentials" exactly when authentication fails; otherwise a token naming the authenticated user |
| Api.OwnedProject | backend/app/main.py:70-72 | the project is returned exactly when it exists and belongs to the caller; otherwise 404 "Project not found" |
| Api.ForeignProjectLooksAbsent | backend/app/main.py:70-72 | someone else's project gives the same answer as a project that does not exist |
| Api.PostProject | backend/app/main.py:58-62 | succeeds exactly when the caller authenticates; adds one project owned by the caller with the given fields, keeps every existing node, adds node `next + i` for outline entry `i` (under the new project, with the entry's title and index) and nothing else, leaves users and revisions alone, and answers with the new project's stored view |
| Api.PostProjectOutline | backend/app/main.py:58-62 | the response lists one content-less node per outline entry, in entry order; a missing outline gives none |
| Api.PostProjectConsistent | backend/app/main.py:58-62 | creating a project keeps every store invariant |
| Api.ListProjects | backend/app/main.py:64-66 | exactly the caller's projects, each listed once, in ascending key order; every entry is a stored project shown with its stored fields and nodes |
| Api.ProjectNodes | backend/app/main.py:153 | `p.nodes` as rows: entry `i` is the row of the project's `i`-th node key, so the list holds that project's nodes in key order |
| Api.ProjectView | backend/app/schemas.py:32-37 | a project response carries the project's fields and its nodes: entry `i` is the project's `i`-th node key with its row, keys strictly ascending |
| Api.ProjectViews | backend/app/main.py:66 | one response per key, in the given order, each with that project's fields and exactly its nodes in key order |
| Api.ReadProject | backend/app/main.py:68-73 | the caller's project with exactly its nodes, each with its stored row, in ascending key order; 404 "Project not found" for an absent or foreign project |
| Api.PostNode | backend/app/main.py:75-81 | adds one content-less node to the caller's project; 404 "Project not found" for an absent or foreign project; the other tables are unchanged |
| Api.PostNodeConsistent | backend/app/main.py:75-81 | adding a node keeps every store invariant |
| Api.Show | backend/app/main.py:91-95 | an f-string shows an absent value as "None" |
| Api.GeneratePromptLines | backend/app/main.py:91-95 | the generation prompt's lines are: empty, the instruction, "Title: " and the title, "Main Topic: " and the main prompt, and the indentation, when the two values hold no newline |
| Api.RefinePromptLines | backend/app/main.py:123-128 | the refinement prompt's lines are: empty, the instruction, the section title, the existing content's own lines, the refinement instruction and the indentation |
| Api.CallLlm | backend/app/services/llm_service.py:17-23 | the model's text, or the fixed error text when the call raises |
| Api.FindNode | backend/app/main.py:85 | the node is found exactly when it exists and belongs to that project |
| Api.GenerateNode | backend/app/main.py:83-112 | 404 "Node not found" exactly when the node is not in that project; otherwise the node's content becomes the model's answer to the section prompt, nothing else changes, and no revision is recorded |
| Api.GenerateThenRead | backend/app/main.py:83-112 | after generating, reading the node returns the model's text |
| Api.GenerateConsistent | backend/app/main.py:100-102 | generating keeps every store invariant |
| Api.RefineNode | backend/app/main.py:115-145 | 404 "Node not found" exactly when the node is not in that project; otherwise the content becomes the model's answer to the refinement prompt, and nothing else changes |
| Api.RefineConsistent | backend/app/main.py:133-135 | refining keeps every store invariant |
| Api.ReadNode | backend/app/main.py:163-179 | the node exactly when it belongs to that project, with no caller check; 404 "Node not found" otherwise |
| Api.NodeOnlyUnderItsProject | backend/app/main.py:165-171 | a node is reachable through its own project's path and through no other |
| Api.ExportProject | backend/app/main.py:148-161 | authentication, then ownership (404), then the format, which defaults to docx; the filename is the title or "document".docx / "presentation".pptx; any other format gives 400 "Invalid format" |
| Api.ExportDefaultsToDocx | backend/app/main.py:149 | leaving out the format is the same as asking for docx |

## Left out

- Password hashing (pbkdf2) and JWT signing and verification (HS256, the
  secret key) are cryptography. They enter as the functions `hash`, `verify`,
  `encode` and `decode` of `Api.Env`. `Auth.CreateAccessToken` is the
  opaque encoding of `Auth.AccessClaims`; what is promised about it is that
  a `decode` inverting `encode` gives those claims back
  (`Auth.CreateAccessTokenDecodes`).
- The Gemini call is a network call. It is the oracle `Env.upstream`, with
  `None` standing for an exception. The printed log line is not modelled.
- The .docx and .pptx binary formats (python-docx, python-pptx, `BytesIO`) are
  not modelled. An export is its list of blocks or slides. The "List Bullet"
  style is the `BulletItem` block. The default template's title layout is
  taken to have two placeholders.
- FastAPI and SQLAlchemy plumbing is not modelled: sessions, dependency
  injection, response-model serialisation, CORS and the streaming response's
  media types. `db.refresh` is not modelled because the model's rows are
  values.
- A commit that fails is not modelled, and neither is concurrency. This
  covers the IntegrityError that `create_user` would raise if two
  registrations with the same email raced past the check. It also covers
  `create_project` committing the project before its nodes.
- A query without ORDER BY (`project.nodes`, `.all()`, `.first()`) is taken to
  return rows in ascending key order.
- The `comments` table (backend/app/models.py:45-51) is not used by any
  handler and is not modelled.
- `created_at`/`updated_at` server defaults are not modelled. The clock is
  `Env.now` in whole seconds; sub-second expiry times are not modelled.
- A node with a NULL `idx` is not modelled: `idx` is always an integer. In the
  source, sorting compares a NULL `idx` against another node's index and
  raises a TypeError. A project whose only node has a NULL `idx` sorts
  without a comparison.
- PyStr.Strip: only ASCII whitespace counts as whitespace: the ten
  characters for which `str.isspace()` holds (tab, newline, vertical tab,
  form feed, carriage return, `\x1c`-`\x1f` and space). Python also strips
  the Unicode spaces. `int()` skips only six of them (`PyStr.IntSpace`).
- PyStr.Lower: only ASCII letters are lowered.
- Api.SubjectId: `int()` of a string is modelled for an optional sign and
  ASCII digits with surrounding whitespace. Underscores between digits and
  non-ASCII digits, which Python also accepts, are not modelled. A float
  subject is a mathematical real: the rounding of IEEE doubles, and the
  `ValueError`/`OverflowError` that `int()` raises for NaN and infinity, are
  not modelled. python-jose's `jwt.decode` rejects a `sub` that is present
  but not a string (a `JWTClaimsError`, hence 401 "Invalid token"). The
  decoder `Env.decode` is not required to do so, so the integer, float and
  boolean subjects are reachable only with a decoder that lets them through.
- Api.ExportProject: returns the file for every owned project and known
  format. Two ways the source fails there are not modelled. Starlette
  encodes header values as latin-1, so a title outside latin-1 (such as
  "项目") makes building the `Content-Disposition` header raise, a 500. And
  python-docx (through lxml) raises `ValueError` on a title or content line
  holding a character XML does not allow, such as `"\x01"`.
- Crud.UpdateNodeContent and Crud.CreateRevision are not called by any
  handler. They are modelled on their own.
- The request schemas' type checks happen before a handler runs and are not
  modelled. `UserCreate.email` is a plain `str` (backend/app/schemas.py:5), so
  the email is not validated in the source either.

The model follows the code:

- The export format is a query parameter and defaults to "docx". The
  project's stored `doc_type` plays no part.
- `generate` and `refine` check no token and record no revision.
- The PowerPoint export has no "Document" title fallback and does not
  classify bullet lines. Every line is written as it is.
- The Authorization header is split on any run of whitespace, and the scheme
  is compared case-insensitively.
