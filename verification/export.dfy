/** The document assembler: turns a project and its nodes into the logical
    content of a word-processor document (a list of blocks) or of a slide deck
    (a list of slides). The binary file formats are not modelled. */
module Export {
  import opened Wrappers
  import opened PyStr
  import opened Models

  /** Python truthiness of an optional string: present and non-empty. */
  predicate Truthy(o: Option<string>) {
    o.Some? && o.value != ""
  }

  /** `o or default` for an optional string. */
  function Or(o: Option<string>, default: string): (r: string)
    ensures Truthy(o) ==> r == o.value
    ensures !Truthy(o) ==> r == default
  {
    if Truthy(o) then o.value else default
  }

  // ---------------------------------------------------------------------------
  // Ordering: `sorted(nodes, key=lambda x: x.idx)`

  predicate SortedByIdx(ns: seq<Node>) {
    forall i, j :: 0 <= i < j < |ns| ==> ns[i].idx <= ns[j].idx
  }

  /** The nodes with index `k`, in their order within `ns`. */
  function WithIdx(ns: seq<Node>, k: int): seq<Node>
  {
    if |ns| == 0 then [] else (if ns[0].idx == k then [ns[0]] else []) + WithIdx(ns[1..], k)
  }

  /** Inserts `n` into a sorted list before every node whose index is not
      smaller, so `n` precedes the nodes with an equal index. */
  function InsertByIdx(n: Node, ns: seq<Node>): (r: seq<Node>)
    requires SortedByIdx(ns)
    ensures SortedByIdx(r)
    ensures multiset(r) == multiset(ns) + multiset{n}
    decreases |ns|
  {
    if |ns| == 0 || n.idx <= ns[0].idx then
      SortedCons(n, ns);
      [n] + ns
    else
      SortedTail(ns);
      var tail := InsertByIdx(n, ns[1..]);
      LowerBound(ns[0], n, ns[1..], tail);
      SortedCons(ns[0], tail);
      assert ns == [ns[0]] + ns[1..];
      [ns[0]] + tail
  }

  /** A node no later than `n` and than every node of `rest` is no later
      than any node of a permutation of `rest` plus `n`. */
  lemma LowerBound(h: Node, n: Node, rest: seq<Node>, tail: seq<Node>)
    requires h.idx <= n.idx
    requires forall j :: 0 <= j < |rest| ==> h.idx <= rest[j].idx
    requires multiset(tail) == multiset(rest) + multiset{n}
    ensures forall j :: 0 <= j < |tail| ==> h.idx <= tail[j].idx
  {
    forall j | 0 <= j < |tail| ensures h.idx <= tail[j].idx {
      assert tail[j] in multiset(tail);
      assert tail[j] == n || tail[j] in rest;
    }
  }

  /** A node no later than every node of a sorted list can go in front. */
  lemma SortedCons(h: Node, t: seq<Node>)
    requires SortedByIdx(t)
    requires forall j :: 0 <= j < |t| ==> h.idx <= t[j].idx
    ensures SortedByIdx([h] + t)
  {
  }

  /** Inserting `n` puts it in front of the nodes sharing its index and
      leaves every group of equal-index nodes otherwise as it was. */
  lemma {:induction false} InsertWithIdx(n: Node, ns: seq<Node>, k: int)
    requires SortedByIdx(ns)
    ensures WithIdx(InsertByIdx(n, ns), k) == (if n.idx == k then [n] else []) + WithIdx(ns, k)
    decreases |ns|
  {
    if |ns| == 0 || n.idx <= ns[0].idx {
      assert ([n] + ns)[1..] == ns;
    } else {
      var rest := ns[1..];
      assert SortedByIdx(rest);
      var tail := InsertByIdx(n, rest);
      assert InsertByIdx(n, ns) == [ns[0]] + tail;
      InsertWithIdx(n, rest, k);
      assert ([ns[0]] + tail)[1..] == tail;
      var h0 := if ns[0].idx == k then [ns[0]] else [];
      var hn := if n.idx == k then [n] else [];
      assert WithIdx([ns[0]] + tail, k) == h0 + WithIdx(tail, k);
      assert WithIdx(ns, k) == h0 + WithIdx(rest, k);
      assert h0 == [] || hn == [];
      assert h0 + (hn + WithIdx(rest, k)) == hn + (h0 + WithIdx(rest, k));
    }
  }

  /** Insertion sort by `idx`: a stable sort, as Python's `sorted` is. */
  function SortByIdx(ns: seq<Node>): (r: seq<Node>)
    ensures SortedByIdx(r)
    ensures multiset(r) == multiset(ns)
    ensures |r| == |ns|
    decreases |ns|
  {
    if |ns| == 0 then []
    else
      assert ns == [ns[0]] + ns[1..];
      var r := InsertByIdx(ns[0], SortByIdx(ns[1..]));
      assert |multiset(r)| == |multiset(ns)|;
      r
  }

  /** Sorting keeps each group of equal-index nodes in input order. */
  lemma {:induction false} SortStable(ns: seq<Node>, k: int)
    ensures WithIdx(SortByIdx(ns), k) == WithIdx(ns, k)
    decreases |ns|
  {
    if |ns| > 0 {
      SortStable(ns[1..], k);
      InsertWithIdx(ns[0], SortByIdx(ns[1..]), k);
    }
  }

  /** A stable sort by `idx` has a single possible result: two sorted
      permutations of the same nodes that keep every group of equal-index
      nodes in the same order are equal. */
  lemma {:induction false} StableSortUnique(a: seq<Node>, b: seq<Node>)
    requires SortedByIdx(a) && SortedByIdx(b)
    requires multiset(a) == multiset(b)
    requires forall k :: WithIdx(a, k) == WithIdx(b, k)
    ensures a == b
    decreases |a|
  {
    assert |a| == |multiset(a)| == |multiset(b)| == |b|;
    if |a| > 0 {
      SameHead(a, b);
      forall k ensures WithIdx(a[1..], k) == WithIdx(b[1..], k) {
        SameTailGroups(a, b, k);
      }
      SortedTail(a);
      SortedTail(b);
      StableSortUnique(a[1..], b[1..]);
      assert a == [a[0]] + a[1..] && b == [b[0]] + b[1..];
    }
  }

  /** Dropping the first node of a sorted list leaves a sorted list of the
      remaining nodes. */
  lemma SortedTail(a: seq<Node>)
    requires SortedByIdx(a) && |a| > 0
    ensures SortedByIdx(a[1..])
    ensures multiset(a[1..]) == multiset(a) - multiset{a[0]}
  {
    assert a == [a[0]] + a[1..];
  }

  lemma SameHead(a: seq<Node>, b: seq<Node>)
    requires SortedByIdx(a) && SortedByIdx(b) && |a| > 0 && |b| > 0
    requires multiset(a) == multiset(b)
    requires forall k :: WithIdx(a, k) == WithIdx(b, k)
    ensures a[0] == b[0]
  {
    assert a[0] in multiset(b) && b[0] in multiset(a);
    var i :| 0 <= i < |b| && b[i] == a[0];
    var j :| 0 <= j < |a| && a[j] == b[0];
    assert b[0].idx <= b[i].idx && a[0].idx <= a[j].idx;
    var m := a[0].idx;
    assert b[0].idx == m;
    assert WithIdx(a, m)[0] == a[0];
    assert WithIdx(b, m)[0] == b[0];
  }

  lemma SameTailGroups(a: seq<Node>, b: seq<Node>, k: int)
    requires |a| > 0 && |b| > 0 && a[0] == b[0]
    requires WithIdx(a, k) == WithIdx(b, k)
    ensures WithIdx(a[1..], k) == WithIdx(b[1..], k)
  {
    var h := if a[0].idx == k then [a[0]] else [];
    assert WithIdx(a, k) == h + WithIdx(a[1..], k);
    assert WithIdx(b, k) == h + WithIdx(b[1..], k);
    assert WithIdx(a[1..], k) == WithIdx(a, k)[|h|..];
    assert WithIdx(b[1..], k) == WithIdx(b, k)[|h|..];
  }

  /** `SortByIdx` agrees with any independent description of a stable sort:
      a sorted permutation keeping equal-index nodes in input order. */
  lemma SortByIdxIsStableSort(ns: seq<Node>, r: seq<Node>)
    requires SortedByIdx(r) && multiset(r) == multiset(ns)
    requires forall k :: WithIdx(r, k) == WithIdx(ns, k)
    ensures r == SortByIdx(ns)
  {
    forall k ensures WithIdx(r, k) == WithIdx(SortByIdx(ns), k) {
      SortStable(ns, k);
    }
    StableSortUnique(r, SortByIdx(ns));
  }

  // ---------------------------------------------------------------------------
  // Lines and their classification

  /** The lines a node contributes: its content split on newlines, or none at
      all when the content is absent or empty. */
  function Lines(content: Option<string>): (ls: seq<string>)
    ensures !Truthy(content) ==> ls == []
    ensures Truthy(content) ==> |ls| == Count(content.value, '\n') + 1 && Join(ls, '\n') == content.value
  {
    if Truthy(content) then Split(content.value, '\n') else []
  }

  datatype Block =
    | Heading(text: string, level: int)
    | Para(text: string)
    | BulletItem(text: string)

  const BulletMarkChars: set<char> := {'-', '*', ' '}

  /** The stripped line starts with "- " or "* " (see `MarkedIsPrefix`). */
  predicate Marked(t: string) {
    |t| >= 2 && (t[0] == '-' || t[0] == '*') && t[1] == ' '
  }

  lemma MarkedIsPrefix(t: string)
    ensures Marked(t) <==> StartsWith(t, "- ") || StartsWith(t, "* ")
  {
    assert "- "[0] == '-' && "- "[1] == ' ';
    assert "* "[0] == '*' && "* "[1] == ' ';
  }

  /** The text of a bullet item: leading '-', '*' and spaces removed from the
      stripped line, then stripped again. */
  function BulletText(t: string): (r: string)
    requires Marked(t)
    ensures |r| + 2 <= |t|
    ensures r != [] ==> !IsSpace(r[0]) && !IsSpace(r[|r| - 1])
  {
    assert t[0] in BulletMarkChars && t[1] in BulletMarkChars;
    assert LeadCount(t, BulletMarkChars) >= 2;
    Strip(LStripSet(t, BulletMarkChars))
  }

  lemma BulletTextSlice(t: string)
    requires Marked(t)
    ensures LStripStripStart(t, BulletMarkChars) + |BulletText(t)| <= |t|
    ensures BulletText(t) == t[LStripStripStart(t, BulletMarkChars)..LStripStripStart(t, BulletMarkChars) + |BulletText(t)|]
    ensures AllIn(t[LStripStripStart(t, BulletMarkChars) + |BulletText(t)|..], Whitespace)
  {
    LStripStripSlice(t, BulletMarkChars);
  }

  /** One content line in the document: a bullet item when its stripped form
      starts with "- " or "* ", otherwise the line itself, unstripped. */
  function Classify(line: string): (b: Block)
    ensures !b.Heading?
    ensures b.Para? ==> b.text == line
    ensures b.BulletItem? ==> |b.text| + 2 <= |line|
    ensures b.BulletItem? && b.text != [] ==> !IsSpace(b.text[0]) && !IsSpace(b.text[|b.text| - 1])
  {
    var t := Strip(line);
    if Marked(t) then BulletItem(BulletText(t)) else Para(line)
  }

  /** The shape of a bullet line, stated on the raw line: whitespace, a '-'
      or '*', a space, and then at least one non-whitespace character. */
  predicate BulletShape(line: string) {
    exists k :: 0 <= k < |line| - 2 && BulletAt(line, k)
  }

  predicate BulletAt(line: string, k: int)
    requires 0 <= k < |line| - 2
  {
    && (forall i :: 0 <= i < k ==> IsSpace(line[i]))
    && line[k] in {'-', '*'} && line[k + 1] == ' '
    && exists j :: k + 2 <= j < |line| && !IsSpace(line[j])
  }

  /** A line is a bullet item exactly when it has the bullet shape. */
  lemma ClassifyBulletIff(line: string)
    ensures Classify(line).BulletItem? <==> BulletShape(line)
  {
    if Marked(Strip(line)) {
      MarkedHasShape(line);
    }
    if BulletShape(line) {
      ShapeIsMarked(line);
    }
  }

  lemma MarkedHasShape(line: string)
    requires Marked(Strip(line))
    ensures BulletShape(line)
  {
    var t := Strip(line);
    StripIsTrim(line);
    var a := LeadCount(line, Whitespace);
    assert t[1] == ' ' && |t| >= 3;
    assert line[a] == t[0] && line[a + 1] == t[1];
    assert line[a + |t| - 1] == t[|t| - 1];
    assert BulletAt(line, a);
  }

  lemma ShapeIsMarked(line: string)
    requires BulletShape(line)
    ensures Marked(Strip(line))
  {
    var k :| 0 <= k < |line| - 2 && BulletAt(line, k);
    MarkIsNotSpace(line[k]);
    LeadCountIs(line, Whitespace, k);
    var j :| k + 2 <= j < |line| && !IsSpace(line[j]);
    var t := Strip(line);
    StripIsTrim(line);
    assert j < k + |t|;
    assert t[0] == line[k] && t[1] == line[k + 1];
  }

  lemma MarkIsNotSpace(c: char)
    requires c == '-' || c == '*'
    ensures c !in Whitespace
  {
  }

  // ---------------------------------------------------------------------------
  // The docx variant

  /** The blocks of one node: a level-2 heading with its title (or ""), then
      one block per content line. */
  function NodeBlocks(n: Node): (r: seq<Block>)
    ensures |r| == 1 + |Lines(n.content)|
    ensures r[0] == Heading(Or(n.title, ""), 2)
    ensures r[1..] == ClassifyAll(Lines(n.content))
  {
    var body := ClassifyAll(Lines(n.content));
    assert ([Heading(Or(n.title, ""), 2)] + body)[1..] == body;
    [Heading(Or(n.title, ""), 2)] + body
  }

  /** One block per line, in order. */
  function ClassifyAll(ls: seq<string>): (bs: seq<Block>)
    ensures |bs| == |ls|
    ensures forall i :: 0 <= i < |ls| ==> bs[i] == Classify(ls[i]) && !bs[i].Heading?
  {
    seq(|ls|, i requires 0 <= i < |ls| => Classify(ls[i]))
  }

  /** The blocks of the nodes, node after node: one block per node heading
      and per content line, and the level-2 headings are the node titles. */
  function SectionBlocks(ns: seq<Node>): (r: seq<Block>)
    ensures |r| == BlockCount(ns)
    ensures SectionTitles(r) == Titles(ns)
    decreases |ns|
  {
    if |ns| == 0 then []
    else
      var nb := NodeBlocks(ns[0]);
      var rest := SectionBlocks(ns[1..]);
      var head := [nb[0]];
      var body := nb[1..];
      assert nb == head + body;
      SectionTitlesAppend(nb, rest);
      SectionTitlesAppend(head, body);
      assert SectionTitles(head) == [Or(ns[0].title, "")] by {
        assert head[1..] == [];
      }
      assert forall i :: 0 <= i < |body| ==> body[i] == nb[i + 1];
      NoSectionTitles(body);
      TitlesCons(ns);
      nb + rest
  }

  /** `assemble_docx`: a level-1 heading with the project title (or
      "Document"), the topic paragraph when there is a main prompt, then the
      nodes' blocks in index order. */
  function AssembleDocx(p: Project, ns: seq<Node>): (r: seq<Block>)
    ensures |r| >= 1 && r[0] == Heading(if p.title != "" then p.title else "Document", 1)
    ensures Truthy(p.mainPrompt) ==> |r| >= 2 && r[1] == Para("Topic: " + p.mainPrompt.value)
    ensures !Truthy(p.mainPrompt) && |r| >= 2 ==> r[1].Heading? && r[1].level == 2
    ensures var k := if Truthy(p.mainPrompt) then 2 else 1;
      k <= |r| && r[k..] == SectionBlocks(SortByIdx(ns))
  {
    var head := [Heading(Or(Some(p.title), "Document"), 1)];
    var topic := if Truthy(p.mainPrompt) then [Para("Topic: " + p.mainPrompt.value)] else [];
    var body := SectionBlocks(SortByIdx(ns));
    assert |body| > 0 ==> body[0] == NodeBlocks(SortByIdx(ns)[0])[0];
    assert (head + topic + body)[|head + topic|..] == body;
    head + topic + body
  }

  /** Texts of the level-2 headings, in order. */
  function SectionTitles(bs: seq<Block>): seq<string>
  {
    if |bs| == 0 then []
    else (if bs[0].Heading? && bs[0].level == 2 then [bs[0].text] else []) + SectionTitles(bs[1..])
  }

  function Titles(ns: seq<Node>): (ts: seq<string>)
    ensures |ts| == |ns|
    ensures forall i :: 0 <= i < |ns| ==> ts[i] == Or(ns[i].title, "")
  {
    seq(|ns|, i requires 0 <= i < |ns| => Or(ns[i].title, ""))
  }

  lemma {:induction false} SectionTitlesAppend(a: seq<Block>, b: seq<Block>)
    ensures SectionTitles(a + b) == SectionTitles(a) + SectionTitles(b)
    decreases |a|
  {
    if |a| == 0 {
      assert a + b == b;
    } else {
      assert (a + b)[1..] == a[1..] + b;
      SectionTitlesAppend(a[1..], b);
    }
  }

  lemma {:induction false} NoSectionTitles(bs: seq<Block>)
    requires forall i :: 0 <= i < |bs| ==> !bs[i].Heading? || bs[i].level != 2
    ensures SectionTitles(bs) == []
    decreases |bs|
  {
    if |bs| > 0 {
      NoSectionTitles(bs[1..]);
    }
  }

  lemma TitlesCons(ns: seq<Node>)
    requires |ns| > 0
    ensures Titles(ns) == [Or(ns[0].title, "")] + Titles(ns[1..])
  {
    var a := Titles(ns);
    var t := Titles(ns[1..]);
    var b := [Or(ns[0].title, "")] + t;
    assert |a| == |b|;
    forall i | 0 <= i < |a| ensures a[i] == b[i] {
      if i > 0 {
        assert b[i] == t[i - 1];
        assert ns[1..][i - 1] == ns[i];
      }
    }
  }


  /** The document has one level-2 heading per node, and their texts are the
      node titles in ascending index order (input order among equal indexes). */
  lemma DocxSections(p: Project, ns: seq<Node>)
    ensures SectionTitles(AssembleDocx(p, ns)) == Titles(SortByIdx(ns))
  {
    var head := [Heading(Or(Some(p.title), "Document"), 1)];
    var topic := if Truthy(p.mainPrompt) then [Para("Topic: " + p.mainPrompt.value)] else [];
    var body := SectionBlocks(SortByIdx(ns));
    assert AssembleDocx(p, ns) == (head + topic) + body;
    SectionTitlesAppend(head + topic, body);
    NoSectionTitles(head + topic);
  }

  /** Number of blocks the nodes contribute: one heading each plus their lines. */
  function BlockCount(ns: seq<Node>): nat
  {
    if |ns| == 0 then 0 else 1 + |Lines(ns[0].content)| + BlockCount(ns[1..])
  }

  lemma {:induction false} BlockCountInsert(n: Node, ns: seq<Node>)
    requires SortedByIdx(ns)
    ensures BlockCount(InsertByIdx(n, ns)) == 1 + |Lines(n.content)| + BlockCount(ns)
    decreases |ns|
  {
    if |ns| == 0 || n.idx <= ns[0].idx {
      assert ([n] + ns)[1..] == ns;
    } else {
      BlockCountInsert(n, ns[1..]);
      assert ([ns[0]] + InsertByIdx(n, ns[1..]))[1..] == InsertByIdx(n, ns[1..]);
    }
  }

  lemma {:induction false} BlockCountSort(ns: seq<Node>)
    ensures BlockCount(SortByIdx(ns)) == BlockCount(ns)
    decreases |ns|
  {
    if |ns| > 0 {
      BlockCountSort(ns[1..]);
      BlockCountInsert(ns[0], SortByIdx(ns[1..]));
    }
  }

  /** Block count of the document: the title, the topic if any, and for each
      node one heading plus one block per line, whatever the input order. */
  lemma DocxSize(p: Project, ns: seq<Node>)
    ensures |AssembleDocx(p, ns)| == 1 + (if Truthy(p.mainPrompt) then 1 else 0) + BlockCount(ns)
  {
    BlockCountSort(ns);
  }

  /** `x` occurs in `bs` starting at position `at`. */
  predicate BlocksAt(bs: seq<Block>, at: nat, x: seq<Block>)
  {
    at + |x| <= |bs| && bs[at..at + |x|] == x
  }

  /** Node `i`'s blocks sit right after the blocks of the nodes before it:
      its heading first, then its own lines, before the next node's heading. */
  lemma {:induction false} SectionBlocksAt(ns: seq<Node>, i: nat)
    requires i < |ns|
    ensures BlocksAt(SectionBlocks(ns), BlockCount(ns[..i]), NodeBlocks(ns[i]))
    decreases i
  {
    SectionBlocksCons(ns);
    if i == 0 {
      BlockCountEmpty(ns);
      BlocksFirst(SectionBlocks(ns), NodeBlocks(ns[0]), SectionBlocks(ns[1..]), BlockCount(ns[..0]));
    } else {
      var t := ns[1..];
      SectionBlocksAt(t, i - 1);
      BlockCountPrefix(ns, i);
      BlocksAfter(SectionBlocks(ns), NodeBlocks(ns[0]), SectionBlocks(t), BlockCount(t[..i - 1]), BlockCount(ns[..i]), NodeBlocks(t[i - 1]));
    }
  }

  lemma SectionBlocksCons(ns: seq<Node>)
    requires |ns| > 0
    ensures SectionBlocks(ns) == NodeBlocks(ns[0]) + SectionBlocks(ns[1..])
  {
  }

  lemma BlockCountEmpty(ns: seq<Node>)
    ensures BlockCount(ns[..0]) == 0
  {
    assert ns[..0] == [];
  }

  lemma BlockCountPrefix(ns: seq<Node>, i: nat)
    requires 0 < i < |ns|
    ensures BlockCount(ns[..i]) == |NodeBlocks(ns[0])| + BlockCount(ns[1..][..i - 1])
    ensures ns[1..][i - 1] == ns[i]
  {
    assert ns[..i][0] == ns[0];
    assert ns[..i][1..] == ns[1..][..i - 1];
  }

  lemma BlocksFirst(whole: seq<Block>, a: seq<Block>, b: seq<Block>, at: nat)
    requires whole == a + b && at == 0
    ensures BlocksAt(whole, at, a)
  {
    assert whole[..|a|] == a;
  }

  /** What occurs in `b` at `k` occurs in `a + b` at `|a| + k`. */
  lemma BlocksAfter(whole: seq<Block>, a: seq<Block>, b: seq<Block>, k: nat, at: nat, x: seq<Block>)
    requires whole == a + b && BlocksAt(b, k, x) && at == |a| + k
    ensures BlocksAt(whole, at, x)
  {
    assert whole[|a| + k..|a| + k + |x|] == b[k..k + |x|];
  }

  /** In the document, the sorted node `i`'s blocks (its heading, then
      exactly its own classified lines) come right after the title, the topic
      and the blocks of the nodes sorted before it. */
  lemma DocxNodeBlocks(p: Project, ns: seq<Node>, i: nat)
    requires i < |ns|
    ensures BlocksAt(AssembleDocx(p, ns),
      (if Truthy(p.mainPrompt) then 2 else 1) + BlockCount(SortByIdx(ns)[..i]), NodeBlocks(SortByIdx(ns)[i]))
  {
    var sorted := SortByIdx(ns);
    var r := AssembleDocx(p, ns);
    var k := if Truthy(p.mainPrompt) then 2 else 1;
    SectionBlocksAt(sorted, i);
    ReplaceTail(r, k, SectionBlocks(sorted));
    BlocksAfter(r, r[..k], SectionBlocks(sorted), BlockCount(sorted[..i]),
      (if Truthy(p.mainPrompt) then 2 else 1) + BlockCount(SortByIdx(ns)[..i]), NodeBlocks(SortByIdx(ns)[i]));
  }

  lemma ReplaceTail<T>(s: seq<T>, k: nat, t: seq<T>)
    requires k <= |s| && s[k..] == t
    ensures s == s[..k] + t
  {
    assert s == s[..k] + s[k..];
  }


  /** Whatever whitespace surrounds it and whatever further marks and spaces
      follow the marker, a bullet line's item text is the stripped text after
      them: `"- - x"` and `"  * x  "` give `x`, `"- hello world"` gives
      `hello world`. */
  lemma ClassifyBulletLine(lead: string, mark: char, marks: string, w: string, trail: string)
    requires AllIn(lead, Whitespace) && AllIn(trail, Whitespace)
    requires mark == '-' || mark == '*'
    requires AllIn(marks, BulletMarkChars)
    requires w != [] && !IsSpace(w[0]) && !IsSpace(w[|w| - 1]) && w[0] !in BulletMarkChars
    ensures Classify(lead + [mark, ' '] + marks + w + trail) == BulletItem(w)
  {
    var pre := [mark, ' '] + marks;
    assert AllIn(pre, BulletMarkChars) by {
      forall i | 0 <= i < |pre| ensures pre[i] in BulletMarkChars {
        if i >= 2 {
          assert pre[i] == marks[i - 2];
        }
      }
    }
    var core := pre + w;
    LeadCountPadded(pre, w, BulletMarkChars);
    assert LStripSet(core, BulletMarkChars) == w by {
      assert core[|pre|..] == w;
    }
    StripNoop(w);
    assert Marked(core) && BulletText(core) == w;
    MarkIsNotSpace(mark);
    assert core[0] == mark && core[|core| - 1] == w[|w| - 1];
    StripPadded(lead, core, trail);
    Reassociate(lead, [mark, ' '], marks, w, trail);
  }

  lemma Reassociate<T>(a: seq<T>, b: seq<T>, c: seq<T>, d: seq<T>, e: seq<T>)
    ensures a + b + c + d + e == a + (b + c + d) + e
  {
  }

  /** Further marks after the first are dropped: "- - x" is the item "x". */
  lemma RepeatedMarkExample()
    ensures Classify("- - x") == BulletItem("x")
  {
    var marks := "- ";
    assert marks[0] == '-' && marks[1] == ' ';
    assert AllIn(marks, BulletMarkChars);
    assert !IsSpace('x') && 'x' !in BulletMarkChars;
    BulletSpellings();
    ClassifyBulletLine("", '-', marks, "x", "");
  }

  /** Surrounding whitespace is dropped: "  * x  " is the item "x". */
  lemma PaddedMarkExample()
    ensures Classify("  * x  ") == BulletItem("x")
  {
    var pad := "  ";
    assert pad[0] == ' ' && pad[1] == ' ';
    assert ' ' in Whitespace;
    assert AllIn(pad, Whitespace);
    assert !IsSpace('x') && 'x' !in BulletMarkChars;
    BulletSpellings();
    ClassifyBulletLine(pad, '*', "", "x", pad);
  }

  /** Inner spaces stay: "- hello world" is the item "hello world". */
  lemma SpacedTextExample()
    ensures Classify("- hello world") == BulletItem("hello world")
  {
    var w := "hello world";
    assert w[0] == 'h' && w[|w| - 1] == 'd';
    assert !IsSpace('h') && !IsSpace('d') && 'h' !in BulletMarkChars;
    BulletSpellings();
    ClassifyBulletLine("", '-', "", w, "");
  }

  /** The three example lines, spelled as the pieces the general lemma takes. */
  lemma BulletSpellings()
    ensures "" + ['-', ' '] + "- " + "x" + "" == "- - x"
    ensures "  " + ['*', ' '] + "" + "x" + "  " == "  * x  "
    ensures "" + ['-', ' '] + "" + "hello world" + "" == "- hello world"
  {
  }

  /** A marker, a space and a word make a bullet item whose text is the word. */
  lemma ClassifyMarkedWord(mark: char, w: string)
    requires mark in {'-', '*'}
    requires w != [] && NoSpace(w) && w[0] !in BulletMarkChars
    ensures Classify([mark, ' '] + w) == BulletItem(w)
  {
    var line := [mark, ' '] + w;
    assert line[|line| - 1] == w[|w| - 1];
    StripNoop(line);
    assert Marked(line) by {
      assert line[0] == mark && line[1] == ' ';
    }
    MarkedWordText(mark, w);
  }

  lemma MarkedWordText(mark: char, w: string)
    requires mark in {'-', '*'}
    requires w != [] && NoSpace(w) && w[0] !in BulletMarkChars
    requires Marked([mark, ' '] + w)
    ensures BulletText([mark, ' '] + w) == w
  {
    var line := [mark, ' '] + w;
    assert LeadCount(line, BulletMarkChars) == 2 by {
      assert line[2] == w[0];
    }
    assert LStripSet(line, BulletMarkChars) == w;
    StripNoop(w);
  }

  /** A word not starting with a marker is a paragraph. */
  lemma ClassifyPlainWord(w: string)
    requires w != [] && NoSpace(w) && w[0] != '-' && w[0] != '*'
    ensures Classify(w) == Para(w)
  {
    StripNoop(w);
  }

  /** A node whose content is the lines `ls` joined with newlines gets one
      block per line, each line classified on its own. */
  lemma {:induction false} NodeBlocksOfLines(n: Node, ls: seq<string>)
    requires |ls| >= 1 && forall i :: 0 <= i < |ls| ==> '\n' !in ls[i]
    requires Join(ls, '\n') != "" && n.content == Some(Join(ls, '\n'))
    ensures |NodeBlocks(n)| == 1 + |ls|
    ensures forall i :: 0 <= i < |ls| ==> NodeBlocks(n)[i + 1] == Classify(ls[i])
  {
    SplitJoin(ls, '\n');
  }

  /** Three lines "- a", "b" and "* c" (for words `a`, `b`, `c`) give a bullet
      "a", a paragraph "b" and a bullet "c". */
  lemma BulletExample(n: Node, a: string, b: string, c: string)
    requires a != [] && NoSpace(a) && a[0] !in BulletMarkChars
    requires b != [] && NoSpace(b) && b[0] != '-' && b[0] != '*'
    requires c != [] && NoSpace(c) && c[0] !in BulletMarkChars
    requires n.content == Some(Join([['-', ' '] + a, b, ['*', ' '] + c], '\n'))
    ensures |NodeBlocks(n)| == 4
    ensures NodeBlocks(n)[1] == BulletItem(a)
    ensures NodeBlocks(n)[2] == Para(b)
    ensures NodeBlocks(n)[3] == BulletItem(c)
  {
    var ls := [['-', ' '] + a, b, ['*', ' '] + c];
    assert '\n' in Whitespace;
    assert '\n' !in ls[0] && '\n' !in ls[1] && '\n' !in ls[2];
    assert Join(ls, '\n') != "" by {
      assert Join(ls, '\n') == ls[0] + ['\n'] + Join(ls[1..], '\n');
    }
    NodeBlocksOfLines(n, ls);
    ClassifyMarkedWord('-', a);
    ClassifyPlainWord(b);
    ClassifyMarkedWord('*', c);
  }

  // ---------------------------------------------------------------------------
  // The pptx variant

  /** A slide: the title slide (each placeholder set or left untouched) or a
      title-and-body slide whose body is a list of paragraph texts. */
  datatype Slide =
    | TitleSlide(deckTitle: Option<string>, subtitle: Option<string>)
    | ContentSlide(title: string, body: seq<string>)

  /** The paragraphs of a body after writing `lines` into it one by one:
      line 0 replaces the frame's text, later lines are appended. */
  function WriteBody(frame: seq<string>, lines: seq<string>, li: nat): (r: seq<string>)
    requires li <= |lines|
    requires li > 0 ==> frame == lines[..li]
    ensures li < |lines| ==> r == lines
    ensures li == |lines| ==> r == frame
    decreases |lines| - li
  {
    if li == |lines| then frame
    else if li == 0 then WriteBody([lines[0]], lines, 1)
    else
      assert lines[..li + 1] == lines[..li] + [lines[li]];
      WriteBody(frame + [lines[li]], lines, li + 1)
  }

  /** A new body placeholder holds a single empty paragraph. */
  const EmptyFrame: seq<string> := [""]

  /** One slide per node: its title (or ""), and its content lines as body
      paragraphs, verbatim, with no bullet classification. */
  function NodeSlide(n: Node): (s: Slide)
    ensures s.ContentSlide? && s.title == Or(n.title, "")
    ensures !Truthy(n.content) ==> s.body == EmptyFrame
    ensures Truthy(n.content) ==> Join(s.body, '\n') == n.content.value && |s.body| == Count(n.content.value, '\n') + 1
  {
    ContentSlide(Or(n.title, ""), WriteBody(EmptyFrame, Lines(n.content), 0))
  }

  /** `assemble_pptx`: a title slide, then one slide per node in index order.
      The title is set only for a non-empty project title (no fallback); the
      subtitle only for a main prompt, and only when the title layout has a
      second placeholder. */
  function AssemblePptx(p: Project, ns: seq<Node>, titlePlaceholders: nat): (deck: seq<Slide>)
    ensures |deck| == 1 + |ns|
    ensures deck[0] == TitleSlide(
      if p.title != "" then Some(p.title) else None,
      if Truthy(p.mainPrompt) && titlePlaceholders > 1 then Some(p.mainPrompt.value) else None)
    ensures forall i :: 1 <= i < |deck| ==> deck[i].ContentSlide?
    ensures forall i :: 0 <= i < |ns| ==> deck[i + 1] == NodeSlide(SortByIdx(ns)[i])
  {
    var sorted := SortByIdx(ns);
    [TitleSlide(if p.title != "" then Some(p.title) else None,
                if Truthy(p.mainPrompt) && titlePlaceholders > 1 then Some(p.mainPrompt.value) else None)]
    + seq(|sorted|, i requires 0 <= i < |sorted| => NodeSlide(sorted[i]))
  }

  /** Slide titles follow the node order, and each body reproduces the node's
      content exactly, bullet markers included. */
  lemma PptxSlides(p: Project, ns: seq<Node>, titlePlaceholders: nat)
    ensures var deck := AssemblePptx(p, ns, titlePlaceholders);
      forall i :: 0 <= i < |ns| ==>
        && deck[i + 1].title == Titles(SortByIdx(ns))[i]
        && (Truthy(SortByIdx(ns)[i].content) ==> Join(deck[i + 1].body, '\n') == SortByIdx(ns)[i].content.value)
        && (Truthy(SortByIdx(ns)[i].content) ==> |deck[i + 1].body| == Count(SortByIdx(ns)[i].content.value, '\n') + 1)
        && (!Truthy(SortByIdx(ns)[i].content) ==> deck[i + 1].body == EmptyFrame)
  {
  }

  /** The two formats list the same sections in the same order. */
  lemma DocxPptxAgree(p: Project, ns: seq<Node>, titlePlaceholders: nat)
    ensures var deck := AssemblePptx(p, ns, titlePlaceholders);
      SectionTitles(AssembleDocx(p, ns)) == seq(|ns|, i requires 0 <= i < |ns| => deck[i + 1].title)
  {
    var deck := AssemblePptx(p, ns, titlePlaceholders);
    var ts := Titles(SortByIdx(ns));
    var slideTitles := seq(|ns|, i requires 0 <= i < |ns| => deck[i + 1].title);
    PptxSlides(p, ns, titlePlaceholders);
    assert ts == slideTitles by {
      assert |ts| == |slideTitles|;
      forall i | 0 <= i < |ts| ensures ts[i] == slideTitles[i] {
        assert deck[i + 1].title == ts[i];
      }
    }
    DocxSections(p, ns);
  }

  /** Index order with ties kept: nodes with indexes 3, 1, 2 come out as 1, 2, 3. */
  lemma SortExample(a: Node, b: Node, c: Node)
    requires a.idx == 3 && b.idx == 1 && c.idx == 2
    ensures SortByIdx([a, b, c]) == [b, c, a]
  {
    assert [a, b, c][1..] == [b, c];
    assert [b, c][1..] == [c];
    assert [c][1..] == [];
    assert SortByIdx([c]) == [c];
    assert SortByIdx([b, c]) == InsertByIdx(b, [c]) == [b, c];
    assert [b, c][1..] == [c];
    assert InsertByIdx(a, [c]) == [c, a];
    assert InsertByIdx(a, [b, c]) == [b] + InsertByIdx(a, [c]);
  }
}
