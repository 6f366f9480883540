/**
 * The Alfresco repository as the services see it: nodes with a name, a type, aspects, properties,
 * ordered children and optional content, reached by node references.
 */
module ContentStore {
  import opened Wrappers
  import opened JavaText
  import opened BestPubContentModel

  type NodeRef = nat

  const ContentModelUri: string := "http://www.alfresco.org/model/content/1.0"
  /** cm:folder and cm:content, the two base types the services test against. */
  const FolderType: QName := QName(ContentModelUri, "folder")
  const ContentType: QName := QName(ContentModelUri, "content")
  /** cm:modified, the last-modification date every node carries. */
  const ModifiedProp: QName := QName(ContentModelUri, "modified")

  /** DictionaryService.isSubClass(t, cm:folder): the bestpub folder types derive from cm:folder. */
  predicate IsFolderType(t: QName) {
    t == FolderType || t == BookFolderType || t == ChapterFolderType
  }

  /** DictionaryService.isSubClass(t, cm:content): the bestpub file types derive from cm:content. */
  predicate IsContentType(t: QName) {
    t == ContentType || t == BookFileType || t == ChapterFileType || t == ArtworkFileType || t == SupplementaryFileType
  }

  /** A property value: text, a date (milliseconds since the epoch), or an explicit null. */
  datatype PropValue = Text(text: string) | Date(millis: int) | NullValue

  datatype Content = Content(mimetype: string, data: seq<byte>)

  /** A node; `name` is its cm:name. */
  datatype Node = Node(
    name: string,
    nodeType: QName,
    aspects: set<QName>,
    props: map<QName, PropValue>,
    children: seq<NodeRef>,
    content: Option<Content>)

  /** The repository: its nodes and the next unused reference. */
  datatype Repo = Repo(nodes: map<NodeRef, Node>, next: NodeRef)

  /** Children of one parent have different names (cm:name is unique within a folder). */
  predicate NamesUnique(nodes: map<NodeRef, Node>, kids: seq<NodeRef>)
    requires forall k :: 0 <= k < |kids| ==> kids[k] in nodes
  {
    forall i, j :: 0 <= i < j < |kids| ==> nodes[kids[i]].name != nodes[kids[j]].name
  }

  /** Every reference is below `next`, every child exists, and names are unique within each parent. */
  predicate WellFormed(s: Repo) {
    && (forall n :: n in s.nodes ==> n < s.next)
    && (forall n, k :: n in s.nodes && 0 <= k < |s.nodes[n].children| ==> s.nodes[n].children[k] in s.nodes)
    && (forall n :: n in s.nodes ==> NamesUnique(s.nodes, s.nodes[n].children))
  }

  /** The first of `kids` named `name`. */
  function FindByName(nodes: map<NodeRef, Node>, kids: seq<NodeRef>, name: string): (r: Option<NodeRef>)
    requires forall k :: 0 <= k < |kids| ==> kids[k] in nodes
    ensures r.Some? ==> r.value in kids && nodes[r.value].name == name
    ensures r.None? <==> forall k :: 0 <= k < |kids| ==> nodes[kids[k]].name != name
  {
    if |kids| == 0 then None
    else if nodes[kids[0]].name == name then Some(kids[0])
    else
      var r := FindByName(nodes, kids[1..], name);
      assert forall k :: 1 <= k < |kids| ==> kids[k] == kids[1..][k - 1];
      r
  }

  /** NodeService.getChildByName over cm:contains: the child of that name, or null. */
  function ChildByName(s: Repo, parent: NodeRef, name: string): (r: Option<NodeRef>)
    requires WellFormed(s) && parent in s.nodes
    ensures r.Some? ==> r.value in s.nodes[parent].children && s.nodes[r.value].name == name
    ensures r.None? <==> forall k :: 0 <= k < |s.nodes[parent].children| ==> s.nodes[s.nodes[parent].children[k]].name != name
  {
    FindByName(s.nodes, s.nodes[parent].children, name)
  }

  /** Names being unique among siblings, looking a child up by its own name finds that very child. */
  lemma ChildByNameOfChild(s: Repo, parent: NodeRef, k: nat)
    requires WellFormed(s) && parent in s.nodes && k < |s.nodes[parent].children|
    ensures ChildByName(s, parent, s.nodes[s.nodes[parent].children[k]].name) == Some(s.nodes[parent].children[k])
  {
    var kids := s.nodes[parent].children;
    var found := ChildByName(s, parent, s.nodes[kids[k]].name);
    assert found.Some?;
    var j :| 0 <= j < |kids| && kids[j] == found.value;
    assert NamesUnique(s.nodes, kids);
    assert j == k;
  }

  /** A new node as createNode leaves it: a name and a type, no aspects, properties, children or content. */
  function NewNode(name: string, nodeType: QName): Node {
    Node(name, nodeType, {}, map[], [], None)
  }

  /** Adds `n` as the last child of `parent`, under the next reference. */
  function AddChild(s: Repo, parent: NodeRef, n: Node): Repo
    requires parent in s.nodes
  {
    var p := s.nodes[parent];
    Repo(s.nodes[parent := p.(children := p.children + [s.next])][s.next := n], s.next + 1)
  }

  /**
   * NodeService.createNode / FileFolderService.create: a new child of `parent`, refused with a
   * duplicate-child-name exception when a child of that name exists.
   */
  function CreateNodeOp(s: Repo, parent: NodeRef, name: string, nodeType: QName): (Repo, Result<NodeRef>)
    requires WellFormed(s) && parent in s.nodes
  {
    if ChildByName(s, parent, name).Some? then (s, Throws(DuplicateChildName))
    else (AddChild(s, parent, NewNode(name, nodeType)), Ok(s.next))
  }

  /** Looking a name up among children whose names did not change gives the same answer. */
  lemma {:induction false} FindByNameFrame(a: map<NodeRef, Node>, b: map<NodeRef, Node>, kids: seq<NodeRef>, name: string)
    requires forall k :: 0 <= k < |kids| ==> kids[k] in a && kids[k] in b && a[kids[k]].name == b[kids[k]].name
    ensures FindByName(a, kids, name) == FindByName(b, kids, name)
  {
    if |kids| > 0 {
      FindByNameFrame(a, b, kids[1..], name);
    }
  }

  /** A name absent from `kids` is found at the child appended after them. */
  lemma {:induction false} FindByNameAppended(nodes: map<NodeRef, Node>, kids: seq<NodeRef>, c: NodeRef, name: string)
    requires forall k :: 0 <= k < |kids| ==> kids[k] in nodes && nodes[kids[k]].name != name
    requires c in nodes && nodes[c].name == name
    ensures FindByName(nodes, kids + [c], name) == Some(c)
  {
    if |kids| > 0 {
      assert (kids + [c])[1..] == kids[1..] + [c];
      FindByNameAppended(nodes, kids[1..], c, name);
    }
  }

  /**
   * createNode succeeds exactly when no child has the name. It then keeps the repository well formed,
   * appends one fresh node (name and type as given) to the parent's children, finds it by that name,
   * and changes no other node; a refused create changes nothing.
   */
  lemma CreateNodeEffect(s: Repo, parent: NodeRef, name: string, nodeType: QName)
    requires WellFormed(s) && parent in s.nodes
    ensures var (t, r) := CreateNodeOp(s, parent, name, nodeType);
      (r.Ok? <==> ChildByName(s, parent, name).None?) &&
      (r.Throws? ==> t == s && r.exc == DuplicateChildName) &&
      (r.Ok? ==>
        WellFormed(t) && r.value == s.next && r.value !in s.nodes &&
        t.nodes.Keys == s.nodes.Keys + {r.value} &&
        t.nodes[r.value] == NewNode(name, nodeType) &&
        t.nodes[parent] == s.nodes[parent].(children := s.nodes[parent].children + [r.value]) &&
        ChildByName(t, parent, name) == Some(r.value) &&
        (forall n :: n in s.nodes && n != parent ==> t.nodes[n] == s.nodes[n]))
  {
    var (t, r) := CreateNodeOp(s, parent, name, nodeType);
    if r.Ok? {
      var kids := s.nodes[parent].children;
      assert t.nodes[parent].children == kids + [s.next];
      AddChildKeepsWellFormed(s, parent, NewNode(name, nodeType));
      FindByNameAppended(t.nodes, kids, s.next, name);
    }
  }

  /** Appending a child whose name no sibling has keeps the names of the parent's children unique. */
  lemma NamesUniqueAppend(nodes: map<NodeRef, Node>, kids: seq<NodeRef>, c: NodeRef)
    requires forall k :: 0 <= k < |kids| ==> kids[k] in nodes
    requires c in nodes && NamesUnique(nodes, kids)
    requires forall k :: 0 <= k < |kids| ==> nodes[kids[k]].name != nodes[c].name
    ensures NamesUnique(nodes, kids + [c])
  {
    var all := kids + [c];
    forall i, j | 0 <= i < j < |all| ensures nodes[all[i]].name != nodes[all[j]].name {
      assert all[i] == kids[i];
      if j < |kids| {
        assert all[j] == kids[j];
      }
    }
  }

  /** Unique names stay unique when the nodes keep their names. */
  lemma NamesUniqueFrame(a: map<NodeRef, Node>, b: map<NodeRef, Node>, kids: seq<NodeRef>)
    requires forall k :: 0 <= k < |kids| ==> kids[k] in a && kids[k] in b && a[kids[k]].name == b[kids[k]].name
    requires NamesUnique(a, kids)
    ensures NamesUnique(b, kids)
  {
  }

  /** Adding a fresh, childless node under a name no child of the parent has keeps the repository well formed. */
  lemma AddChildKeepsWellFormed(s: Repo, parent: NodeRef, node: Node)
    requires WellFormed(s) && parent in s.nodes && node.children == [] && ChildByName(s, parent, node.name).None?
    ensures WellFormed(AddChild(s, parent, node))
  {
    var t := AddChild(s, parent, node);
    var c := s.next;
    var kids := s.nodes[parent].children;
    assert t.nodes[parent].children == kids + [c];
    forall n | n in t.nodes ensures NamesUnique(t.nodes, t.nodes[n].children) {
      if n == parent {
        NamesUniqueFrame(s.nodes, t.nodes, kids);
        NamesUniqueAppend(t.nodes, kids, c);
      } else if n != c {
        NamesUniqueFrame(s.nodes, t.nodes, s.nodes[n].children);
      }
    }
  }

  /**
   * Adding a fresh, childless node under a free name: the repository stays well formed, the node is
   * stored under the old `next`, which was unused, the parent gains it as last child, and no other
   * node changes.
   */
  lemma AddChildEffect(s: Repo, parent: NodeRef, node: Node)
    requires WellFormed(s) && parent in s.nodes && node.children == [] && ChildByName(s, parent, node.name).None?
    ensures var t := AddChild(s, parent, node);
      WellFormed(t) && s.next !in s.nodes && t.nodes.Keys == s.nodes.Keys + {s.next} && t.nodes[s.next] == node &&
      t.nodes[parent] == s.nodes[parent].(children := s.nodes[parent].children + [s.next]) &&
      forall n :: n in s.nodes && n != parent ==> t.nodes[n] == s.nodes[n]
  {
    AddChildKeepsWellFormed(s, parent, node);
  }

  /** NodeService.addAspect: the aspect is added and its properties are set, overriding earlier values. */
  function AddAspectOp(s: Repo, n: NodeRef, aspect: QName, props: map<QName, PropValue>): Repo
    requires n in s.nodes
  {
    var node := s.nodes[n];
    s.(nodes := s.nodes[n := node.(aspects := node.aspects + {aspect}, props := node.props + props)])
  }

  /**
   * createNode followed by two addAspect calls on the new node: the parent gains one child, the new
   * node carries both aspects and their properties (the later overriding the earlier), and no
   * other node changes.
   */
  lemma CreateWithTwoAspects(s: Repo, parent: NodeRef, name: string, nodeType: QName,
                             a1: QName, p1: map<QName, PropValue>, a2: QName, p2: map<QName, PropValue>)
    requires WellFormed(s) && parent in s.nodes && ChildByName(s, parent, name).None?
    ensures var (t1, c) := CreateNodeOp(s, parent, name, nodeType);
      c == Ok(s.next) && s.next !in s.nodes && s.next in t1.nodes &&
      var t := AddAspectOp(AddAspectOp(t1, s.next, a1, p1), s.next, a2, p2);
      WellFormed(t) && t.nodes.Keys == s.nodes.Keys + {s.next} &&
      t.nodes[s.next] == Node(name, nodeType, {a1, a2}, p1 + p2, [], None) &&
      t.nodes[parent] == s.nodes[parent].(children := s.nodes[parent].children + [s.next]) &&
      forall n :: n in s.nodes && n != parent ==> t.nodes[n] == s.nodes[n]
  {
    var n3 := Node(name, nodeType, {a1, a2}, p1 + p2, [], None);
    var t1 := AddChild(s, parent, NewNode(name, nodeType));
    assert CreateNodeOp(s, parent, name, nodeType) == (t1, Ok(s.next));
    assert s.next in t1.nodes && t1.nodes[s.next] == NewNode(name, nodeType);
    TwoAspectsOnNewNode(t1, s.next, name, nodeType, a1, p1, a2, p2);
    assert t1.(nodes := t1.nodes[s.next := n3]) == AddChild(s, parent, n3);
    AddChildEffect(s, parent, n3);
  }

  /** Two addAspect calls on a node just created leave it with exactly those aspects and properties. */
  lemma TwoAspectsOnNewNode(t1: Repo, c: NodeRef, name: string, nodeType: QName,
                            a1: QName, p1: map<QName, PropValue>, a2: QName, p2: map<QName, PropValue>)
    requires c in t1.nodes && t1.nodes[c] == NewNode(name, nodeType)
    ensures AddAspectOp(AddAspectOp(t1, c, a1, p1), c, a2, p2) ==
      t1.(nodes := t1.nodes[c := Node(name, nodeType, {a1, a2}, p1 + p2, [], None)])
  {
    var n1 := t1.nodes[c];
    var t2 := AddAspectOp(t1, c, a1, p1);
    var n2 := n1.(aspects := {a1}, props := p1);
    assert n1.aspects + {a1} == {a1} && n1.props + p1 == p1;
    assert t2 == t1.(nodes := t1.nodes[c := n2]);
    assert n2.aspects + {a2} == {a1, a2};
  }

  /**
   * NodeService.setProperty: sets the value; a property that an aspect defines (`definedBy`) adds
   * that aspect to a node that lacks it, as the node service does.
   */
  function SetPropertyOp(s: Repo, n: NodeRef, q: QName, v: PropValue, definedBy: Option<QName>): Repo
    requires n in s.nodes
  {
    var node := s.nodes[n];
    var aspects := if definedBy.Some? then node.aspects + {definedBy.value} else node.aspects;
    s.(nodes := s.nodes[n := node.(aspects := aspects, props := node.props[q := v])])
  }

  /** ContentWriter.setMimetype followed by putContent. */
  function PutContentOp(s: Repo, n: NodeRef, mimetype: string, data: seq<byte>): Repo
    requires n in s.nodes
  {
    var node := s.nodes[n];
    s.(nodes := s.nodes[n := node.(content := Some(Content(mimetype, data)))])
  }

  /** Changing a node's aspects, properties or content keeps names and children, so lookups by name do not change. */
  lemma {:induction false} UpdateKeepsLookups(s: Repo, n: NodeRef, node: Node, parent: NodeRef, name: string)
    requires WellFormed(s) && n in s.nodes && parent in s.nodes
    requires node.name == s.nodes[n].name && node.children == s.nodes[n].children
    ensures WellFormed(s.(nodes := s.nodes[n := node]))
    ensures ChildByName(s.(nodes := s.nodes[n := node]), parent, name) == ChildByName(s, parent, name)
  {
    var t := s.(nodes := s.nodes[n := node]);
    forall m | m in t.nodes ensures NamesUnique(t.nodes, t.nodes[m].children) {
      assert NamesUnique(s.nodes, s.nodes[m].children);
    }
    FindByNameFrame(t.nodes, s.nodes, s.nodes[parent].children, name);
  }

  /** FileFolderService.getReader: a folder has no reader (an invalid-type exception); a node without content gives null. */
  function ReaderOf(s: Repo, n: NodeRef): (r: Result<seq<byte>>)
    requires n in s.nodes
    ensures r.Ok? <==> !IsFolderType(s.nodes[n].nodeType) && s.nodes[n].content.Some?
  {
    var node := s.nodes[n];
    if IsFolderType(node.nodeType) then Throws(InvalidType)
    else if node.content.None? then Throws(NullPointer)
    else Ok(node.content.value.data)
  }

  /** NodeService.getProperty for a text property: its text, or null when unset or not text. */
  function TextProp(s: Repo, n: NodeRef, q: QName): Option<string>
    requires n in s.nodes
  {
    var props := s.nodes[n].props;
    if q in props && props[q].Text? then Some(props[q].text) else None
  }

  /** The repository, updated in place by the node and content services. */
  class Repository {
    var nodes: map<NodeRef, Node>
    var next: NodeRef

    function State(): Repo
      reads this
    {
      Repo(nodes, next)
    }

    /** A repository holding only Company Home, under reference 0. */
    constructor (companyHomeName: string)
      ensures State() == Repo(map[0 := NewNode(companyHomeName, FolderType)], 1)
    {
      nodes := map[0 := NewNode(companyHomeName, FolderType)];
      next := 1;
    }

    method CreateNode(parent: NodeRef, name: string, nodeType: QName) returns (r: Result<NodeRef>)
      requires WellFormed(State()) && parent in nodes
      modifies this
      ensures (State(), r) == CreateNodeOp(old(State()), parent, name, nodeType)
    {
      var (t, res) := CreateNodeOp(State(), parent, name, nodeType);
      nodes, next, r := t.nodes, t.next, res;
    }

    method AddAspect(n: NodeRef, aspect: QName, props: map<QName, PropValue>)
      requires n in nodes
      modifies this
      ensures State() == AddAspectOp(old(State()), n, aspect, props)
    {
      nodes := AddAspectOp(State(), n, aspect, props).nodes;
    }

    method SetProperty(n: NodeRef, q: QName, v: PropValue, definedBy: Option<QName>)
      requires n in nodes
      modifies this
      ensures State() == SetPropertyOp(old(State()), n, q, v, definedBy)
    {
      nodes := SetPropertyOp(State(), n, q, v, definedBy).nodes;
    }

    method PutContent(n: NodeRef, mimetype: string, data: seq<byte>)
      requires n in nodes
      modifies this
      ensures State() == PutContentOp(old(State()), n, mimetype, data)
    {
      nodes := PutContentOp(State(), n, mimetype, data).nodes;
    }
  }
}
