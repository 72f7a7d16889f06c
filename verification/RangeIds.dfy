/**
  Flattening a range map and giving its nodes ids (vscode-extension/src/rangeMap.ts:178-277, 323-400).
 */
module RangeIds {
  import opened Common
  import opened RangeMap

  // ---------- the flattened list ----------

  /** The nodes of a tree, children before their parent. */
  function ChildFirst(n: Node): seq<Node>
    decreases n
  {
    Flat(n.children) + [n]
  }

  function Flat(nodes: seq<Node>): seq<Node>
    decreases nodes
  {
    if nodes == [] then [] else Flat(nodes[..|nodes| - 1]) + ChildFirst(nodes[|nodes| - 1])
  }

  method Visit(n: Node, list: seq<Node>) returns (out: seq<Node>)
    ensures out == list + ChildFirst(n)
    decreases n
  {
    out := VisitAll(n.children, list);
    out := out + [n];
  }

  method VisitAll(nodes: seq<Node>, list: seq<Node>) returns (out: seq<Node>)
    ensures out == list + Flat(nodes)
    decreases nodes
  {
    out := list;
    var i := 0;
    while i < |nodes|
      invariant i <= |nodes| && out == list + Flat(nodes[..i])
    {
      assert nodes[..i + 1][..i] == nodes[..i];
      out := Visit(nodes[i], out);
      i := i + 1;
    }
    assert nodes[..i] == nodes;
  }

  /** Every child stands somewhere before its parent. */
  predicate ChildrenFirst(list: seq<Node>) {
    forall i, c :: 0 <= i < |list| && c in list[i].children ==> c in list[..i]
  }

  lemma ChildrenFirstAppend(a: seq<Node>, b: seq<Node>)
    requires ChildrenFirst(a) && ChildrenFirst(b)
    ensures ChildrenFirst(a + b)
  {
    var all := a + b;
    forall i, c | 0 <= i < |all| && c in all[i].children ensures c in all[..i] {
      if i < |a| {
        assert all[i] == a[i] && c in a[..i];
        assert all[..i] == a[..i];
      } else {
        assert all[i] == b[i - |a|] && c in b[..i - |a|];
        assert all[..i] == a + b[..i - |a|];
      }
    }
  }

  lemma {:induction false} FlatHasAll(nodes: seq<Node>)
    ensures forall n :: n in nodes ==> n in Flat(nodes)
    decreases nodes
  {
    if nodes != [] {
      FlatHasAll(nodes[..|nodes| - 1]);
      assert nodes == nodes[..|nodes| - 1] + [nodes[|nodes| - 1]];
    }
  }

  lemma {:induction false} FlatIsChildFirst(nodes: seq<Node>)
    ensures ChildrenFirst(Flat(nodes))
    decreases nodes, 1
  {
    if nodes != [] {
      var front, last := nodes[..|nodes| - 1], nodes[|nodes| - 1];
      FlatIsChildFirst(front);
      TreeIsChildFirst(last);
      ChildrenFirstAppend(Flat(front), ChildFirst(last));
    }
  }

  lemma {:induction false} TreeIsChildFirst(n: Node)
    ensures ChildrenFirst(ChildFirst(n))
    decreases n, 0
  {
    FlatIsChildFirst(n.children);
    FlatHasAll(n.children);
    var list := ChildFirst(n);
    forall i, c | 0 <= i < |list| && c in list[i].children ensures c in list[..i] {
      if i < |list| - 1 {
        assert list[i] == Flat(n.children)[i] && list[..i] == Flat(n.children)[..i];
      } else {
        assert list[..i] == Flat(n.children);
      }
    }
  }

  function ListPaths(list: seq<Node>): multiset<string> {
    if list == [] then multiset{} else ListPaths(list[..|list| - 1]) + multiset{list[|list| - 1].path}
  }

  lemma {:induction false} ListPathsAppend(a: seq<Node>, b: seq<Node>)
    ensures ListPaths(a + b) == ListPaths(a) + ListPaths(b)
    decreases |b|
  {
    if b == [] {
      assert a + b == a;
    } else {
      assert (a + b)[..|a + b| - 1] == a + b[..|b| - 1];
      ListPathsAppend(a, b[..|b| - 1]);
    }
  }

  /** Flattening keeps every node, once. */
  lemma {:induction false} FlatPaths(nodes: seq<Node>)
    ensures ListPaths(Flat(nodes)) == PathsAll(nodes)
    decreases nodes, 1
  {
    if nodes != [] {
      var front, last := nodes[..|nodes| - 1], nodes[|nodes| - 1];
      FlatPaths(front);
      TreePaths(last);
      ListPathsAppend(Flat(front), ChildFirst(last));
    }
  }

  lemma {:induction false} TreePaths(n: Node)
    ensures ListPaths(ChildFirst(n)) == Paths(n)
    decreases n, 0
  {
    FlatPaths(n.children);
    assert ChildFirst(n)[..|ChildFirst(n)| - 1] == Flat(n.children);
  }

  /** As many paths as nodes; distinct paths belong to distinct positions. */
  lemma {:induction false} ListPathsDistinct(list: seq<Node>)
    ensures |ListPaths(list)| == |list|
    ensures forall n :: n in list ==> n.path in ListPaths(list)
    ensures Distinct({}, ListPaths(list)) ==> forall i, j :: 0 <= i < j < |list| ==> list[i].path != list[j].path
  {
    if list != [] {
      var front, last := list[..|list| - 1], list[|list| - 1];
      ListPathsDistinct(front);
      DistinctAdd({}, ListPaths(front), multiset{last.path});
      assert list == front + [last];
      if Distinct({}, ListPaths(list)) {
        assert last.path in multiset{last.path};
        forall i | 0 <= i < |front| ensures list[i].path != last.path {
          assert front[i] in front && front[i].path in ListPaths(front);
        }
      }
    }
  }

  // ---------- ids ----------

  /** A number in decimal. */
  function Text(n: nat): (s: string)
    ensures |s| > 0 && (n < 1000 ==> |s| <= 3) && (n < 100 ==> |s| <= 2) && (n < 10 ==> |s| == 1)
  {
    if n < 10 then ['0' + n as char] else Text(n / 10) + ['0' + (n % 10) as char]
  }

  lemma {:induction false} TextInjective(a: nat, b: nat)
    requires Text(a) == Text(b)
    ensures a == b
  {
    var s, t := Text(a), Text(b);
    assert s[|s| - 1] == t[|t| - 1] && s[..|s| - 1] == t[..|t| - 1];
    if a >= 10 && b >= 10 {
      assert s[..|s| - 1] == Text(a / 10) && t[..|t| - 1] == Text(b / 10);
      TextInjective(a / 10, b / 10);
    }
  }

  function Preferred(path: string, index: nat): string {
    if |path| <= MAX_ID_LENGTH then path else "range." + Text(index)
  }

  function Generated(index: nat, suffix: nat): string {
    "range." + Text(index) + "." + Text(suffix)
  }

  lemma GeneratedInjective(index: nat, a: nat, b: nat)
    requires Generated(index, a) == Generated(index, b)
    ensures a == b
  {
    var prefix := "range." + Text(index) + ".";
    assert Generated(index, a)[|prefix|..] == Text(a) && Generated(index, b)[|prefix|..] == Text(b);
    TextInjective(a, b);
  }

  lemma {:induction false} SubsetSize(a: set<string>, b: set<string>)
    requires a <= b
    ensures |a| <= |b|
  {
    if a != {} {
      var x :| x in a;
      SubsetSize(a - {x}, b - {x});
    }
  }

  /** The ids given out so far. */
  class IdPool {
    var used: set<string>

    constructor ()
      ensures used == {}
    {
      used := {};
    }

    /** A new id: the preferred one unless it is taken, then the first free numbered one. */
    method MakeId(path: string, index: nat) returns (id: string)
      requires |used| <= index < MAX_NODES
      modifies this
      ensures id !in old(used) && used == old(used) + {id} && |id| <= MAX_ID_LENGTH
      ensures Preferred(path, index) !in old(used) ==> id == Preferred(path, index)
      ensures Preferred(path, index) in old(used) ==>
                exists k :: 1 <= k <= |old(used)| + 1 && id == Generated(index, k)
                  && forall j :: 1 <= j < k ==> Generated(index, j) in old(used)
    {
      id := Preferred(path, index);
      if id !in used {
        used := used + {id};
        return;
      }
      var suffix := 1;
      id := Generated(index, suffix);
      ghost var tried: set<string> := {};
      while id in used
        invariant id == Generated(index, suffix) && used == old(used)
        invariant tried <= used && |tried| == suffix - 1 <= |used|
        invariant forall j :: 1 <= j < suffix ==> Generated(index, j) in used
        invariant forall x :: x in tried ==> exists j :: 1 <= j < suffix && x == Generated(index, j)
        decreases |used| - |tried|
      {
        assert id !in tried by {
          if id in tried {
            var j :| 1 <= j < suffix && id == Generated(index, j);
            GeneratedInjective(index, j, suffix);
          }
        }
        tried := tried + {id};
        SubsetSize(tried, used);
        suffix := suffix + 1;
        id := Generated(index, suffix);
      }
      used := used + {id};
    }
  }

  predicate AllDistinct(ids: seq<string>) {
    forall i, j :: 0 <= i < j < |ids| ==> ids[i] != ids[j]
  }

  /** Gives every node of the list its id. */
  method AssignIds(list: seq<Node>) returns (ids: seq<string>)
    requires |list| <= MAX_NODES
    ensures |ids| == |list| && AllDistinct(ids)
    ensures forall i :: 0 <= i < |ids| ==> |ids[i]| <= MAX_ID_LENGTH
    ensures forall i :: 0 <= i < |ids| && Preferred(list[i].path, i) !in ids[..i] ==>
              ids[i] == Preferred(list[i].path, i)
  {
    hide Preferred, Generated;
    ids := [];
    var pool := new IdPool();
    var i := 0;
    while i < |list|
      invariant i == |ids| <= |list| && AllDistinct(ids)
      invariant |pool.used| <= i && forall x :: x in pool.used <==> x in ids
      invariant forall k :: 0 <= k < i ==> |ids[k]| <= MAX_ID_LENGTH
      invariant forall k :: 0 <= k < i && Preferred(list[k].path, k) !in ids[..k] ==>
                  ids[k] == Preferred(list[k].path, k)
    {
      var id := pool.MakeId(list[i].path, i);
      ghost var before := ids;
      ids := ids + [id];
      assert forall k :: 0 <= k <= i ==> ids[..k] == before[..k];
      assert ids[..i] == before;
      i := i + 1;
    }
  }

  // ---------- the tree the webview shows ----------

  datatype View = View(
    id: string, path: string, caption: string, offset: int, length: int, current: bool, children: seq<View>)

  function IdOf(n: Node, idByNode: map<Node, string>): string {
    if n in idByNode then idByNode[n] else n.path
  }

  /** The view of a node: its own fields, its id, and the views of its children. */
  function Shown(n: Node, idByNode: map<Node, string>, path: Option<string>): View
    decreases n
  {
    View(IdOf(n, idByNode), n.path, n.caption, n.offset, n.length, path == Some(n.path),
         ShownAll(n.children, idByNode, path))
  }

  function ShownAll(nodes: seq<Node>, idByNode: map<Node, string>, path: Option<string>): seq<View>
    decreases nodes
  {
    if nodes == [] then []
    else ShownAll(nodes[..|nodes| - 1], idByNode, path) + [Shown(nodes[|nodes| - 1], idByNode, path)]
  }

  /** All views of a tree, children before their parent. */
  function ViewList(v: View): seq<View>
    decreases v
  {
    AllViews(v.children) + [v]
  }

  function AllViews(views: seq<View>): seq<View>
    decreases views
  {
    if views == [] then [] else AllViews(views[..|views| - 1]) + ViewList(views[|views| - 1])
  }

  function ShownEach(list: seq<Node>, idByNode: map<Node, string>, path: Option<string>): (views: seq<View>)
    ensures |views| == |list|
    ensures forall i :: 0 <= i < |list| ==> views[i] == Shown(list[i], idByNode, path)
  {
    seq(|list|, i requires 0 <= i < |list| => Shown(list[i], idByNode, path))
  }

  lemma ShownEachAppend(a: seq<Node>, b: seq<Node>, idByNode: map<Node, string>, path: Option<string>)
    ensures ShownEach(a + b, idByNode, path) == ShownEach(a, idByNode, path) + ShownEach(b, idByNode, path)
  {
    hide Shown;
  }

  /** Read children first, the tree is the views of the flattened list, one for each node and in the same order. */
  lemma {:induction false} ShownViews(nodes: seq<Node>, idByNode: map<Node, string>, path: Option<string>)
    ensures AllViews(ShownAll(nodes, idByNode, path)) == ShownEach(Flat(nodes), idByNode, path)
    decreases nodes, 1
  {
    if nodes != [] {
      var front, last := nodes[..|nodes| - 1], nodes[|nodes| - 1];
      ShownViews(front, idByNode, path);
      TreeViews(last, idByNode, path);
      var views := ShownAll(front, idByNode, path);
      assert (views + [Shown(last, idByNode, path)])[..|views|] == views;
      ShownEachAppend(Flat(front), ChildFirst(last), idByNode, path);
    }
  }

  lemma {:induction false} TreeViews(n: Node, idByNode: map<Node, string>, path: Option<string>)
    ensures ViewList(Shown(n, idByNode, path)) == ShownEach(ChildFirst(n), idByNode, path)
    decreases n, 0
  {
    ShownViews(n.children, idByNode, path);
    ShownEachAppend(Flat(n.children), [n], idByNode, path);
    assert ShownEach([n], idByNode, path) == [Shown(n, idByNode, path)];
  }

  /** The tree of views has the shape of the tree of nodes, path by path. */
  predicate Mirrors(v: View, n: Node)
    decreases n
  {
    v.path == n.path && MirrorsAll(v.children, n.children)
  }

  predicate MirrorsAll(views: seq<View>, nodes: seq<Node>)
    decreases nodes
  {
    |views| == |nodes| && (nodes == [] ||
      (MirrorsAll(views[..|views| - 1], nodes[..|nodes| - 1]) && Mirrors(views[|views| - 1], nodes[|nodes| - 1])))
  }

  lemma {:induction false} ShownMirrors(nodes: seq<Node>, idByNode: map<Node, string>, path: Option<string>)
    ensures MirrorsAll(ShownAll(nodes, idByNode, path), nodes)
    decreases nodes, 1
  {
    if nodes != [] {
      var front, last := nodes[..|nodes| - 1], nodes[|nodes| - 1];
      ShownMirrors(front, idByNode, path);
      ShownMirrorsOne(last, idByNode, path);
      var views := ShownAll(front, idByNode, path);
      assert (views + [Shown(last, idByNode, path)])[..|views|] == views;
    }
  }

  lemma {:induction false} ShownMirrorsOne(n: Node, idByNode: map<Node, string>, path: Option<string>)
    ensures Mirrors(Shown(n, idByNode, path), n)
    decreases n, 0
  {
    ShownMirrors(n.children, idByNode, path);
  }

  // ---------- a whole document ----------

  datatype Highlight = Highlight(id: string, offset: int, length: int, current: bool)

  /** The JSON object: a field that is absent or of another type is left out; a present size may not be a number. */
  datatype RawDocument = RawDocument(
    source: Option<string>, sourceFileSize: Option<Option<int>>, selectedPath: Option<string>, nodes: seq<Raw>)

  datatype Map = Map(
    nodes: seq<Node>, sourceFileSize: Option<int>, highlights: seq<Highlight>,
    tree: seq<View>, selected: Option<Highlight>)

  function IdsOf(list: seq<Node>, idByNode: map<Node, string>): (ids: seq<string>)
    ensures |ids| == |list|
    ensures forall i :: 0 <= i < |list| ==> ids[i] == IdOf(list[i], idByNode)
  {
    seq(|list|, i requires 0 <= i < |list| => IdOf(list[i], idByNode))
  }

  /** The id table: a node's entry is the id at its place in the list. */
  method Table(list: seq<Node>, ids: seq<string>) returns (idByNode: map<Node, string>)
    requires |ids| == |list| && forall i, j :: 0 <= i < j < |list| ==> list[i].path != list[j].path
    ensures IdsOf(list, idByNode) == ids
  {
    idByNode := map[];
    var i := 0;
    while i < |list|
      invariant i <= |list|
      invariant forall k :: 0 <= k < i ==> list[k] in idByNode && idByNode[list[k]] == ids[k]
    {
      idByNode := idByNode[list[i] := ids[i]];
      i := i + 1;
    }
  }

  /** The selected path, once trimmed; none when it is blank. */
  predicate SelectionFound(trim: string -> string, selected: Option<string>, nodes: seq<Node>) {
    ShortEnough(trim, selected, MAX_PATH_LENGTH)
    && (SafeString(trim, selected, false).Some? ==> SafeString(trim, selected, false).value in PathsAll(nodes))
  }

  /** One highlight for each node of the flattened list, with the node's own range. */
  predicate HighlightsMatch(list: seq<Node>, highlights: seq<Highlight>, path: Option<string>) {
    |highlights| == |list| && forall i :: 0 <= i < |list| ==>
      highlights[i].offset == list[i].offset && highlights[i].length == list[i].length
      && (highlights[i].current <==> path == Some(list[i].path))
  }

  function HighlightIds(highlights: seq<Highlight>): (ids: seq<string>)
    ensures |ids| == |highlights| && forall i :: 0 <= i < |ids| ==> ids[i] == highlights[i].id
  {
    seq(|highlights|, i requires 0 <= i < |highlights| => highlights[i].id)
  }

  /** A view is the view of this node, and carries the id of this highlight. */
  predicate Carries(v: View, n: Node, h: Highlight) {
    && v.id == h.id && v.current == h.current
    && v.path == n.path && v.caption == n.caption && v.offset == n.offset && v.length == n.length
  }

  /** Children first, the views, the nodes and the highlights correspond one to one. */
  predicate TreeCarries(tree: seq<View>, list: seq<Node>, highlights: seq<Highlight>) {
    var views := AllViews(tree);
    |views| == |list| == |highlights| && forall k :: 0 <= k < |list| ==> Carries(views[k], list[k], highlights[k])
  }

  /** What a caller can rely on in an accepted range map. */
  predicate GoodMap(m: Map, path: Option<string>) {
    && HighlightsMatch(Flat(m.nodes), m.highlights, path)
    && ChildrenFirst(Flat(m.nodes))
    && |m.highlights| == |PathsAll(m.nodes)| <= MAX_NODES
    && AllDistinct(HighlightIds(m.highlights))
    && (forall i :: 0 <= i < |m.highlights| ==> |m.highlights[i].id| <= MAX_ID_LENGTH)
    && TreeCarries(m.tree, Flat(m.nodes), m.highlights) && MirrorsAll(m.tree, m.nodes)
    && (m.selected.Some? <==> path.Some?)
    && (m.selected.Some? ==> m.selected.value in m.highlights && m.selected.value.current)
  }

  /** Views built with the id table carry the ids of the highlights made from the same ids. */
  lemma ShownCarries(nodes: seq<Node>, ids: seq<string>, idByNode: map<Node, string>, highlights: seq<Highlight>,
      path: Option<string>)
    requires IdsOf(Flat(nodes), idByNode) == ids == HighlightIds(highlights)
    requires HighlightsMatch(Flat(nodes), highlights, path)
    ensures TreeCarries(ShownAll(nodes, idByNode, path), Flat(nodes), highlights)
  {
    hide Flat, AllViews, ShownAll;
    ShownViews(nodes, idByNode, path);
    var list := Flat(nodes);
    var views := ShownEach(list, idByNode, path);
    forall k | 0 <= k < |list| ensures Carries(views[k], list[k], highlights[k]) {
      assert views[k] == Shown(list[k], idByNode, path);
      assert ids[k] == IdOf(list[k], idByNode) && HighlightIds(highlights)[k] == highlights[k].id;
    }
  }

  method MakeHighlights(list: seq<Node>, ids: seq<string>, path: Option<string>)
    returns (highlights: seq<Highlight>, selected: Option<Highlight>)
    requires |ids| == |list|
    ensures HighlightsMatch(list, highlights, path) && HighlightIds(highlights) == ids
    ensures selected.Some? <==> exists i :: 0 <= i < |list| && Some(list[i].path) == path
    ensures selected.Some? ==> selected.value in highlights && selected.value.current
  {
    highlights, selected := [], None;
    var i := 0;
    while i < |list|
      invariant i == |highlights| <= |list|
      invariant forall k :: 0 <= k < i ==>
        highlights[k] == Highlight(ids[k], list[k].offset, list[k].length, path == Some(list[k].path))
      invariant selected.Some? <==> exists k :: 0 <= k < i && Some(list[k].path) == path
      invariant selected.Some? ==> selected.value in highlights && selected.value.current
    {
      var h := Highlight(ids[i], list[i].offset, list[i].length, path == Some(list[i].path));
      highlights := highlights + [h];
      if h.current && selected.None? { selected := Some(h); }
      i := i + 1;
    }
  }

  /** Highlights and tree for parsed nodes with distinct paths. */
  method Build(nodes: seq<Node>, sourceFileSize: Option<int>, path: Option<string>) returns (m: Map)
    requires |PathsAll(nodes)| <= MAX_NODES && Distinct({}, PathsAll(nodes))
    requires path.Some? ==> path.value in PathsAll(nodes)
    ensures m.nodes == nodes && m.sourceFileSize == sourceFileSize && GoodMap(m, path)
  {
    hide PathsAll, Flat, ShownAll, AllViews, ChildrenFirst, IdsOf, Distinct, AllDistinct, HighlightsMatch, HighlightIds,
         GoodMap, Preferred, TreeCarries, MirrorsAll;
    var list := VisitAll(nodes, []);
    assert list == Flat(nodes);
    FlatPaths(nodes);
    ListPathsDistinct(list);
    FlatIsChildFirst(nodes);
    var ids := AssignIds(list);
    var idByNode := Table(list, ids);
    var highlights, found := MakeHighlights(list, ids, path);
    ShownCarries(nodes, ids, idByNode, highlights, path);
    ShownMirrors(nodes, idByNode, path);
    m := Map(nodes, sourceFileSize, highlights, ShownAll(nodes, idByNode, path), found);
    ShortIds(highlights, ids);
    if path.Some? {
      PathFound(list, path.value);
    }
    MapIsGood(m, ids, path);
  }

  lemma ShortIds(highlights: seq<Highlight>, ids: seq<string>)
    requires HighlightIds(highlights) == ids && forall i :: 0 <= i < |ids| ==> |ids[i]| <= MAX_ID_LENGTH
    ensures |highlights| == |ids| && forall i :: 0 <= i < |highlights| ==> |highlights[i].id| <= MAX_ID_LENGTH
  {
  }

  lemma MapIsGood(m: Map, ids: seq<string>, path: Option<string>)
    requires HighlightIds(m.highlights) == ids && AllDistinct(ids)
    requires HighlightsMatch(Flat(m.nodes), m.highlights, path) && ChildrenFirst(Flat(m.nodes))
    requires |m.highlights| == |PathsAll(m.nodes)| <= MAX_NODES
    requires forall i :: 0 <= i < |m.highlights| ==> |m.highlights[i].id| <= MAX_ID_LENGTH
    requires TreeCarries(m.tree, Flat(m.nodes), m.highlights) && MirrorsAll(m.tree, m.nodes)
    requires m.selected.Some? <==> path.Some?
    requires m.selected.Some? ==> m.selected.value in m.highlights && m.selected.value.current
    ensures GoodMap(m, path)
  {
    hide Flat, HighlightsMatch, ChildrenFirst, TreeCarries, MirrorsAll;
  }

  /** The document's own fields: a short enough source, and a size that is a size. */
  predicate GoodDocument(trim: string -> string, d: RawDocument) {
    && ShortEnough(trim, d.source, MAX_LABEL_LENGTH)
    && (d.sourceFileSize.Some? ==> SafeInteger(d.sourceFileSize.value))
  }

  /** Accepted exactly when the fields are good, the nodes admissible, and the selection names one of them. */
  method ParseContent(trim: string -> string, d: RawDocument) returns (r: Option<Map>)
    ensures r.Some? <==> GoodDocument(trim, d) && AdmitsAll(0, {}, trim, d.nodes, 1)
                         && SelectionFound(trim, d.selectedPath, ParsedAll(trim, d.nodes))
    ensures r.Some? ==> r.value.nodes == ParsedAll(trim, d.nodes)
    ensures r.Some? ==>
              && |r.value.nodes| == |d.nodes|
              && forall i :: 0 <= i < |d.nodes| ==> StandsFor(trim, d.nodes[i], r.value.nodes[i])
    ensures r.Some? ==> GoodMap(r.value, SafeString(trim, d.selectedPath, false))
    ensures r.Some? && d.sourceFileSize.None? ==> r.value.sourceFileSize == None
    ensures r.Some? && d.sourceFileSize.Some? ==> r.value.sourceFileSize == d.sourceFileSize.value
  {
    hide ParsedAll, PathsAll, GoodMap, GoodForest, Distinct, StandsFor;
    if AdmitsAll(0, {}, trim, d.nodes, 1) { ParsedAllStandFor(trim, d.nodes, 1); }
    if !ShortEnough(trim, d.source, MAX_LABEL_LENGTH) { return None; }
    if d.sourceFileSize.Some? && !SafeInteger(d.sourceFileSize.value) { return None; }
    if !ShortEnough(trim, d.selectedPath, MAX_PATH_LENGTH) { return None; }
    var path := SafeString(trim, d.selectedPath, false);
    var context := new Context();
    var parsed := context.ParseAll(trim, d.nodes, 1);
    if parsed.None? { return None; }
    if path.Some? && path.value !in context.seen { return None; }
    var m := Build(parsed.value, if d.sourceFileSize.Some? then d.sourceFileSize.value else None, path);
    r := Some(m);
  }

  lemma {:induction false} PathFound(list: seq<Node>, path: string)
    requires path in ListPaths(list)
    ensures exists i :: 0 <= i < |list| && list[i].path == path
  {
    var front, last := list[..|list| - 1], list[|list| - 1];
    if last.path != path {
      PathFound(front, path);
      var i :| 0 <= i < |front| && front[i].path == path;
      assert list[i] == front[i];
    }
  }

  /** The ranges of all nodes, at any depth, lie within the file. */
  method FitsFile(m: Map, fileSize: int) returns (ok: bool)
    ensures ok <==>
      && 0 <= fileSize <= MAX_SAFE_INTEGER && (m.sourceFileSize.Some? ==> m.sourceFileSize.value == fileSize)
      && forall i :: 0 <= i < |Flat(m.nodes)| ==>
           var n := Flat(m.nodes)[i]; n.offset < fileSize && n.offset + n.length <= fileSize
  {
    hide Flat;
    if fileSize < 0 || fileSize > MAX_SAFE_INTEGER { return false; }
    if m.sourceFileSize.Some? && m.sourceFileSize.value != fileSize { return false; }
    var list := VisitAll(m.nodes, []);
    assert list == Flat(m.nodes);
    var i := 0;
    while i < |list|
      invariant i <= |list|
      invariant forall k :: 0 <= k < i ==> list[k].offset < fileSize && list[k].offset + list[k].length <= fileSize
    {
      var remaining := if fileSize - list[i].offset > 0 then fileSize - list[i].offset else 0;
      if list[i].offset >= fileSize || list[i].length > remaining { return false; }
      i := i + 1;
    }
    return true;
  }
}
