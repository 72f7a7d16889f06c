/**
  Range maps (vscode-extension/src/rangeMap.ts): a JSON tree of labelled ranges is validated, flattened
  children first, and every node is given an id that no other node has.
 */
module RangeMap {
  import opened Common

  const MAX_NODES: nat := 512
  const MAX_DEPTH: nat := 64
  const MAX_LABEL_LENGTH: nat := 128
  const MAX_ID_LENGTH: nat := 128
  const MAX_PATH_LENGTH: nat := 512
  const MAX_SAFE_INTEGER: int := 9007199254740991

  /** A JSON value where a node is expected; a field that is not of its type is left out. */
  datatype Raw =
    | NotAnObject
    | Object(path: Option<string>, caption: Option<string>, source: Option<string>, typeText: Option<string>,
             offset: Option<int>, length: Option<int>, children: seq<Raw>)

  datatype Node = Node(path: string, caption: string, offset: int, length: int, children: seq<Node>)

  // ---------- what is accepted ----------

  /** A text within the limit once trimmed; absent when it is not a string or, unless allowed, blank. */
  function SafeString(trim: string -> string, s: Option<string>, allowEmpty: bool): Option<string> {
    if s.Some? && (allowEmpty || trim(s.value) != "") then Some(trim(s.value)) else None
  }

  predicate ShortEnough(trim: string -> string, s: Option<string>, maxLength: nat) {
    s.Some? ==> |trim(s.value)| <= maxLength
  }

  predicate SafeInteger(n: Option<int>) { n.Some? && 0 <= n.value <= MAX_SAFE_INTEGER }

  /** The node itself is well formed. */
  predicate GoodNode(trim: string -> string, raw: Raw) {
    && raw.Object?
    && SafeString(trim, raw.path, false).Some? && ShortEnough(trim, raw.path, MAX_PATH_LENGTH)
    && ShortEnough(trim, raw.caption, MAX_LABEL_LENGTH)
    && ShortEnough(trim, raw.source, MAX_LABEL_LENGTH) && ShortEnough(trim, raw.typeText, MAX_LABEL_LENGTH)
    && SafeInteger(raw.offset) && SafeInteger(raw.length) && raw.length.value > 0
  }

  /** Every node of a tree is well formed and none is nested too deeply. */
  predicate GoodTree(trim: string -> string, raw: Raw, depth: nat)
    decreases raw
  {
    depth <= MAX_DEPTH && GoodNode(trim, raw) && GoodForest(trim, raw.children, depth + 1)
  }

  predicate GoodForest(trim: string -> string, raws: seq<Raw>, depth: nat)
    decreases raws
  {
    raws == [] || (GoodForest(trim, raws[..|raws| - 1], depth) && GoodTree(trim, raws[|raws| - 1], depth))
  }

  function OrElse<T>(o: Option<T>, d: T): T { if o.Some? then o.value else d }

  function Path(trim: string -> string, raw: Raw): string {
    if raw.Object? then OrElse(SafeString(trim, raw.path, false), "") else ""
  }

  function Caption(trim: string -> string, raw: Raw): string
    requires raw.Object?
  {
    var caption := OrElse(SafeString(trim, raw.caption, true), "");
    if caption != "" then caption else Path(trim, raw)
  }

  /** The tree a well-formed value stands for. */
  function Parsed(trim: string -> string, raw: Raw): Node
    requires raw.Object?
    decreases raw
  {
    Node(Path(trim, raw), Caption(trim, raw), OrElse(raw.offset, 0), OrElse(raw.length, 0),
         ParsedAll(trim, raw.children))
  }

  function ParsedAll(trim: string -> string, raws: seq<Raw>): seq<Node>
    decreases raws
  {
    if raws == [] then []
    else
      var last := raws[|raws| - 1];
      ParsedAll(trim, raws[..|raws| - 1]) + (if last.Object? then [Parsed(trim, last)] else [])
  }

  /** The node stands for the value: its trimmed texts, its own range, and its children one for one. */
  predicate StandsFor(trim: string -> string, raw: Raw, n: Node)
    decreases raw
  {
    && raw.Object? && raw.path.Some? && n.path == trim(raw.path.value)
    && n.caption == (if raw.caption.Some? && trim(raw.caption.value) != "" then trim(raw.caption.value) else n.path)
    && raw.offset == Some(n.offset) && raw.length == Some(n.length)
    && |n.children| == |raw.children|
    && forall i :: 0 <= i < |raw.children| ==> StandsFor(trim, raw.children[i], n.children[i])
  }

  lemma {:induction false} ParsedStandsFor(trim: string -> string, raw: Raw, depth: nat)
    requires GoodTree(trim, raw, depth)
    ensures StandsFor(trim, raw, Parsed(trim, raw))
    decreases raw, 0
  {
    ParsedAllStandFor(trim, raw.children, depth + 1);
  }

  lemma {:induction false} ParsedAllStandFor(trim: string -> string, raws: seq<Raw>, depth: nat)
    requires GoodForest(trim, raws, depth)
    ensures |ParsedAll(trim, raws)| == |raws|
    ensures forall i :: 0 <= i < |raws| ==> StandsFor(trim, raws[i], ParsedAll(trim, raws)[i])
    decreases raws, 1
  {
    hide StandsFor;
    if raws != [] {
      var front, last := raws[..|raws| - 1], raws[|raws| - 1];
      ParsedAllStandFor(trim, front, depth);
      ParsedStandsFor(trim, last, depth);
      assert ParsedAll(trim, raws) == ParsedAll(trim, front) + [Parsed(trim, last)];
      forall i | 0 <= i < |raws| ensures StandsFor(trim, raws[i], ParsedAll(trim, raws)[i]) {
        if i < |front| { assert raws[i] == front[i]; }
      }
    }
  }

  // ---------- paths ----------

  /** The paths in a tree, with their multiplicities; its size is the number of nodes. */
  function Paths(n: Node): multiset<string>
    decreases n
  {
    multiset{n.path} + PathsAll(n.children)
  }

  function PathsAll(nodes: seq<Node>): multiset<string>
    decreases nodes
  {
    if nodes == [] then multiset{} else PathsAll(nodes[..|nodes| - 1]) + Paths(nodes[|nodes| - 1])
  }

  function Elements(paths: multiset<string>): set<string> { set x | x in paths }

  /** No path occurs twice, or was seen before. */
  predicate Distinct(seen: set<string>, paths: multiset<string>) {
    forall x :: x in paths ==> paths[x] == 1 && x !in seen
  }

  lemma DistinctAdd(seen: set<string>, a: multiset<string>, b: multiset<string>)
    ensures Distinct(seen, a + b) <==> Distinct(seen, a) && Distinct(seen + Elements(a), b)
    ensures Elements(a + b) == Elements(a) + Elements(b)
  {
    if Distinct(seen, a + b) {
      forall x | x in a ensures a[x] == 1 && x !in seen { assert x in a + b; }
      forall x | x in b ensures b[x] == 1 && x !in seen + Elements(a) { assert x in a + b; }
    }
    if Distinct(seen, a) && Distinct(seen + Elements(a), b) {
      forall x | x in a + b ensures (a + b)[x] == 1 && x !in seen {
        if x in b { assert x !in Elements(a); }
      }
    }
  }

  // ---------- the validator ----------

  /** The paths fit in what is left of the node limit, and none of them is taken. */
  ghost predicate Room(count: nat, seen: set<string>, paths: multiset<string>) {
    count + |paths| <= MAX_NODES && Distinct(seen, paths)
  }

  lemma RoomAdd(count: nat, seen: set<string>, a: multiset<string>, b: multiset<string>)
    ensures Room(count, seen, a + b) <==> Room(count, seen, a) && Room(count + |a|, seen + Elements(a), b)
    ensures seen + Elements(a) + Elements(b) == seen + Elements(a + b) && |a + b| == |a| + |b|
  {
    DistinctAdd(seen, a, b);
  }

  ghost predicate Admits(count: nat, seen: set<string>, trim: string -> string, raw: Raw, depth: nat) {
    GoodTree(trim, raw, depth) && Room(count, seen, Paths(Parsed(trim, raw)))
  }

  ghost predicate AdmitsAll(count: nat, seen: set<string>, trim: string -> string, raws: seq<Raw>, depth: nat) {
    GoodForest(trim, raws, depth) && Room(count, seen, PathsAll(ParsedAll(trim, raws)))
  }

  lemma ParsedOne(trim: string -> string, raws: seq<Raw>, raw: Raw)
    requires raw.Object?
    ensures ParsedAll(trim, raws + [raw]) == ParsedAll(trim, raws) + [Parsed(trim, raw)]
    ensures PathsAll(ParsedAll(trim, raws + [raw])) == PathsAll(ParsedAll(trim, raws)) + Paths(Parsed(trim, raw))
  {
    assert (raws + [raw])[..|raws|] == raws;
    var nodes := ParsedAll(trim, raws);
    assert (nodes + [Parsed(trim, raw)])[..|nodes|] == nodes;
  }

  lemma GoodIsObject(trim: string -> string, raw: Raw, depth: nat)
    ensures GoodTree(trim, raw, depth) ==> raw.Object?
  {
  }

  /** A forest is admitted one tree after another. */
  lemma AdmitsOne(count: nat, seen: set<string>, trim: string -> string, raws: seq<Raw>, raw: Raw, depth: nat)
    ensures var paths := PathsAll(ParsedAll(trim, raws));
            AdmitsAll(count, seen, trim, raws + [raw], depth) <==>
              AdmitsAll(count, seen, trim, raws, depth)
              && Admits(count + |paths|, seen + Elements(paths), trim, raw, depth)
  {
    hide ParsedAll, Parsed, PathsAll, Paths, Room, Elements, GoodNode;
    assert (raws + [raw])[..|raws|] == raws;
    GoodIsObject(trim, raw, depth);
    if raw.Object? {
      ParsedOne(trim, raws, raw);
      RoomAdd(count, seen, PathsAll(ParsedAll(trim, raws)), Paths(Parsed(trim, raw)));
    }
  }

  lemma {:induction false} AdmitsPrefix(count: nat, seen: set<string>, trim: string -> string,
        raws: seq<Raw>, n: nat, depth: nat)
    requires n <= |raws| && AdmitsAll(count, seen, trim, raws, depth)
    ensures AdmitsAll(count, seen, trim, raws[..n], depth)
    decreases |raws|
  {
    hide AdmitsAll, Admits;
    if n == |raws| {
      assert raws[..n] == raws;
    } else {
      var front := raws[..|raws| - 1];
      assert raws == front + [raws[|raws| - 1]];
      AdmitsOne(count, seen, trim, front, raws[|raws| - 1], depth);
      AdmitsPrefix(count, seen, trim, front, n, depth);
      assert front[..n] == raws[..n];
    }
  }

  /** What the parse of a document shares between its nodes. */
  class Context {
    var nodeCount: nat
    var seen: set<string>

    constructor ()
      ensures nodeCount == 0 && seen == {}
    {
      nodeCount, seen := 0, {};
    }

    twostate predicate Took(paths: multiset<string>)
      reads this
    {
      nodeCount == old(nodeCount) + |paths| && seen == old(seen) + Elements(paths)
    }

    /** A node is accepted exactly when its whole tree is admissible. */
    method ParseNode(trim: string -> string, raw: Raw, depth: nat) returns (r: Option<Node>)
      modifies this
      ensures r.Some? <==> Admits(old(nodeCount), old(seen), trim, raw, depth)
      ensures r.Some? ==> raw.Object? && r.value == Parsed(trim, raw) && Took(Paths(r.value))
      decreases raw
    {
      hide Distinct, Elements, SafeString, ShortEnough, GoodForest, PathsAll, ParsedAll;
      if depth > MAX_DEPTH { return None; }
      nodeCount := nodeCount + 1;
      if !raw.Object? { return None; }
      NodeFirst(old(nodeCount), old(seen), trim, raw, depth);
      if nodeCount > MAX_NODES { return None; }
      var path := SafeString(trim, raw.path, false);
      if !ShortEnough(trim, raw.path, MAX_PATH_LENGTH)
         || !ShortEnough(trim, raw.caption, MAX_LABEL_LENGTH) { return None; }
      if !ShortEnough(trim, raw.source, MAX_LABEL_LENGTH)
         || !ShortEnough(trim, raw.typeText, MAX_LABEL_LENGTH) { return None; }
      if path.None? { return None; }
      if path.value in seen { return None; }
      seen := seen + {path.value};
      if !SafeInteger(raw.offset) { return None; }
      if !SafeInteger(raw.length) || raw.length.value == 0 { return None; }
      var children := ParseAll(trim, raw.children, depth + 1);
      if children.None? { return None; }
      r := Some(Node(path.value, Caption(trim, raw), raw.offset.value, raw.length.value, children.value));
    }

    method ParseAll(trim: string -> string, raws: seq<Raw>, depth: nat) returns (r: Option<seq<Node>>)
      requires nodeCount <= MAX_NODES
      modifies this
      ensures r.Some? <==> AdmitsAll(old(nodeCount), old(seen), trim, raws, depth)
      ensures r.Some? ==> r.value == ParsedAll(trim, raws) && Took(PathsAll(r.value))
      decreases raws
    {
      ghost var count, before := nodeCount, seen;
      var nodes: seq<Node>, i := [], 0;
      NothingYet(count, before, trim, raws, depth);
      hide Parsing, AdmitsAll, Admits, ParsedAll, PathsAll, Elements, Parsed, Paths;
      while i < |raws|
        invariant i <= |raws| && Parsing(count, before, trim, raws[..i], depth, nodes, nodeCount, seen)
      {
        ParsingNext(count, before, trim, raws, i, depth, nodes, nodeCount, seen);
        var node := ParseNode(trim, raws[i], depth);
        if node.None? { return None; }
        nodes := nodes + [node.value];
        i := i + 1;
      }
      assert raws[..i] == raws;
      ParsingDone(count, before, trim, raws, depth, nodes, nodeCount, seen);
      r := Some(nodes);
    }
  }

  /** Part of a forest parsed: its nodes, and what they took from the context. */
  ghost predicate Parsing(count: nat, before: set<string>, trim: string -> string, raws: seq<Raw>, depth: nat,
      nodes: seq<Node>, nodeCount: nat, seen: set<string>)
  {
    && nodes == ParsedAll(trim, raws) && AdmitsAll(count, before, trim, raws, depth)
    && nodeCount == count + |PathsAll(nodes)| && seen == before + Elements(PathsAll(nodes))
  }

  lemma ParsingNext(count: nat, before: set<string>, trim: string -> string, raws: seq<Raw>, i: nat, depth: nat,
      nodes: seq<Node>, nodeCount: nat, seen: set<string>)
    requires i < |raws| && Parsing(count, before, trim, raws[..i], depth, nodes, nodeCount, seen)
    ensures !Admits(nodeCount, seen, trim, raws[i], depth) ==> !AdmitsAll(count, before, trim, raws, depth)
    ensures Admits(nodeCount, seen, trim, raws[i], depth) ==> raws[i].Object?
    ensures Admits(nodeCount, seen, trim, raws[i], depth) ==>
              (var n := Parsed(trim, raws[i]);
               Parsing(count, before, trim, raws[..i + 1], depth, nodes + [n], nodeCount + |Paths(n)|,
                       seen + Elements(Paths(n))))
  {
    hide AdmitsAll, ParsedAll, PathsAll, Elements, Parsed, Paths, GoodNode, Room;
    assert raws[..i + 1] == raws[..i] + [raws[i]];
    AdmitsOne(count, before, trim, raws[..i], raws[i], depth);
    if AdmitsAll(count, before, trim, raws, depth) { AdmitsPrefix(count, before, trim, raws, i + 1, depth); }
    GoodIsObject(trim, raws[i], depth);
    if raws[i].Object? {
      ParsedOne(trim, raws[..i], raws[i]);
      RoomAdd(count, before, PathsAll(nodes), Paths(Parsed(trim, raws[i])));
    }
  }

  lemma ParsingDone(count: nat, before: set<string>, trim: string -> string, raws: seq<Raw>, depth: nat,
      nodes: seq<Node>, nodeCount: nat, seen: set<string>)
    requires Parsing(count, before, trim, raws, depth, nodes, nodeCount, seen)
    ensures nodes == ParsedAll(trim, raws) && AdmitsAll(count, before, trim, raws, depth)
    ensures nodeCount == count + |PathsAll(nodes)| && seen == before + Elements(PathsAll(nodes))
  {
  }

  lemma NothingYet(count: nat, seen: set<string>, trim: string -> string, raws: seq<Raw>, depth: nat)
    requires count <= MAX_NODES
    ensures Parsing(count, seen, trim, raws[..0], depth, [], count, seen)
  {
    assert Elements(multiset{}) == {};
  }

  /** The node itself comes before its children. */
  lemma NodeFirst(count: nat, seen: set<string>, trim: string -> string, raw: Raw, depth: nat)
    requires raw.Object?
    ensures var paths := PathsAll(ParsedAll(trim, raw.children));
            && |Paths(Parsed(trim, raw))| == 1 + |paths|
            && Elements(Paths(Parsed(trim, raw))) == {Path(trim, raw)} + Elements(paths)
            && (Distinct(seen, Paths(Parsed(trim, raw))) <==>
                  Path(trim, raw) !in seen && Distinct(seen + {Path(trim, raw)}, paths))
  {
    var one, paths := multiset{Path(trim, raw)}, PathsAll(ParsedAll(trim, raw.children));
    DistinctAdd(seen, one, paths);
    assert Elements(one) == {Path(trim, raw)};
    assert Distinct(seen, one) <==> Path(trim, raw) !in seen by { assert Path(trim, raw) in one; }
  }
}
