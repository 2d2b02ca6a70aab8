/** A parsed HTML document as the resource code queries it: a forest of
    element and text nodes, positions of nodes in it, and the three queries
    the loaders run on it (first match in document order, the `link` and
    `script` children of `head`, and one attribute rewrite). */
module Dom {

  import opened Results

  datatype Attr = Attr(key: string, value: string)

  /** An element with its attributes in source order and its children, or a
      run of character data. */
  datatype Node =
    | Element(name: string, attrs: seq<Attr>, children: seq<Node>)
    | TextNode(text: string)

  /** `tag.get(key)`: the value of the first attribute named `key`. */
  function GetAttr(attrs: seq<Attr>, key: string): Option<string>
  {
    if |attrs| == 0 then None
    else if attrs[0].key == key then Some(attrs[0].value)
    else GetAttr(attrs[1..], key)
  }

  /** `tag.attrs[key] = value` on the insertion-ordered attribute dictionary:
      an existing entry is overwritten where it stands, a new one is added at
      the end. No other attribute changes, and the keys keep their order. */
  function SetAttr(attrs: seq<Attr>, key: string, value: string): (r: seq<Attr>)
    ensures GetAttr(r, key) == Some(value)
    ensures forall k :: k != key ==> GetAttr(r, k) == GetAttr(attrs, k)
    ensures |r| == if GetAttr(attrs, key).Some? then |attrs| else |attrs| + 1
    ensures forall i :: 0 <= i < |attrs| ==> r[i].key == attrs[i].key
    ensures GetAttr(attrs, key).None? ==> r == attrs + [Attr(key, value)]
  {
    if |attrs| == 0 then [Attr(key, value)]
    else if attrs[0].key == key then [Attr(key, value)] + attrs[1..]
    else [attrs[0]] + SetAttr(attrs[1..], key, value)
  }

  /** `.text`: all character data below a forest, in document order. */
  function TextOf(forest: seq<Node>): string
  {
    if |forest| == 0 then ""
    else
      (match forest[0]
       case TextNode(t) => t
       case Element(_, _, kids) => TextOf(kids))
      + TextOf(forest[1..])
  }

  // ---------------------------------------------------------------------
  // Positions

  /** A node's position: child indices from the top of the forest down. */
  type Position = seq<nat>

  /** The node at a position, if the position exists. */
  function NodeAt(forest: seq<Node>, p: Position): Option<Node>
    decreases |p|
  {
    if |p| == 0 || p[0] >= |forest| then None
    else if |p| == 1 then Some(forest[p[0]])
    else match forest[p[0]]
      case TextNode(_) => None
      case Element(_, _, kids) => NodeAt(kids, p[1..])
  }

  /** Document (pre-)order on positions: a node comes before its descendants,
      and those before its later siblings. */
  predicate DocLeq(p: Position, q: Position)
    decreases |p|
  {
    |p| == 0 || (|q| > 0 && (p[0] < q[0] || (p[0] == q[0] && DocLeq(p[1..], q[1..]))))
  }

  predicate IsPrefix(q: Position, p: Position) {
    |q| <= |p| && p[..|q|] == q
  }

  lemma NodeAtFirstTree(forest: seq<Node>, q: Position)
    requires |forest| > 0 && forest[0].Element? && |q| > 0
    ensures NodeAt(forest, [0] + q) == NodeAt(forest[0].children, q)
  {
    assert ([0] + q)[1..] == q;
  }

  lemma NodeAtLaterTree(forest: seq<Node>, i: nat, q: Position)
    requires |forest| > 0
    ensures NodeAt(forest, [i + 1] + q) == NodeAt(forest[1..], [i] + q)
  {
    assert ([i + 1] + q)[1..] == q;
    assert ([i] + q)[1..] == q;
  }

  // ---------------------------------------------------------------------
  // First match: `select_one` and `find`

  /** The simple CSS selectors the loaders use: `name` and
      `name[key="value"]`. */
  datatype Selector = Named(name: string) | NamedWith(name: string, key: string, value: string)

  predicate Matches(sel: Selector, n: Node) {
    && n.Element?
    && n.name == sel.name
    && (sel.NamedWith? ==> GetAttr(n.attrs, sel.key) == Some(sel.value))
  }

  /** `select_one(sel)` / `find(sel)`: the position of the first node of the
      forest, in document order, that matches. */
  function FindFirst(forest: seq<Node>, sel: Selector): (r: Option<Position>)
    ensures r.Some? ==> NodeAt(forest, r.value).Some? && Matches(sel, NodeAt(forest, r.value).value)
  {
    if |forest| == 0 then None
    else if Matches(sel, forest[0]) then Some([0])
    else
      var inFirst := if forest[0].Element? then FindFirst(forest[0].children, sel) else None;
      if inFirst.Some? then
        NodeAtFirstTree(forest, inFirst.value);
        Some([0] + inFirst.value)
      else
        var inRest := FindFirst(forest[1..], sel);
        if inRest.None? then None
        else
          var p := inRest.value;
          NodeAtLaterTree(forest, p[0], p[1..]);
          assert [p[0]] + p[1..] == p;
          Some([p[0] + 1] + p[1..])
  }

  /** When nothing is found, nothing in the forest matches. */
  lemma FindFirstNone(forest: seq<Node>, sel: Selector)
    requires FindFirst(forest, sel).None?
    ensures forall q :: NodeAt(forest, q).Some? ==> !Matches(sel, NodeAt(forest, q).value)
  {
    forall q | NodeAt(forest, q).Some?
      ensures !Matches(sel, NodeAt(forest, q).value)
    {
      FindFirstNoneAt(forest, sel, q);
    }
  }

  lemma {:induction false} FindFirstNoneAt(forest: seq<Node>, sel: Selector, q: Position)
    requires FindFirst(forest, sel).None?
    requires NodeAt(forest, q).Some?
    ensures !Matches(sel, NodeAt(forest, q).value)
    decreases forest
  {
    if q[0] == 0 {
      if |q| > 1 {
        NodeAtFirstTree(forest, q[1..]);
        assert [0] + q[1..] == q;
        FindFirstNoneAt(forest[0].children, sel, q[1..]);
      }
    } else {
      NodeAtLaterTree(forest, q[0] - 1, q[1..]);
      assert [q[0] - 1 + 1] + q[1..] == q;
      FindFirstNoneAt(forest[1..], sel, [q[0] - 1] + q[1..]);
    }
  }

  /** What is found comes first: every matching node sits at or after it in
      document order. */
  lemma {:induction false} FindFirstIsFirst(forest: seq<Node>, sel: Selector, q: Position)
    requires FindFirst(forest, sel).Some?
    requires NodeAt(forest, q).Some? && Matches(sel, NodeAt(forest, q).value)
    ensures DocLeq(FindFirst(forest, sel).value, q)
    decreases forest
  {
    var p := FindFirst(forest, sel).value;
    if Matches(sel, forest[0]) {
      assert p == [0];
    } else if forest[0].Element? && FindFirst(forest[0].children, sel).Some? {
      var p' := FindFirst(forest[0].children, sel).value;
      assert p == [0] + p';
      if q[0] == 0 {
        NodeAtFirstTree(forest, q[1..]);
        assert [0] + q[1..] == q;
        FindFirstIsFirst(forest[0].children, sel, q[1..]);
        assert p[1..] == p';
      }
    } else {
      var p'' := FindFirst(forest[1..], sel).value;
      assert p == [p''[0] + 1] + p''[1..];
      assert q[0] != 0 by {
        if q[0] == 0 && |q| > 1 {
          NodeAtFirstTree(forest, q[1..]);
          assert [0] + q[1..] == q;
          FindFirstNoneAt(forest[0].children, sel, q[1..]);
        }
      }
      var q' := [q[0] - 1] + q[1..];
      NodeAtLaterTree(forest, q[0] - 1, q[1..]);
      assert [q[0] - 1 + 1] + q[1..] == q;
      FindFirstIsFirst(forest[1..], sel, q');
      assert p[1..] == p''[1..] && q[1..] == q'[1..];
    }
  }

  // ---------------------------------------------------------------------
  // Attribute rewrite at one position

  /** The forest with the attribute `key` of the element at `p` set to
      `value`; unchanged when `p` is not an element's position. */
  function UpdateAttrAt(forest: seq<Node>, p: Position, key: string, value: string): seq<Node>
    decreases |p|
  {
    if |p| == 0 || p[0] >= |forest| then forest
    else match forest[p[0]]
      case TextNode(_) => forest
      case Element(n, attrs, kids) =>
        if |p| == 1 then forest[p[0] := Element(n, SetAttr(attrs, key, value), kids)]
        else forest[p[0] := Element(n, attrs, UpdateAttrAt(kids, p[1..], key, value))]
  }

  /** Nothing but the one attribute changes: every position exists before
      iff it exists after; a node that is not the target or one of its
      ancestors is untouched (the target's descendants included); ancestors
      keep their name and attributes; the target keeps its name and
      children and has its attributes updated by `SetAttr`. */
  lemma {:induction false} UpdateAttrAtFrame(forest: seq<Node>, p: Position, key: string, value: string, q: Position)
    ensures NodeAt(UpdateAttrAt(forest, p, key, value), q).Some? == NodeAt(forest, q).Some?
    ensures !IsPrefix(q, p) ==> NodeAt(UpdateAttrAt(forest, p, key, value), q) == NodeAt(forest, q)
    ensures IsPrefix(q, p) && q != p && NodeAt(forest, q).Some? ==>
      var before := NodeAt(forest, q).value;
      var after := NodeAt(UpdateAttrAt(forest, p, key, value), q).value;
      before.Element? ==> after.Element? && after.name == before.name && after.attrs == before.attrs
    ensures q == p && NodeAt(forest, p).Some? && NodeAt(forest, p).value.Element? ==>
      var before := NodeAt(forest, p).value;
      NodeAt(UpdateAttrAt(forest, p, key, value), p)
        == Some(Element(before.name, SetAttr(before.attrs, key, value), before.children))
    decreases |p|
  {
    var r := UpdateAttrAt(forest, p, key, value);
    if |p| == 0 || p[0] >= |forest| || forest[p[0]].TextNode? {
      assert r == forest;
    } else if |q| == 0 || q[0] >= |forest| {
    } else if q[0] != p[0] {
      assert r[q[0]] == forest[q[0]];
      assert !IsPrefix(q, p);
    } else if |p| == 1 {
      if |q| > 1 {
        assert !IsPrefix(q, p);
      } else {
        assert q == p by {
          assert q == [q[0]] && p == [p[0]];
        }
      }
    } else {
      var kids := forest[p[0]].children;
      if |q| == 1 {
        assert IsPrefix(q, p) by {
          assert p[..1] == [p[0]];
        }
        assert q != p;
      } else {
        UpdateAttrAtFrame(kids, p[1..], key, value, q[1..]);
        assert IsPrefix(q, p) <==> IsPrefix(q[1..], p[1..]) by {
          if IsPrefix(q, p) {
            assert p[1..][..|q[1..]|] == p[..|q|][1..];
          }
          if IsPrefix(q[1..], p[1..]) {
            assert p[..|q|] == [p[0]] + p[1..][..|q[1..]|];
            assert q == [q[0]] + q[1..];
          }
        }
        assert q == p <==> q[1..] == p[1..] by {
          if q[1..] == p[1..] {
            assert q == [q[0]] + q[1..] && p == [p[0]] + p[1..];
          }
        }
      }
    }
  }

  /** `UpdateAttrAtFrame` for all positions at once, at an element's
      position. */
  lemma UpdateAttrAtFrameAll(forest: seq<Node>, p: Position, key: string, value: string)
    requires NodeAt(forest, p).Some? && NodeAt(forest, p).value.Element?
    ensures var after := UpdateAttrAt(forest, p, key, value);
      var before := NodeAt(forest, p).value;
      && NodeAt(after, p) == Some(Element(before.name, SetAttr(before.attrs, key, value), before.children))
      && (forall q :: NodeAt(after, q).Some? <==> NodeAt(forest, q).Some?)
      && (forall q :: !IsPrefix(q, p) ==> NodeAt(after, q) == NodeAt(forest, q))
      && (forall q :: IsPrefix(q, p) && q != p && NodeAt(forest, q).Some? && NodeAt(forest, q).value.Element? ==>
            NodeAt(after, q).value.Element?
            && NodeAt(after, q).value.name == NodeAt(forest, q).value.name
            && NodeAt(after, q).value.attrs == NodeAt(forest, q).value.attrs)
  {
    UpdateAttrAtFrame(forest, p, key, value, p);
    forall q
      ensures NodeAt(UpdateAttrAt(forest, p, key, value), q).Some? <==> NodeAt(forest, q).Some?
      ensures !IsPrefix(q, p) ==> NodeAt(UpdateAttrAt(forest, p, key, value), q) == NodeAt(forest, q)
      ensures IsPrefix(q, p) && q != p && NodeAt(forest, q).Some? && NodeAt(forest, q).value.Element? ==>
            NodeAt(UpdateAttrAt(forest, p, key, value), q).value.Element?
            && NodeAt(UpdateAttrAt(forest, p, key, value), q).value.name == NodeAt(forest, q).value.name
            && NodeAt(UpdateAttrAt(forest, p, key, value), q).value.attrs == NodeAt(forest, q).value.attrs
    {
      UpdateAttrAtFrame(forest, p, key, value, q);
    }
  }

  // ---------------------------------------------------------------------
  // `head > link, head > script`

  predicate IsAsset(n: Node) {
    n.Element? && (n.name == "link" || n.name == "script")
  }

  predicate IsHead(n: Node) {
    n.Element? && n.name == "head"
  }

  /** The `link` and `script` elements whose parent is a `head`, in
      document order; `underHead` says whether the forest itself is the
      children of a `head`. */
  function HeadAssets(forest: seq<Node>, underHead: bool): (r: seq<Node>)
    ensures forall i :: 0 <= i < |r| ==> IsAsset(r[i])
  {
    if |forest| == 0 then []
    else
      (if underHead && IsAsset(forest[0]) then [forest[0]] else [])
      + (if forest[0].Element? then HeadAssets(forest[0].children, IsHead(forest[0])) else [])
      + HeadAssets(forest[1..], underHead)
  }

  /** `x` is a child of the `head` element at position `p`. */
  predicate ChildOfHeadAt(forest: seq<Node>, p: Position, x: Node) {
    NodeAt(forest, p).Some? && IsHead(NodeAt(forest, p).value) && x in NodeAt(forest, p).value.children
  }

  /** Completeness: every `link` or `script` child of any `head` in the
      document is selected. */
  lemma {:induction false} HeadAssetsComplete(forest: seq<Node>, underHead: bool, p: Position, x: Node)
    requires IsAsset(x) && ChildOfHeadAt(forest, p, x)
    ensures x in HeadAssets(forest, underHead)
    decreases forest
  {
    if p[0] == 0 {
      if |p| == 1 {
        HeadAssetsTopComplete(forest[0].children, x);
      } else {
        NodeAtFirstTree(forest, p[1..]);
        assert [0] + p[1..] == p;
        HeadAssetsComplete(forest[0].children, IsHead(forest[0]), p[1..], x);
      }
    } else {
      NodeAtLaterTree(forest, p[0] - 1, p[1..]);
      assert [p[0] - 1 + 1] + p[1..] == p;
      HeadAssetsComplete(forest[1..], underHead, [p[0] - 1] + p[1..], x);
    }
  }

  lemma {:induction false} HeadAssetsTopComplete(forest: seq<Node>, x: Node)
    requires IsAsset(x) && x in forest
    ensures x in HeadAssets(forest, true)
    decreases forest
  {
    if x != forest[0] {
      HeadAssetsTopComplete(forest[1..], x);
    }
  }

  /** Soundness: everything selected is a `link` or `script` child of some
      `head` (or a top-level asset when the forest is itself under a head). */
  lemma {:induction false} HeadAssetsSound(forest: seq<Node>, underHead: bool, x: Node)
    requires x in HeadAssets(forest, underHead)
    ensures IsAsset(x)
    ensures (underHead && x in forest) || exists p :: ChildOfHeadAt(forest, p, x)
    decreases forest
  {
    var first := if underHead && IsAsset(forest[0]) then [forest[0]] else [];
    var inside := if forest[0].Element? then HeadAssets(forest[0].children, IsHead(forest[0])) else [];
    var rest := HeadAssets(forest[1..], underHead);
    assert HeadAssets(forest, underHead) == first + inside + rest;
    if x in first {
    } else if x in inside {
      var kids := forest[0].children;
      HeadAssetsSound(kids, IsHead(forest[0]), x);
      if IsHead(forest[0]) && x in kids {
        assert ChildOfHeadAt(forest, [0], x);
      } else {
        var p' :| ChildOfHeadAt(kids, p', x);
        ChildOfHeadInFirstTree(forest, p', x);
      }
    } else {
      HeadAssetsSound(forest[1..], underHead, x);
      if underHead && x in forest[1..] {
      } else {
        var p'' :| ChildOfHeadAt(forest[1..], p'', x);
        ChildOfHeadInLaterTree(forest, p'', x);
      }
    }
  }

  lemma ChildOfHeadInFirstTree(forest: seq<Node>, p: Position, x: Node)
    requires |forest| > 0 && forest[0].Element? && ChildOfHeadAt(forest[0].children, p, x)
    ensures ChildOfHeadAt(forest, [0] + p, x)
  {
    NodeAtFirstTree(forest, p);
  }

  lemma ChildOfHeadInLaterTree(forest: seq<Node>, p: Position, x: Node)
    requires |forest| > 0 && ChildOfHeadAt(forest[1..], p, x)
    ensures exists q :: ChildOfHeadAt(forest, q, x)
  {
    NodeAtLaterTree(forest, p[0], p[1..]);
    assert [p[0]] + p[1..] == p;
    assert ChildOfHeadAt(forest, [p[0] + 1] + p[1..], x);
  }

  /** The serialisations of a list of nodes, in order, by one of the
      parser's serialisers. */
  function Serialised(nodes: seq<Node>, serialise: Node -> string): (r: seq<string>)
    ensures |r| == |nodes|
    ensures forall i :: 0 <= i < |nodes| ==> r[i] == serialise(nodes[i])
  {
    seq(|nodes|, i requires 0 <= i < |nodes| => serialise(nodes[i]))
  }
}
