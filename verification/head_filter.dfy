/** Which `link`/`script` tags of an example's `head` are carried over to
    the gallery page, and how they are joined (`tag_filter` and
    `get_head_nodes` in `src/psc/resources.py`). */
module HeadFilter {

  import opened Results
  import opened Strings
  import opened Dom

  /** The application shell's own assets, never copied from an example. */
  const Exclusions: seq<string> := ["pyscript.css", "pyscript.js", "favicon.png"]

  /** The attribute that locates a tag's asset: `href` on a `link`, `src` on
      every other tag. */
  function LocatorAttr(tagName: string): string {
    if tagName == "link" then "href" else "src"
  }

  /** The loop over the exclusions: whether the value ends with one of them. */
  function EndsWithAny(value: string, exclusions: seq<string>): (r: bool)
    ensures r <==> exists i :: 0 <= i < |exclusions| && EndsWith(value, exclusions[i])
  {
    if |exclusions| == 0 then false
    else if EndsWith(value, exclusions[0]) then true
    else
      var rest := EndsWithAny(value, exclusions[1..]);
      assert forall i :: 0 < i < |exclusions| ==> exclusions[i] == exclusions[1..][i - 1];
      rest
  }

  /** `tag_filter`: keep a tag unless its locator ends with an exclusion. A
      tag without the locator raises (`None.endswith`) as soon as there is an
      exclusion to test; with no exclusions every tag is kept. The error's
      payload (`href` or `src`) is a label of this model: Python reports the
      same `'NoneType' object has no attribute 'endswith'` for every tag,
      which is why the callers promise only some failing tag's error. */
  function TagFilter(tag: Node, exclusions: seq<string>): (r: Result<bool>)
    requires tag.Element?
    ensures |exclusions| == 0 ==> r == Ok(true)
    ensures r.Err? <==> |exclusions| > 0 && GetAttr(tag.attrs, LocatorAttr(tag.name)).None?
    ensures r.Err? ==> r.error == AttributeError(LocatorAttr(tag.name))
    ensures r == Ok(false) <==>
      && GetAttr(tag.attrs, LocatorAttr(tag.name)).Some?
      && exists i :: 0 <= i < |exclusions| && EndsWith(GetAttr(tag.attrs, LocatorAttr(tag.name)).value, exclusions[i])
  {
    if |exclusions| == 0 then Ok(true)
    else
      match GetAttr(tag.attrs, LocatorAttr(tag.name))
      case None => Err(AttributeError(LocatorAttr(tag.name)))
      case Some(value) => Ok(!EndsWithAny(value, exclusions))
  }

  /** Only the tag name and the locator's value decide: two tags that agree
      on both get the same verdict, whatever their other attributes and
      children. */
  lemma TagFilterJudgesLocatorOnly(a: Node, b: Node, exclusions: seq<string>)
    requires a.Element? && b.Element? && a.name == b.name
    requires GetAttr(a.attrs, LocatorAttr(a.name)) == GetAttr(b.attrs, LocatorAttr(b.name))
    ensures TagFilter(a, exclusions) == TagFilter(b, exclusions)
  {
  }

  /** A `link` is judged by `href` alone: its `src`, if any, is ignored. And
      any other tag is judged by `src`, its `href` ignored. */
  lemma TagFilterLocatorChoice(name: string, href: string, src: string)
    ensures name == "link" ==>
      TagFilter(Element(name, [Attr("src", src), Attr("href", href)], []), Exclusions)
        == Ok(!EndsWithAny(href, Exclusions))
    ensures name != "link" ==>
      TagFilter(Element(name, [Attr("href", href), Attr("src", src)], []), Exclusions)
        == Ok(!EndsWithAny(src, Exclusions))
  {
    assert GetAttr([Attr("src", src), Attr("href", href)], "href") == Some(href);
    assert GetAttr([Attr("href", href), Attr("src", src)], "src") == Some(src);
  }

  /** The four verdicts checked in the test suite. */
  lemma TagFilterSuiteCases()
    ensures TagFilter(Element("link", [Attr("href", "pyscript.css")], []), ["pyscript.css"]) == Ok(false)
    ensures TagFilter(Element("link", [Attr("href", "example.css")], []), ["pyscript.css"]) == Ok(true)
    ensures TagFilter(Element("script", [Attr("src", "pyscript.js")], []), ["pyscript.js"]) == Ok(false)
    ensures TagFilter(Element("script", [Attr("src", "example.js")], []), ["pyscript.js"]) == Ok(true)
  {
    assert !EndsWith("example.css", "pyscript.css");
    assert !EndsWith("example.js", "pyscript.js");
  }

  /** Whether a tag is kept with the given exclusions (false also when
      judging it raises). */
  predicate Kept(tag: Node, exclusions: seq<string>) {
    tag.Element? && TagFilter(tag, exclusions) == Ok(true)
  }

  predicate AllElements(nodes: seq<Node>) {
    forall i :: 0 <= i < |nodes| ==> nodes[i].Element?
  }

  /** `a` is `b` with some elements left out, order kept. */
  predicate IsSubsequence(a: seq<Node>, b: seq<Node>)
    decreases |b|
  {
    |a| == 0 || (|b| > 0 && ((a[0] == b[0] && IsSubsequence(a[1..], b[1..])) || IsSubsequence(a, b[1..])))
  }

  /** The list comprehension `[node for node in nodes if tag_filter(node)]`:
      the first tag whose judgement raises aborts it; otherwise it is the kept
      tags, in their original order, each as often as it occurs, and no
      other. */
  function KeptTags(nodes: seq<Node>, exclusions: seq<string>): (r: Result<seq<Node>>)
    requires AllElements(nodes)
    ensures r.Err? <==> exists i :: 0 <= i < |nodes| && TagFilter(nodes[i], exclusions).Err?
    ensures r.Err? ==> exists i :: 0 <= i < |nodes| && TagFilter(nodes[i], exclusions) == Err(r.error)
    ensures r.Ok? ==> IsSubsequence(r.value, nodes)
    ensures r.Ok? ==> forall x :: multiset(r.value)[x] == if Kept(x, exclusions) then multiset(nodes)[x] else 0
  {
    if |nodes| == 0 then Ok([])
    else
      var keep :- TagFilter(nodes[0], exclusions);
      var rest := KeptTags(nodes[1..], exclusions);
      assert forall i :: 0 < i < |nodes| ==> nodes[i] == nodes[1..][i - 1];
      if rest.Err? then Err(rest.error)
      else
        var r := if keep then [nodes[0]] + rest.value else rest.value;
        KeptStep(nodes, exclusions, keep, rest.value, r);
        Ok(r)
  }

  /** One step of the comprehension: judging the first tag and keeping it
      or not in front of the filtered rest filters the whole list. */
  lemma KeptStep(nodes: seq<Node>, exclusions: seq<string>, keep: bool, rest: seq<Node>, r: seq<Node>)
    requires |nodes| > 0 && nodes[0].Element? && TagFilter(nodes[0], exclusions) == Ok(keep)
    requires IsSubsequence(rest, nodes[1..])
    requires forall x :: multiset(rest)[x] == if Kept(x, exclusions) then multiset(nodes[1..])[x] else 0
    requires r == if keep then [nodes[0]] + rest else rest
    ensures IsSubsequence(r, nodes)
    ensures forall x :: multiset(r)[x] == if Kept(x, exclusions) then multiset(nodes)[x] else 0
  {
    assert nodes == [nodes[0]] + nodes[1..];
    assert multiset(nodes) == multiset{nodes[0]} + multiset(nodes[1..]);
    assert keep ==> r[1..] == rest;
    assert keep <==> Kept(nodes[0], exclusions);
  }

  /** A tag is in the kept list iff it is one of the input tags and kept. */
  lemma KeptTagsMembers(nodes: seq<Node>, exclusions: seq<string>)
    requires AllElements(nodes) && KeptTags(nodes, exclusions).Ok?
    ensures forall x :: x in KeptTags(nodes, exclusions).value <==> x in nodes && Kept(x, exclusions)
  {
    var kept := KeptTags(nodes, exclusions).value;
    forall x
      ensures x in kept <==> x in nodes && Kept(x, exclusions)
    {
      assert x in kept <==> multiset(kept)[x] > 0;
      assert x in nodes <==> multiset(nodes)[x] > 0;
    }
  }

  /** The kept tags' serialisations, one per line; `""` when none is kept. */
  function JoinedLines(parts: seq<string>): string {
    if |parts| > 0 then Join("\n", parts) else ""
  }

  /** What joining the kept tags' serialisations gives: every kept tag's
      serialisation occurs in it, and it is empty when nothing is kept. */
  lemma JoinedKeptTags(nodes: seq<Node>, prettify: Node -> string)
    requires AllElements(nodes) && KeptTags(nodes, Exclusions).Ok?
    ensures var joined := JoinedLines(Serialised(KeptTags(nodes, Exclusions).value, prettify));
      && (forall x :: x in nodes && Kept(x, Exclusions) ==> Contains(joined, prettify(x)))
      && ((forall x :: x in nodes ==> !Kept(x, Exclusions)) ==> joined == "")
  {
    var kept := KeptTags(nodes, Exclusions).value;
    KeptTagsMembers(nodes, Exclusions);
    var parts := Serialised(kept, prettify);
    JoinContainsParts("\n", parts);
    forall x | x in nodes && Kept(x, Exclusions)
      ensures Contains(Join("\n", parts), prettify(x))
    {
      var i :| 0 <= i < |kept| && kept[i] == x;
      assert parts[i] == prettify(x);
    }
    if |kept| > 0 {
      assert kept[0] in kept;
    }
  }

  /** `get_head_nodes`: the prettified `link`/`script` children of `head`
      that pass `tag_filter` with the shell exclusions, in document order,
      joined by newlines; `""` when none passes. */
  function HeadNodes(document: seq<Node>, prettify: Node -> string): (r: Result<string>)
    ensures r.Err? <==> exists x :: x in HeadAssets(document, false) && TagFilter(x, Exclusions).Err?
    ensures r.Err? ==> exists x :: x in HeadAssets(document, false) && TagFilter(x, Exclusions) == Err(r.error)
    ensures r.Ok? ==> r.value == JoinedLines(Serialised(KeptTags(HeadAssets(document, false), Exclusions).value, prettify))
    ensures r.Ok? && (forall x :: x in HeadAssets(document, false) ==> !Kept(x, Exclusions)) ==> r.value == ""
    ensures r.Ok? ==> forall x :: x in HeadAssets(document, false) && Kept(x, Exclusions) ==> Contains(r.value, prettify(x))
  {
    var assets := HeadAssets(document, false);
    var kept := KeptTags(assets, Exclusions);
    if kept.Err? then
      Err(kept.error)
    else
      JoinedKeptTags(assets, prettify);
      Ok(JoinedLines(Serialised(kept.value, prettify)))
  }

  /** Rejected tags contribute nothing: two serialisers that agree on every
      kept tag give the same head markup, however they render the others. */
  lemma HeadNodesIgnoresRejected(document: seq<Node>, p1: Node -> string, p2: Node -> string)
    requires forall x :: Kept(x, Exclusions) ==> p1(x) == p2(x)
    ensures HeadNodes(document, p1) == HeadNodes(document, p2)
  {
    var assets := HeadAssets(document, false);
    var kept := KeptTags(assets, Exclusions);
    if kept.Ok? {
      KeptTagsMembers(assets, Exclusions);
      assert Serialised(kept.value, p1) == Serialised(kept.value, p2) by {
        forall i | 0 <= i < |kept.value|
          ensures p1(kept.value[i]) == p2(kept.value[i])
        {
          assert kept.value[i] in kept.value;
        }
      }
    }
  }

  /** The head of a page that links only the shell's own assets. */
  const ShellLink := Element("link", [Attr("href", "pyscript.css")], [])
  const ShellScript := Element("script", [Attr("src", "pyscript.js")], [])
  const ShellOnlyPage := [Element("html", [], [Element("head", [], [ShellLink, ShellScript]), Element("body", [], [])])]

  lemma ShellOnlyPageAssets()
    ensures HeadAssets(ShellOnlyPage, false) == [ShellLink, ShellScript]
  {
    var head := Element("head", [], [ShellLink, ShellScript]);
    var body := Element("body", [], []);
    assert HeadAssets([ShellScript], true) == [ShellScript];
    assert HeadAssets([ShellLink, ShellScript], true) == [ShellLink] + HeadAssets([ShellScript], true);
    assert HeadAssets([body], false) == [];
    assert HeadAssets([head, body], false) == HeadAssets([ShellLink, ShellScript], true) + HeadAssets([body], false);
  }

  lemma ShellLinkRejected()
    ensures TagFilter(ShellLink, Exclusions) == Ok(false)
  {
    assert EndsWith("pyscript.css", Exclusions[0]);
  }

  lemma ShellScriptRejected()
    ensures TagFilter(ShellScript, Exclusions) == Ok(false)
  {
    assert EndsWith("pyscript.js", Exclusions[1]);
  }

  lemma ShellTagsRejected()
    ensures KeptTags([ShellLink, ShellScript], Exclusions) == Ok([])
  {
    ShellLinkRejected();
    ShellScriptRejected();
    KeptTagsDropsFirst(ShellScript, [], Exclusions);
    assert [ShellScript] + [] == [ShellScript];
    KeptTagsDropsFirst(ShellLink, [ShellScript], Exclusions);
    assert [ShellLink] + [ShellScript] == [ShellLink, ShellScript];
  }

  /** A head holding only the shell's stylesheet and script yields no extra
      head markup. */
  lemma HeadOfShellAssetsOnly(prettify: Node -> string)
    ensures HeadNodes(ShellOnlyPage, prettify) == Ok("")
  {
    ShellOnlyPageAssets();
    ShellTagsRejected();
  }

  /** A head with a stylesheet of the example's own next to the shell's. */
  const OwnLink := Element("link", [Attr("href", "hello_world.css")], [])
  const MixedHead := Element("head", [], [OwnLink, ShellLink])
  const MixedPage := [Element("html", [], [MixedHead, Element("body", [], [])])]

  lemma MixedPageAssets()
    ensures HeadAssets(MixedPage, false) == [OwnLink, ShellLink]
  {
    var body := Element("body", [], []);
    assert HeadAssets([ShellLink], true) == [ShellLink];
    assert HeadAssets([OwnLink, ShellLink], true) == [OwnLink] + HeadAssets([ShellLink], true);
    assert HeadAssets([body], false) == [];
    assert HeadAssets([MixedHead, body], false) == HeadAssets([OwnLink, ShellLink], true) + HeadAssets([body], false);
  }

  lemma OwnLinkKept()
    ensures TagFilter(OwnLink, Exclusions) == Ok(true)
  {
    assert !EndsWith("hello_world.css", Exclusions[0]);
    assert !EndsWith("hello_world.css", Exclusions[1]);
    assert !EndsWith("hello_world.css", Exclusions[2]);
  }

  lemma KeptTagsKeepsFirst(first: Node, rest: seq<Node>, exclusions: seq<string>)
    requires first.Element? && AllElements(rest)
    requires TagFilter(first, exclusions) == Ok(true) && KeptTags(rest, exclusions).Ok?
    ensures KeptTags([first] + rest, exclusions) == Ok([first] + KeptTags(rest, exclusions).value)
  {
    assert ([first] + rest)[1..] == rest;
  }

  lemma KeptTagsDropsFirst(first: Node, rest: seq<Node>, exclusions: seq<string>)
    requires first.Element? && AllElements(rest)
    requires TagFilter(first, exclusions) == Ok(false)
    ensures KeptTags([first] + rest, exclusions) == KeptTags(rest, exclusions)
  {
    assert ([first] + rest)[1..] == rest;
  }

  lemma MixedTagsKept()
    ensures KeptTags([OwnLink, ShellLink], Exclusions) == Ok([OwnLink])
  {
    OwnLinkKept();
    ShellLinkRejected();
    KeptTagsDropsFirst(ShellLink, [], Exclusions);
    assert [ShellLink] + [] == [ShellLink];
    KeptTagsKeepsFirst(OwnLink, [ShellLink], Exclusions);
    assert [OwnLink] + [ShellLink] == [OwnLink, ShellLink];
    assert [OwnLink] + [] == [OwnLink];
  }

  /** Only the example's own stylesheet reaches the page head: the shell's
      link is dropped, not appended after it. */
  lemma HeadOfMixedPage(prettify: Node -> string)
    ensures HeadNodes(MixedPage, prettify) == Ok(prettify(OwnLink))
  {
    MixedPageAssets();
    MixedTagsKept();
    assert Serialised([OwnLink], prettify) == [prettify(OwnLink)];
  }
}
