/** The example body copied into a gallery page, with its `py-config`
    pointed at the local or the CDN configuration (`is_local` and
    `get_body_content` in `src/psc/resources.py`). */
module BodyPatch {

  import opened Results
  import opened Strings
  import opened FilePaths
  import opened FileSystems
  import opened Dom

  /** `is_local`: the runtime is served locally when `pyscript.js` exists in
      the runtime directory. */
  predicate IsLocal(fs: FileSystem, runtimeDir: string) {
    Exists(fs, Child(runtimeDir, "pyscript.js"))
  }

  /** A runtime directory that does not exist (the suite's `/xxx`) holds no
      `pyscript.js`, so the pages use the CDN configuration. */
  lemma MissingRuntimeIsCdn(fs: FileSystem, runtimeDir: string)
    requires Missing(fs, runtimeDir)
    ensures !IsLocal(fs, runtimeDir)
    ensures ConfigSrc(IsLocal(fs, runtimeDir)) == "../py_config.cdn.toml"
  {
    var script := Child(runtimeDir, "pyscript.js");
    assert script[..|runtimeDir| + 1] == runtimeDir + "/";
  }

  /** The configuration file a patched `py-config` points to. */
  function ConfigSrc(local: bool): (r: string)
    ensures local ==> r == "../py_config.local.toml"
    ensures !local ==> r == "../py_config.cdn.toml"
  {
    "../py_config." + (if local then "local" else "cdn") + ".toml"
  }

  /** The two modes never point to the same file. */
  lemma ConfigSrcDistinguishesModes(a: bool, b: bool)
    ensures ConfigSrc(a) == ConfigSrc(b) <==> a == b
  {
    if a != b {
      assert ConfigSrc(a)[13] != ConfigSrc(b)[13];
    }
  }

  /** `select_one("body")`: the document's first `body` element. */
  function Body(document: seq<Node>): (r: Option<Node>)
    ensures r.Some? ==> r.value.Element? && r.value.name == "body"
  {
    match FindFirst(document, Named("body"))
    case None => None
    case Some(p) => NodeAt(document, p)
  }

  /** `body.select_one("py-config")`: the position, among the body's
      descendants, of the first `py-config` element. */
  function ConfigPosition(body: Node): Option<Position>
    requires body.Element?
  {
    FindFirst(body.children, Named("py-config"))
  }

  /** Whether the document has a body with a `py-config` inside it. */
  predicate HasConfig(document: seq<Node>) {
    Body(document).Some? && ConfigPosition(Body(document).value).Some?
  }

  /** The body's children once the first `py-config` in it has its `src`
      set to the mode's configuration file; `None` without a body or without
      a `py-config` in it. Only that one attribute changes: the tree keeps its
      shape, every node off the path to the `py-config` (its descendants
      included) is untouched, the nodes on the path keep their names and
      attributes, and the `py-config` keeps its name, its children and every
      other attribute. */
  function PatchedBody(document: seq<Node>, local: bool): (r: Option<seq<Node>>)
    ensures r.Some? <==> HasConfig(document)
    ensures r.Some? ==>
      var kids := Body(document).value.children;
      var c := ConfigPosition(Body(document).value).value;
      var before := NodeAt(kids, c).value;
      && NodeAt(r.value, c).Some?
      && NodeAt(r.value, c).value == Element("py-config", SetAttr(before.attrs, "src", ConfigSrc(local)), before.children)
      && GetAttr(NodeAt(r.value, c).value.attrs, "src") == Some(ConfigSrc(local))
      && (forall k :: k != "src" ==> GetAttr(NodeAt(r.value, c).value.attrs, k) == GetAttr(before.attrs, k))
      && (forall q :: NodeAt(r.value, q).Some? <==> NodeAt(kids, q).Some?)
      && (forall q :: !IsPrefix(q, c) ==> NodeAt(r.value, q) == NodeAt(kids, q))
      && (forall q :: IsPrefix(q, c) && q != c && NodeAt(kids, q).Some? && NodeAt(kids, q).value.Element? ==>
            NodeAt(r.value, q).value.Element?
            && NodeAt(r.value, q).value.name == NodeAt(kids, q).value.name
            && NodeAt(r.value, q).value.attrs == NodeAt(kids, q).value.attrs)
  {
    if !HasConfig(document) then None
    else
      var kids := Body(document).value.children;
      var c := ConfigPosition(Body(document).value).value;
      UpdateAttrAtFrameAll(kids, c, "src", ConfigSrc(local));
      Some(UpdateAttrAt(kids, c, "src", ConfigSrc(local)))
  }

  /** `get_body_content`: the patched body's inner markup (its children's
      serialisations, concatenated), or `""` when the document has no body
      or the body has no `py-config`. */
  function BodyContent(document: seq<Node>, local: bool, decode: Node -> string): (r: string)
    ensures !HasConfig(document) ==> r == ""
    ensures HasConfig(document) ==> r == Join("", Serialised(PatchedBody(document, local).value, decode))
    ensures HasConfig(document) ==>
      forall i :: 0 <= i < |PatchedBody(document, local).value| ==>
        Contains(r, decode(PatchedBody(document, local).value[i]))
  {
    match PatchedBody(document, local)
    case None => ""
    case Some(kids) =>
      JoinContainsParts("", Serialised(kids, decode));
      Join("", Serialised(kids, decode))
  }

  /** Only the first `body` matters: two documents with the same first body
      give the same content, whatever else they hold. */
  lemma BodyContentDependsOnlyOnBody(d1: seq<Node>, d2: seq<Node>, local: bool, decode: Node -> string)
    requires Body(d1) == Body(d2)
    ensures BodyContent(d1, local, decode) == BodyContent(d2, local, decode)
  {
  }

  /** The suite's body `<py-config src="../x.toml">abc</py-config>`, as
      html5lib builds the document around it. */
  const SuiteConfig := Element("py-config", [Attr("src", "../x.toml")], [TextNode("abc")])
  const SuiteDocument := [Element("html", [], [Element("head", [], []), Element("body", [], [SuiteConfig])])]

  lemma SuiteDocumentBody()
    ensures Body(SuiteDocument) == Some(Element("body", [], [SuiteConfig]))
    ensures ConfigPosition(Element("body", [], [SuiteConfig])) == Some([0])
  {
    var head := Element("head", [], []);
    var body := Element("body", [], [SuiteConfig]);
    assert FindFirst([head, body], Named("body")) == Some([1]) by {
      assert FindFirst([body], Named("body")) == Some([0]);
      assert [head, body][1..] == [body];
      assert FindFirst(head.children, Named("body")) == None;
      assert !Matches(Named("body"), head);
      var p: Position := [0];
      assert [p[0] + 1] + p[1..] == [1];
    }
    assert FindFirst(SuiteDocument, Named("body")) == Some([0, 1]) by {
      assert SuiteDocument[0].children == [head, body];
      assert [0] + [1] == [0, 1];
    }
  }

  /** The body comes back as the `py-config` alone, now pointing at the
      mode's configuration and otherwise as written. */
  lemma BodyContentSuiteCase(local: bool, decode: Node -> string)
    ensures BodyContent(SuiteDocument, local, decode)
      == decode(Element("py-config", [Attr("src", ConfigSrc(local))], [TextNode("abc")]))
  {
    SuiteDocumentBody();
    var patched := UpdateAttrAt([SuiteConfig], [0], "src", ConfigSrc(local));
    assert SetAttr([Attr("src", "../x.toml")], "src", ConfigSrc(local)) == [Attr("src", ConfigSrc(local))] by {
      assert [Attr("src", "../x.toml")][1..] == [];
    }
    assert patched == [Element("py-config", [Attr("src", ConfigSrc(local))], [TextNode("abc")])];
    assert Serialised(patched, decode) == [decode(patched[0])];
  }

  /** A document whose body holds no `py-config` (here the suite's
      `<div></div>`) gives no body content. */
  lemma BodyContentWithoutConfig(local: bool, decode: Node -> string)
    ensures BodyContent([Element("html", [], [Element("head", [], []), Element("body", [], [Element("div", [], [])])])], local, decode) == ""
  {
    var div := Element("div", [], []);
    var body := Element("body", [], [div]);
    var doc := [Element("html", [], [Element("head", [], []), body])];
    assert Body(doc) == Some(body) by {
      var head := Element("head", [], []);
      assert FindFirst([head, body], Named("body")) == Some([1]) by {
        assert FindFirst([body], Named("body")) == Some([0]);
        assert [head, body][1..] == [body];
        assert FindFirst(head.children, Named("body")) == None;
        assert !Matches(Named("body"), head);
        var p: Position := [0];
        assert [p[0] + 1] + p[1..] == [1];
      }
      assert FindFirst(doc, Named("body")) == Some([0, 1]) by {
        assert doc[0].children == [head, body];
        assert [0] + [1] == [0, 1];
      }
    }
    assert FindFirst([div], Named("py-config")) == None by {
      assert FindFirst(div.children, Named("py-config")) == None;
    }
  }

  /** A document without any `body` element gives no body content. */
  lemma BodyContentWithoutBody(local: bool, decode: Node -> string)
    ensures BodyContent([Element("div", [], [])], local, decode) == ""
  {
  }
}
