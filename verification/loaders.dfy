/** Building one example, author or page from its files (`LinkedFile`,
    `Example`, `Author` and `Page` in `src/psc/resources.py`). */
module Loaders {

  import opened Results
  import opened Strings
  import opened FilePaths
  import opened FileSystems
  import opened Dom
  import opened HeadFilter
  import opened BodyPatch

  /** A Markdown file split by the frontmatter reader: its scalar fields,
      its list fields, and the Markdown text after the metadata block. */
  datatype FrontMatter = FrontMatter(fields: map<string, string>, lists: map<string, seq<string>>, content: string)

  /** Everything a loader consults: the disk, the site's root directory
      (`HERE`), and the foreign parsers and serialisers. */
  datatype Env = Env(
    fs: FileSystem,
    here: string,
    parseFrontMatter: string -> FrontMatter,
    renderMarkdown: string -> string,
    parseHtml: string -> seq<Node>,
    prettify: Node -> string,
    decode: Node -> string)

  /** `md_fm.get(key, "")` for a string value. A list under `key` reads as
      `""` here, where Python would return the list itself. */
  function Field(fm: FrontMatter, key: string): string {
    if key in fm.fields then fm.fields[key] else ""
  }

  /** `frontmatter.load(path)`: fails as reading the file fails. */
  function LoadFrontMatter(env: Env, path: string): (r: Result<FrontMatter>)
    ensures r.Ok? <==> path in env.fs.files
  {
    var text :- ReadText(env.fs, path);
    Ok(env.parseFrontMatter(text))
  }

  // ---------------------------------------------------------------------
  // Linked files

  /** The language shown for a linked file, by its extension. */
  const LinkedFileLanguages: map<string, string> := map["py" := "python", "css" := "css", "html" := "html"]

  datatype LinkedFile = LinkedFile(path: string, language: string, body: string)

  lemma LanguagesShown()
    ensures forall ext :: ext in LinkedFileLanguages ==> LinkedFileLanguages[ext] in {"python", "css", "html"}
  {
  }

  /** `path.suffix[1:]`: the extension without its dot, `""` when none. */
  function Extension(path: string): string {
    var suffix := Suffix(BaseName(path));
    if |suffix| == 0 then "" else suffix[1..]
  }

  /** `LinkedFile(path)`: the language is looked up first (an unknown
      extension raises `KeyError`), then the text is read. */
  function LoadLinkedFile(fs: FileSystem, path: string): (r: Result<LinkedFile>)
    ensures r.Ok? <==> Extension(path) in LinkedFileLanguages && path in fs.files
    ensures Extension(path) !in LinkedFileLanguages ==> r == Err(KeyError(Extension(path)))
    ensures r.Ok? ==> r.value.path == path && r.value.body == fs.files[path]
    ensures r.Ok? ==> r.value.language == LinkedFileLanguages[Extension(path)]
    ensures r.Ok? ==> r.value.language in {"python", "css", "html"}
  {
    var ext := Extension(path);
    if ext !in LinkedFileLanguages then Err(KeyError(ext))
    else if path !in fs.files then Err(ReadText(fs, path).error)
    else
      LanguagesShown();
      Ok(LinkedFile(path, LinkedFileLanguages[ext], fs.files[path]))
  }

  /** A file `stem.ext` in a directory is shown as Python, CSS or HTML by
      its extension `py`, `css` or `html`, and any other extension raises
      `KeyError` with that extension. */
  lemma LinkedFileLanguageByExtension(fs: FileSystem, dir: string, stem: string, ext: string)
    requires |stem| > 0 && |ext| > 0 && '.' !in ext && '/' !in stem && '/' !in ext
    requires Child(dir, stem + "." + ext) in fs.files
    ensures var r := LoadLinkedFile(fs, Child(dir, stem + "." + ext));
      && (ext == "py" ==> r.Ok? && r.value.language == "python")
      && (ext == "css" ==> r.Ok? && r.value.language == "css")
      && (ext == "html" ==> r.Ok? && r.value.language == "html")
      && (ext !in {"py", "css", "html"} ==> r == Err(KeyError(ext)))
  {
    ExtensionOfChild(dir, stem, ext);
    var r := LoadLinkedFile(fs, Child(dir, stem + "." + ext));
    if ext in LinkedFileLanguages {
      assert r.Ok?;
    } else {
      assert ext != "py" && ext != "css" && ext != "html";
    }
  }

  lemma ExtensionOfChild(dir: string, stem: string, ext: string)
    requires |stem| > 0 && |ext| > 0 && '.' !in ext && '/' !in stem && '/' !in ext
    ensures Extension(Child(dir, stem + "." + ext)) == ext
  {
    var name := stem + "." + ext;
    assert '/' !in name by {
      assert forall k :: 0 <= k < |name| ==> name[k] == (if k < |stem| then stem[k] else if k == |stem| then '.' else ext[k - |stem| - 1]);
    }
    BaseNameOfChild(dir, name);
    SuffixOfExtension(stem, ext);
    assert ("." + ext)[1..] == ext;
  }

  /** The linked files of an example, loaded in order; the first failure
      aborts. */
  function LoadLinkedFiles(fs: FileSystem, dir: string, names: seq<string>): (r: Result<seq<LinkedFile>>)
    ensures r.Ok? <==> forall i :: 0 <= i < |names| ==> LoadLinkedFile(fs, Child(dir, names[i])).Ok?
    ensures r.Ok? ==> |r.value| == |names|
    ensures r.Ok? ==> forall i :: 0 <= i < |names| ==> LoadLinkedFile(fs, Child(dir, names[i])) == Ok(r.value[i])
    ensures r.Err? ==> exists i :: (0 <= i < |names| && LoadLinkedFile(fs, Child(dir, names[i])) == Err(r.error)
      && forall j :: 0 <= j < i ==> LoadLinkedFile(fs, Child(dir, names[j])).Ok?)
  {
    MapAll(names, name => LoadLinkedFile(fs, Child(dir, name)))
  }

  // ---------------------------------------------------------------------
  // Examples

  datatype Example = Example(
    name: string,
    title: string,
    subtitle: string,
    description: string,
    author: string,
    extraHead: string,
    body: string,
    linkedFiles: seq<LinkedFile>)

  function ExampleDir(here: string, name: string): string {
    Child(Child(here, "gallery/examples"), name)
  }

  /** The runtime directory whose `pyscript.js` decides local mode (`PYODIDE`). */
  function RuntimeDir(here: string): string {
    Child(here, "pyodide")
  }

  /** `[*["index.html"], *md_fm.get("linked_files", [])]`. A scalar
      `linked_files` is a string, which `*` spreads into its characters. */
  function LinkedNames(fm: FrontMatter): seq<string> {
    ["index.html"]
    + if "linked_files" in fm.lists then fm.lists["linked_files"]
      else if "linked_files" in fm.fields then Characters(fm.fields["linked_files"])
      else []
  }

  /** `[*s]`: the one-character strings of `s`, in order. */
  function Characters(s: string): (r: seq<string>)
    ensures |r| == |s|
    ensures forall i :: 0 <= i < |s| ==> r[i] == [s[i]]
  {
    seq(|s|, i requires 0 <= i < |s| => [s[i]])
  }

  /** A one-character entry has no extension (its final component is at
      most one character long, too short for an interior dot), so loading
      it raises `KeyError('')` before anything is read. */
  lemma OneCharacterFails(fs: FileSystem, dir: string, c: char)
    ensures Extension(Child(dir, [c])) == ""
    ensures LoadLinkedFile(fs, Child(dir, [c])) == Err(KeyError(""))
  {
    var path := Child(dir, [c]);
    assert path[|path| - 2] == '/';
  }

  /** A scalar `linked_files` names one-character files, none of which has
      an extension, so loading the example's linked files fails with
      `KeyError('')` once `index.html` has loaded. */
  lemma ScalarLinkedFilesFail(fs: FileSystem, dir: string, fm: FrontMatter)
    requires Child(dir, "index.html") in fs.files
    requires "linked_files" !in fm.lists && "linked_files" in fm.fields
    requires |fm.fields["linked_files"]| > 0
    ensures LoadLinkedFiles(fs, dir, LinkedNames(fm)) == Err(KeyError(""))
  {
    var names := LinkedNames(fm);
    var value := fm.fields["linked_files"];
    forall i | 1 <= i < |names|
      ensures LoadLinkedFile(fs, Child(dir, names[i])) == Err(KeyError(""))
    {
      assert names[i] == [value[i - 1]];
      OneCharacterFails(fs, dir, value[i - 1]);
    }
    IndexIsHtml(dir);
    assert LoadLinkedFile(fs, Child(dir, names[0])).Ok?;
    var r := LoadLinkedFiles(fs, dir, names);
    assert r.Err?;
    var i :| 0 <= i < |names| && LoadLinkedFile(fs, Child(dir, names[i])) == Err(r.error);
  }

  /** The frontmatter of an example's `index.md`, when it is a file. */
  function ExampleMetadata(env: Env, name: string): FrontMatter
    requires Child(ExampleDir(env.here, name), "index.md") in env.fs.files
  {
    env.parseFrontMatter(env.fs.files[Child(ExampleDir(env.here, name), "index.md")])
  }

  /** The parsed document of an example's `index.html`, when it is a file. */
  function ExampleSoup(env: Env, name: string): seq<Node>
    requires Child(ExampleDir(env.here, name), "index.html") in env.fs.files
  {
    env.parseHtml(env.fs.files[Child(ExampleDir(env.here, name), "index.html")])
  }

  /** `Example(name)`: metadata from `index.md` (read first, so a missing
      example fails there), head and body from `index.html` (a
      `ValueError` when it does not exist), then the linked files: always
      `index.html` first, shown as HTML, then those the metadata lists.
      Title, subtitle and author are the metadata's (`""` when absent), the
      description is its rendered Markdown, the extra head is
      `get_head_nodes` of the page (whose failure fails the example) and
      the body is `get_body_content` of it in the runtime's mode. */
  function LoadExample(env: Env, name: string): (r: Result<Example>)
    ensures Child(ExampleDir(env.here, name), "index.md") !in env.fs.files ==>
      r == Err(ReadText(env.fs, Child(ExampleDir(env.here, name), "index.md")).error)
    ensures (Child(ExampleDir(env.here, name), "index.md") in env.fs.files
             && !Exists(env.fs, Child(ExampleDir(env.here, name), "index.html"))) ==>
      r == Err(ValueError("No example at " + name))
    ensures r.Ok? ==> r.value.name == name
    ensures r.Ok? ==>
      var index := Child(ExampleDir(env.here, name), "index.html");
      && index in env.fs.files
      && |r.value.linkedFiles| >= 1
      && r.value.linkedFiles[0] == LinkedFile(index, "html", env.fs.files[index])
    ensures r.Ok? ==>
      var dir := ExampleDir(env.here, name);
      && LoadFrontMatter(env, Child(dir, "index.md")).Ok?
      && LoadLinkedFiles(env.fs, dir, LinkedNames(LoadFrontMatter(env, Child(dir, "index.md")).value))
         == Ok(r.value.linkedFiles)
    ensures r.Ok? ==>
      var fm := ExampleMetadata(env, name);
      && r.value.title == Field(fm, "title")
      && r.value.subtitle == Field(fm, "subtitle")
      && r.value.author == Field(fm, "author")
      && r.value.description == env.renderMarkdown(fm.content)
    ensures r.Ok? ==>
      var soup := ExampleSoup(env, name);
      && HeadNodes(soup, env.prettify) == Ok(r.value.extraHead)
      && r.value.body == BodyContent(soup, IsLocal(env.fs, RuntimeDir(env.here)), env.decode)
    ensures (Child(ExampleDir(env.here, name), "index.md") in env.fs.files
             && Child(ExampleDir(env.here, name), "index.html") in env.fs.files) ==>
      r == BuildExample(env, name, ExampleDir(env.here, name), ExampleMetadata(env, name), ExampleSoup(env, name))
  {
    var dir := ExampleDir(env.here, name);
    var fm :- LoadFrontMatter(env, Child(dir, "index.md"));
    var index := Child(dir, "index.html");
    if !Exists(env.fs, index) then Err(ValueError("No example at " + name))
    else
      var text :- ReadText(env.fs, index);
      var r := BuildExample(env, name, dir, fm, env.parseHtml(text));
      if r.Ok? then
        IndexIsHtml(dir);
        assert LoadLinkedFile(env.fs, Child(dir, LinkedNames(fm)[0])) == Ok(r.value.linkedFiles[0]);
        r
      else r
  }

  /** The example assembled from its metadata and its parsed `index.html`. */
  function BuildExample(env: Env, name: string, dir: string, fm: FrontMatter, soup: seq<Node>): (r: Result<Example>)
    ensures HeadNodes(soup, env.prettify).Err? ==> r == Err(HeadNodes(soup, env.prettify).error)
    ensures HeadNodes(soup, env.prettify).Ok? && LoadLinkedFiles(env.fs, dir, LinkedNames(fm)).Err? ==>
      r == Err(LoadLinkedFiles(env.fs, dir, LinkedNames(fm)).error)
    ensures r.Ok? <==> HeadNodes(soup, env.prettify).Ok? && LoadLinkedFiles(env.fs, dir, LinkedNames(fm)).Ok?
    ensures r.Ok? ==>
      && r.value.name == name
      && r.value.title == Field(fm, "title")
      && r.value.subtitle == Field(fm, "subtitle")
      && r.value.author == Field(fm, "author")
      && r.value.description == env.renderMarkdown(fm.content)
      && HeadNodes(soup, env.prettify) == Ok(r.value.extraHead)
      && r.value.body == BodyContent(soup, IsLocal(env.fs, RuntimeDir(env.here)), env.decode)
      && LoadLinkedFiles(env.fs, dir, LinkedNames(fm)) == Ok(r.value.linkedFiles)
  {
    var extraHead :- HeadNodes(soup, env.prettify);
    var body := BodyContent(soup, IsLocal(env.fs, RuntimeDir(env.here)), env.decode);
    var linked :- LoadLinkedFiles(env.fs, dir, LinkedNames(fm));
    Ok(Example(name, Field(fm, "title"), Field(fm, "subtitle"), env.renderMarkdown(fm.content),
               Field(fm, "author"), extraHead, body, linked))
  }

  lemma IndexIsHtml(dir: string)
    ensures Extension(Child(dir, "index.html")) == "html"
  {
    BaseNameOfChild(dir, "index.html");
    SuffixOfExtension("index", "html");
    assert "index" + "." + "html" == "index.html";
  }

  /** A successful example lists one linked file per name in its metadata,
      after `index.html`: each is that name loaded from the example's
      directory. */
  lemma ExampleLinkedFiles(env: Env, name: string)
    requires LoadExample(env, name).Ok?
    ensures var dir := ExampleDir(env.here, name);
      var names := LinkedNames(LoadFrontMatter(env, Child(dir, "index.md")).value);
      var files := LoadExample(env, name).value.linkedFiles;
      && |files| == |names|
      && forall i :: 0 <= i < |files| ==>
           LoadLinkedFile(env.fs, Child(dir, names[i])) == Ok(files[i]) && files[i].path == Child(dir, names[i])
  {
    var dir := ExampleDir(env.here, name);
    var names := LinkedNames(LoadFrontMatter(env, Child(dir, "index.md")).value);
    var files := LoadExample(env, name).value.linkedFiles;
    forall i | 0 <= i < |files|
      ensures LoadLinkedFile(env.fs, Child(dir, names[i])) == Ok(files[i])
    {
    }
  }

  /** A head `link` without `href`, or `script` without `src`, makes the
      whole example fail with `AttributeError`, even when its metadata and
      page exist. */
  lemma ExampleFailsOnUnlocatedAsset(env: Env, name: string, tag: Node)
    requires Child(ExampleDir(env.here, name), "index.md") in env.fs.files
    requires Child(ExampleDir(env.here, name), "index.html") in env.fs.files
    requires tag in HeadAssets(ExampleSoup(env, name), false)
    requires GetAttr(tag.attrs, LocatorAttr(tag.name)).None?
    ensures LoadExample(env, name).Err?
    ensures exists x :: (x in HeadAssets(ExampleSoup(env, name), false)
      && LoadExample(env, name).error == AttributeError(LocatorAttr(x.name)))
  {
    var assets := HeadAssets(ExampleSoup(env, name), false);
    var i :| 0 <= i < |assets| && assets[i] == tag;
    assert IsAsset(assets[i]);
    assert TagFilter(tag, Exclusions).Err?;
    var h := HeadNodes(ExampleSoup(env, name), env.prettify);
    assert h.Err?;
    var x :| x in assets && TagFilter(x, Exclusions) == Err(h.error);
  }

  /** An example whose metadata gives `linked_files` as a non-empty string
      fails with `KeyError('')`, once its head markup has been extracted. */
  lemma ExampleWithScalarLinkedFiles(env: Env, name: string)
    requires Child(ExampleDir(env.here, name), "index.md") in env.fs.files
    requires Child(ExampleDir(env.here, name), "index.html") in env.fs.files
    requires var fm := ExampleMetadata(env, name);
      "linked_files" !in fm.lists && "linked_files" in fm.fields && |fm.fields["linked_files"]| > 0
    requires HeadNodes(ExampleSoup(env, name), env.prettify).Ok?
    ensures LoadExample(env, name) == Err(KeyError(""))
  {
    ScalarLinkedFilesFail(env.fs, ExampleDir(env.here, name), ExampleMetadata(env, name));
  }

  // ---------------------------------------------------------------------
  // Authors

  datatype Author = Author(name: string, title: string, body: string)

  function AuthorFile(here: string, name: string): string {
    Child(Child(here, "gallery/authors"), name + ".md")
  }

  /** `Author(name)`: title and rendered body from `name.md`; fails iff that
      file cannot be read. */
  function LoadAuthor(env: Env, name: string): (r: Result<Author>)
    ensures r.Ok? <==> AuthorFile(env.here, name) in env.fs.files
    ensures r.Ok? ==> r.value.name == name
    ensures r.Ok? ==>
      var fm := env.parseFrontMatter(env.fs.files[AuthorFile(env.here, name)]);
      r.value.title == Field(fm, "title") && r.value.body == env.renderMarkdown(fm.content)
    ensures r.Err? ==> r.error == ReadText(env.fs, AuthorFile(env.here, name)).error
  {
    var fm :- LoadFrontMatter(env, AuthorFile(env.here, name));
    Ok(Author(name, Field(fm, "title"), env.renderMarkdown(fm.content)))
  }

  /** An author depends on its own Markdown file alone: replacing, adding or
      removing any other file leaves it as it was. */
  lemma AuthorReadsOnlyItsFile(env: Env, name: string, path: string, contents: Option<string>)
    requires path != AuthorFile(env.here, name)
    ensures LoadAuthor(env.(fs := WithFile(env.fs, path, contents)), name) == LoadAuthor(env, name)
  {
    var env' := env.(fs := WithFile(env.fs, path, contents));
    var file := AuthorFile(env.here, name);
    assert (file in env'.fs.files <==> file in env.fs.files) && file in env.fs.files ==> env'.fs.files[file] == env.fs.files[file];
  }

  // ---------------------------------------------------------------------
  // Pages

  datatype Page = Page(name: string, title: string, subtitle: string, body: string)

  function PageFile(here: string, name: string, ext: string): string {
    Child(Child(here, "pages"), name + ext)
  }

  function MarkdownPage(env: Env, name: string, fm: FrontMatter): Page {
    Page(name, Field(fm, "title"), Field(fm, "subtitle"), env.renderMarkdown(fm.content))
  }

  /** The text of the document's first `title`, or `""`. */
  function TitleOf(soup: seq<Node>): string {
    match FindFirst(soup, Named("title"))
    case None => ""
    case Some(p) => TextOf(NodeAt(soup, p).value.children)
  }

  /** The `content` of the first `meta name="subtitle"`, or `""`. */
  function SubtitleOf(soup: seq<Node>): string {
    match FindFirst(soup, NamedWith("meta", "name", "subtitle"))
    case None => ""
    case Some(p) =>
      match GetAttr(NodeAt(soup, p).value.attrs, "content")
      case None => ""
      case Some(c) => c
  }

  /** The prettified first `body`, or `""`. */
  function BodyMarkupOf(soup: seq<Node>, prettify: Node -> string): string {
    match Body(soup)
    case None => ""
    case Some(body) => prettify(body)
  }

  function HtmlPage(env: Env, name: string, text: string): Page {
    var soup := env.parseHtml(text);
    Page(name, TitleOf(soup), SubtitleOf(soup), BodyMarkupOf(soup, env.prettify))
  }

  /** `Page(name)`: from `name.md` when it exists, otherwise from
      `name.html`, otherwise `ValueError("No page at <name>")`. */
  function LoadPage(env: Env, name: string): (r: Result<Page>)
    ensures !Exists(env.fs, PageFile(env.here, name, ".md")) && !Exists(env.fs, PageFile(env.here, name, ".html"))
      <==> r == Err(ValueError("No page at " + name))
    ensures r.Ok? ==> r.value.name == name
  {
    var md := PageFile(env.here, name, ".md");
    var html := PageFile(env.here, name, ".html");
    if Exists(env.fs, md) then
      var fm :- LoadFrontMatter(env, md);
      Ok(MarkdownPage(env, name, fm))
    else if Exists(env.fs, html) then
      var text :- ReadText(env.fs, html);
      Ok(HtmlPage(env, name, text))
    else
      Err(ValueError("No page at " + name))
  }

  /** The disk with one file replaced, added (`Some`) or removed (`None`). */
  function WithFile(fs: FileSystem, path: string, contents: Option<string>): FileSystem {
    match contents
    case Some(c) => fs.(files := fs.files[path := c])
    case None => fs.(files := fs.files - {path})
  }

  lemma PageFilesDiffer(here: string, name: string)
    ensures PageFile(here, name, ".md") != PageFile(here, name, ".html")
  {
    assert |PageFile(here, name, ".md")| != |PageFile(here, name, ".html")|;
  }

  /** Markdown wins: when `name.md` exists, the page is the same whatever
      `name.html` holds, or whether it exists at all, and it carries the
      frontmatter's title and subtitle (`""` when absent). */
  lemma MarkdownPageWins(env: Env, name: string, html: Option<string>)
    requires Exists(env.fs, PageFile(env.here, name, ".md"))
    ensures LoadPage(env.(fs := WithFile(env.fs, PageFile(env.here, name, ".html"), html)), name) == LoadPage(env, name)
    ensures PageFile(env.here, name, ".md") in env.fs.files ==>
      var fm := env.parseFrontMatter(env.fs.files[PageFile(env.here, name, ".md")]);
      LoadPage(env, name) == Ok(Page(name, Field(fm, "title"), Field(fm, "subtitle"), env.renderMarkdown(fm.content)))
  {
    PageFilesDiffer(env.here, name);
  }

  /** Without `name.md`, an HTML page takes the first `title`'s text, the
      first subtitle `meta`'s `content` and the prettified first `body`,
      each `""` when the document lacks it. */
  lemma HtmlPageFallback(env: Env, name: string)
    requires !Exists(env.fs, PageFile(env.here, name, ".md"))
    requires PageFile(env.here, name, ".html") in env.fs.files
    ensures var soup := env.parseHtml(env.fs.files[PageFile(env.here, name, ".html")]);
      var r := LoadPage(env, name);
      && r.Ok?
      && (FindFirst(soup, Named("title")).None? ==> r.value.title == "")
      && (FindFirst(soup, Named("title")).Some? ==>
            r.value.title == TextOf(NodeAt(soup, FindFirst(soup, Named("title")).value).value.children))
      && ((forall p :: NodeAt(soup, p).Some? ==> !Matches(NamedWith("meta", "name", "subtitle"), NodeAt(soup, p).value))
            ==> r.value.subtitle == "")
      && (FindFirst(soup, NamedWith("meta", "name", "subtitle")).Some? ==>
            var meta := NodeAt(soup, FindFirst(soup, NamedWith("meta", "name", "subtitle")).value).value;
            r.value.subtitle == if GetAttr(meta.attrs, "content").Some? then GetAttr(meta.attrs, "content").value else "")
      && (FindFirst(soup, Named("body")).None? ==> r.value.body == "")
      && (FindFirst(soup, Named("body")).Some? ==>
            r.value.body == env.prettify(NodeAt(soup, FindFirst(soup, Named("body")).value).value))
  {
    var soup := env.parseHtml(env.fs.files[PageFile(env.here, name, ".html")]);
    var sel := NamedWith("meta", "name", "subtitle");
    if FindFirst(soup, sel).Some? {
      var p := FindFirst(soup, sel).value;
      assert NodeAt(soup, p).Some? && Matches(sel, NodeAt(soup, p).value);
    }
  }

  /** The suite's missing page. */
  lemma MissingPageMessage(env: Env)
    requires !Exists(env.fs, PageFile(env.here, "xxx", ".md")) && !Exists(env.fs, PageFile(env.here, "xxx", ".html"))
    ensures LoadPage(env, "xxx") == Err(ValueError("No page at xxx"))
  {
    assert "No page at " + "xxx" == "No page at xxx";
  }
}
