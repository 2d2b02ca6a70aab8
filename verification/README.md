# PyScript Collective resource assembly, in Dafny

This project models how the PyScript Collective gallery assembles its content at startup. The model covers these parts:

- which `link` and `script` tags of an example's `<head>` are copied into the gallery page (`tag_filter`, `get_head_nodes`);
- how the example's `<body>` is copied with its `py-config` pointed at the local or the CDN configuration (`is_local`, `get_body_content`);
- how a linked source file gets its display language, and how an `Example`, `Author` or `Page` is built from its files;
- how the registry of authors, examples and pages is built from directory listings (`get_sorted_paths`, `get_resources`).

HTML, Markdown and the disk are abstract inputs:

- a parsed document is a forest of `Dom.Node` values, each an element with ordered attributes and children, or a text node;
- the HTML parser, the two serialisers (`prettify`, `decode`), the frontmatter reader and the Markdown renderer are function-typed fields of `Loaders.Env`;
- the disk is a `FileSystems.FileSystem` holding file contents and the set of directories;
- what `iterdir` yields is a separate `Listings` map, in the operating system's order.

The exceptions the model produces are `Results.Error` values inside a `Result`, named after their Python classes: `FileNotFoundError` and `IsADirectoryError` from reading, `NotADirectoryError` from listing a file, `ValueError` for a missing example or page, `KeyError` for an unmapped file extension, and `AttributeError` for a head tag without its locator. The exceptions listed under "Left out" are not produced.

Modules, one per file:

| file | module | models |
|---|---|---|
| results.dfy | `Results` | `Option`, `Result` and the Python exceptions |
| strings.dfy | `Strings` | `str.endswith`, `sep.join`, `in`, and Python's string order |
| file_paths.dfy | `FilePaths` | `Path /`, `.name`, `.suffix`, `.stem` |
| file_systems.dfy | `FileSystems` | `exists`, `is_dir`, `read_text`, `iterdir` |
| dom.dfy | `Dom` | nodes, positions, `select_one`/`find`, the `head > link, head > script` selection, attribute assignment |
| sorting.dfy | `Sorting` | `sorted` on names |
| ordered_dicts.dfy | `OrderedDicts` | insertion-ordered `dict` with string keys |
| head_filter.dfy | `HeadFilter` | `EXCLUSIONS`, `tag_filter`, `get_head_nodes` |
| body_patch.dfy | `BodyPatch` | `is_local`, `get_body_content` |
| loaders.dfy | `Loaders` | `LinkedFile`, `Example`, `Author`, `Page` |
| registry.dfy | `Registry` | `Resources`, `get_sorted_paths`, `get_resources` |

The model follows the current `src/psc/resources.py` where the repository's texts disagree with it:

- The tests under `tests/examples/test_resources.py` (lines 71-85) exercise a `get_main_node_content` that extracts `<main>` and raises when it is absent. The current code has no such step. It copies the body's inner content, and returns `""` when there is no body or no `py-config`, although the docstring of `get_body_content` says it raises.
- An example's subtitle comes from the frontmatter of `index.md`. The subtitle `meta` tag is read only for HTML pages, and a missing one leaves the subtitle `""`.
- The registry is not ordered alphabetically throughout. The code sorts authors and examples by entry name. Pages come in `iterdir` order, which the model keeps as given and about which it states nothing.

A missing `href` or `src` is modelled as an `AttributeError` result, not as a precondition. With an empty exclusion tuple, the loop in `tag_filter` never reads the value, so such a tag is kept. With the default exclusions the call raises, so an example whose head has an inline `<script>` with no `src` fails to load.

Registry keys are stems in the order of the sorted NAMES. That order can differ from the order of the stems themselves: `a-b.md` sorts before `a.md`, but `a-b` sorts after `a`. If two entries share a stem, the key keeps the place of the first one, as Python's `dict` does.

## Model

| member | source | states |
|---|---|---|
| HeadFilter.EndsWithAny | src/psc/resources.py:33-36 | the loop over the exclusions finds a match iff the value ends with at least one exclusion |
| HeadFilter.TagFilter | src/psc/resources.py:23-36 | with no exclusions every tag is kept; it raises `AttributeError` for the locator exactly when there are exclusions and the locator attribute is missing; it rejects a tag exactly when the locator's value ends with some exclusion |
| HeadFilter.TagFilterJudgesLocatorOnly | src/psc/resources.py:28-34 | two tags with the same name and the same locator value get the same verdict, whatever their other attributes and children |
| HeadFilter.TagFilterLocatorChoice | src/psc/resources.py:28 | a `link` is judged by its `href` even when it also has a `src`; any other tag is judged by its `src` even when it also has an `href` |
| HeadFilter.TagFilterSuiteCases | tests/test_resources.py:40-49 | with the given exclusion, the excluded stylesheet and script are rejected, and `example.css` and `example.js` are kept |
| HeadFilter.KeptTags | src/psc/resources.py:41-45 | the comprehension raises iff judging some tag raises, and then with that tag's error; otherwise the result is a subsequence of the input (order kept) holding each kept tag as often as the input does and no rejected tag |
| HeadFilter.JoinedKeptTags | src/psc/resources.py:46-48 | every kept tag's serialisation occurs in the joined string, and the joined string is `""` when nothing is kept |
| HeadFilter.HeadNodes | src/psc/resources.py:39-48 | fails iff some `link`/`script` child of `head` lacks its locator, and then with such a tag's error; otherwise the result is the newline-join of the prettified kept head assets, in document order, or `""` when none is kept; every kept head asset's prettified form occurs in it |
| HeadFilter.HeadNodesIgnoresRejected | src/psc/resources.py:41-48 | rejected tags contribute nothing: serialisers that agree on the kept tags give the same head markup |
| HeadFilter.HeadOfShellAssetsOnly | tests/test_resources.py:58-66 | a head holding only `pyscript.css` and `pyscript.js` gives `""` |
| HeadFilter.HeadOfMixedPage | src/psc/resources.py:39-48 | a head with the example's own stylesheet beside the shell's gives exactly the own stylesheet's prettified form |
| Dom.HeadAssetsComplete | src/psc/resources.py:43 | every `link` or `script` child of any `head` in the document is selected |
| Dom.HeadAssetsSound | src/psc/resources.py:43 | everything selected is a `link` or `script` that is a child of some `head` |
| Dom.FindFirst | src/psc/resources.py:64-66 | a found position holds an element that matches the selector |
| Dom.FindFirstNone | src/psc/resources.py:64-66 | when nothing is found, no node of the document matches |
| Dom.FindFirstIsFirst | src/psc/resources.py:64-66 | the found element comes first in document order: every matching node is at or after it |
| Dom.SetAttr | src/psc/resources.py:68 | after assignment the key holds the new value; every other key keeps its value; a present key keeps its place and a new key is appended |
| Dom.UpdateAttrAtFrame | src/psc/resources.py:66-68 | rewriting one element's attribute changes nothing else: the tree keeps its shape; nodes off the path to the target (its descendants included) are untouched; ancestors keep their name and attributes; the target keeps its name and children |
| BodyPatch.MissingRuntimeIsCdn | src/psc/resources.py:51-54 | a runtime directory with nothing at or below it is not local, so pages point at the CDN configuration |
| BodyPatch.ConfigSrc | src/psc/resources.py:60-61 | local mode points at `../py_config.local.toml`, CDN mode at `../py_config.cdn.toml` |
| BodyPatch.ConfigSrcDistinguishesModes | src/psc/resources.py:60-61 | the two modes never produce the same path |
| BodyPatch.PatchedBody | src/psc/resources.py:63-68 | a patched body exists iff the document has a body with a `py-config`; in it the first `py-config` has `src` set to the mode's file and keeps every other attribute and its children, and all other nodes are as before |
| BodyPatch.BodyContent | src/psc/resources.py:57-70 | `""` without a body or without a `py-config`; otherwise exactly the concatenated serialisations of the patched body's children, each of which occurs in it |
| BodyPatch.BodyContentDependsOnlyOnBody | src/psc/resources.py:64-70 | two documents with the same first `body` give the same content |
| BodyPatch.BodyContentSuiteCase | tests/test_resources.py:69-105 | the suite's body comes back as the `py-config` alone, with `src` set to the mode's configuration and its text kept |
| BodyPatch.BodyContentWithoutConfig | tests/test_resources.py:108-114 | a body holding only a `div` gives `""` |
| BodyPatch.BodyContentWithoutBody | src/psc/resources.py:64-70 | a document without a `body` gives `""` |
| Loaders.LoadLinkedFile | src/psc/resources.py:83-101 | an unknown extension raises `KeyError` with that extension before the file is read; otherwise it succeeds iff the file is readable, with the file's text and the language that the extension maps to (one of `python`, `css`, `html`) |
| Loaders.LinkedFileLanguageByExtension | src/psc/resources.py:83-87 | `.py` is shown as Python, `.css` as CSS and `.html` as HTML; any other extension raises `KeyError` |
| Loaders.LoadLinkedFiles | src/psc/resources.py:142-145 | the linked files load in order, one per name, each at its path in the example directory; the list fails iff one of them fails, and then with the error of the first name that fails |
| Loaders.OneCharacterFails | src/psc/resources.py:99-101 | a linked name of a single character has no suffix, so loading it raises `KeyError('')` before the file is read |
| Loaders.ScalarLinkedFilesFail | src/psc/resources.py:141-145 | a `linked_files` given as a non-empty string is spread into one-character names, so the linked files fail with `KeyError('')` once `index.html` has loaded |
| Loaders.ExampleWithScalarLinkedFiles | src/psc/resources.py:137-145 | an example whose `linked_files` is a non-empty string, and whose head markup extracts, fails with `KeyError('')` |
| Loaders.LoadExample | src/psc/resources.py:119-145 | a missing `index.md` fails with the read error; a missing `index.html` fails with `ValueError("No example at <name>")`; a built example keeps its name and lists `index.html` first, as HTML, with the file's text. Its linked files are exactly the successful loading of `index.html` followed by the names under `linked_files`. Title, subtitle and author are the `index.md` frontmatter's fields (`""` when absent), the description is its rendered Markdown, the extra head is `get_head_nodes` of the parsed `index.html` (whose failure is the example's), and the body is `get_body_content` of it in the runtime's mode. When both files exist, the outcome is that of building from the frontmatter and the parsed page |
| Loaders.BuildExample | src/psc/resources.py:122-145 | the example built from its metadata and parsed page fails iff `get_head_nodes` or a linked file fails, with the head's error first and then the first failing linked file's; otherwise every field is as the metadata, `get_head_nodes`, `get_body_content` and the linked-file loads give it |
| Loaders.ExampleFailsOnUnlocatedAsset | src/psc/resources.py:136-137 | a head `link` without `href` or `script` without `src` fails the whole example with `AttributeError` for a head asset's locator |
| Loaders.ExampleLinkedFiles | src/psc/resources.py:141-145 | a built example lists one linked file per name, `index.html` and then the names in `linked_files` (the characters of a string value, one name each); each entry is what loading that name from the example directory gives |
| Loaders.LoadAuthor | src/psc/resources.py:152-158 | an author loads iff its `<name>.md` is readable, keeps its name, takes the frontmatter title (`""` when absent) and the rendered Markdown as body, and fails with the read error otherwise |
| Loaders.AuthorReadsOnlyItsFile | src/psc/resources.py:152-158 | replacing, adding or removing any file other than `<name>.md` leaves the author unchanged |
| Loaders.LoadPage | src/psc/resources.py:167-193 | the result is `ValueError("No page at <name>")` exactly when neither `<name>.md` nor `<name>.html` exists; a loaded page keeps its name |
| Loaders.MarkdownPageWins | src/psc/resources.py:169-178 | when `<name>.md` exists, the page does not depend on `<name>.html`, whatever that file holds or whether it exists; it carries the frontmatter title and subtitle (`""` when absent) |
| Loaders.HtmlPageFallback | src/psc/resources.py:179-191 | without `<name>.md`, a readable `<name>.html` loads. Its title is the text of the first `title`, and it is `""` when there is none. Its subtitle is the first subtitle `meta`'s `content` (`""` when that attribute is missing), and `""` when no subtitle `meta` exists. Its body is the prettified first `body`, and `""` when there is none |
| Loaders.MissingPageMessage | tests/test_resources.py:157-161 | the missing page `xxx` raises `ValueError` with message `No page at xxx` |
| Registry.SelectEntries | src/psc/resources.py:207-210 | every entry is kept as often as listed, or, when only directories are asked for, exactly the directories |
| Registry.GetSortedPaths | src/psc/resources.py:205-212 | fails iff the directory cannot be listed; otherwise it is a sorted permutation of the selected entries |
| Registry.SortedPathsIgnoreListingOrder | src/psc/resources.py:205-212 | listings holding the same entries in any order give the same sorted paths |
| Registry.GetResourcesContents | src/psc/resources.py:215-238 | authors and examples are keyed by stem in name-sorted order, pages in listing order; each key holds exactly what loading that name gives; any other name is a miss |
| Registry.GetResourcesSucceeds | src/psc/resources.py:215-238 | with all three directories listed and every entry loading, the build succeeds |
| Registry.GetResourcesIgnoresListingOrder | src/psc/resources.py:219-229 | rebuilding with the authors and examples directories listed in another order gives the same registry |
| Sorting.Sort | src/psc/resources.py:212 | the result is sorted in Python's string order and is a permutation of the input |
| Sorting.SortedUnique | src/psc/resources.py:212 | two sorted sequences with the same elements are equal |
| OrderedDicts.GetMiss | src/psc/resources.py:196-202 | a lookup misses (`None`) exactly when the key is absent, so a miss is distinct from a found resource |
| OrderedDicts.PutSpec | src/psc/resources.py:223 | assignment stores the value, leaves every other key as it was, keeps a present key's place and appends a new key |
| OrderedDicts.PutAllFromEmpty | src/psc/resources.py:221-236 | the insertion loop succeeds iff every load does, and otherwise fails with the first failing key's error. On success its keys are the distinct keys in order of first occurrence, each holding what loading it gives |
| FilePaths.StemSuffixSplit | src/psc/resources.py:100 | a name's stem and suffix concatenate back to it. The suffix is `""`, or a dot followed by dot-free characters. A non-empty name has a non-empty stem |

## Left out

- HTML parsing (html5lib), BeautifulSoup's `prettify` and `decode_contents` serialisers, the frontmatter reader and MarkdownIt. They are foreign libraries, modelled as uninterpreted function parameters of `Loaders.Env`. `decode_contents` is modelled as concatenating the children's serialisations.
- Reading the disk: `exists`, `is_dir`, `read_text` and `iterdir` read from given maps and sets, not from real I/O. Path joining is plain `dir + "/" + name`, with no normalisation and no special case for absolute names.
- Multi-valued attributes: `tag.get` is assumed to return a string for `href`, `src` and `content`, as the source's `cast` does.
- Typed frontmatter: scalar fields and list fields are kept in two maps, and `title`, `subtitle` and `author` are read from the scalar map only. A list or other non-string value under one of these keys is read as `""` here, while Python stores the value itself in the resource (`src/psc/resources.py:124-126`, `156`, `175-176`).
- Loaders.LoadExample: a list-valued `title`, `subtitle` or `author` in `index.md` gives `""` for that field, not the list that `src/psc/resources.py:124-126` stores.
- Loaders.BuildExample: the same gap as `LoadExample` for a list-valued `title`, `subtitle` or `author`.
- Loaders.MarkdownPageWins: a list-valued `title` or `subtitle` in a page's Markdown file gives `""`, not the list that `src/psc/resources.py:175-176` stores.
- Loaders.LoadAuthor: a list-valued `title` in an author's file gives `""`, not the list that `src/psc/resources.py:156` stores.
- A `linked_files` frontmatter value that is neither a list nor a string (`None`, a number): Python raises `TypeError` when spreading it at `src/psc/resources.py:141`. Frontmatter values are strings or lists of strings here, so this case does not arise.
- Frontmatter syntax errors: `frontmatter.load` (`src/psc/resources.py:123`, `155`, `174`) can raise on malformed YAML. The frontmatter reader is a total function parameter, so no such error is produced.
- Decoding errors: `read_text` can raise `UnicodeDecodeError`. File contents are already text here.
- A read path whose parent is a regular file: Python raises `NotADirectoryError`. `FileSystems.ReadText` returns `FileNotFoundError` for it, as for any other missing file.
- Dom.HeadAssets: the proved properties cover membership in both directions. Document order of the selection holds by construction, as a pre-order walk, and is not stated as a separate theorem. Likewise no theorem rules out a node being selected twice: that each selected node appears once rests on the same pre-order definition.
- The routing table (`app.py`), the command line (`__main__.py`), path constants (`here.py`), test fixtures and browser-driving examples. These are framework plumbing and floating-point demo code, not resource-assembly logic.
