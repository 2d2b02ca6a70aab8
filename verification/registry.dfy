/** The site's registry: the three name-keyed dictionaries of authors,
    examples and pages built once at startup (`get_sorted_paths` and
    `get_resources` in `src/psc/resources.py`). */
module Registry {

  import opened Results
  import opened FilePaths
  import opened FileSystems
  import opened Sorting
  import opened OrderedDicts
  import opened Loaders

  /** The comprehension in `get_sorted_paths`: every entry, or only the
      directories; each kept entry as often as listed, the others never. */
  function SelectEntries(fs: FileSystem, dir: string, names: seq<string>, onlyDirs: bool): (r: seq<string>)
    ensures forall x :: multiset(r)[x] == if !onlyDirs || IsDir(fs, Child(dir, x)) then multiset(names)[x] else 0
  {
    if |names| == 0 then []
    else
      var rest := SelectEntries(fs, dir, names[1..], onlyDirs);
      assert names == [names[0]] + names[1..];
      assert multiset(names) == multiset{names[0]} + multiset(names[1..]);
      if !onlyDirs || IsDir(fs, Child(dir, names[0])) then [names[0]] + rest else rest
  }

  /** `get_sorted_paths`: the (optionally directory-only) entries of `dir`,
      sorted by name, as entry names; fails iff the directory cannot be
      listed. The result is a sorted permutation of the selected entries. */
  function GetSortedPaths(fs: FileSystem, listings: Listings, dir: string, onlyDirs: bool): (r: Result<seq<string>>)
    ensures r.Ok? <==> dir in listings
    ensures r.Ok? ==> Sorted(r.value)
    ensures r.Ok? ==> forall x ::
      multiset(r.value)[x] == if !onlyDirs || IsDir(fs, Child(dir, x)) then multiset(listings[dir])[x] else 0
  {
    var names :- IterDir(fs, listings, dir);
    Ok(Sort(SelectEntries(fs, dir, names, onlyDirs)))
  }

  /** The listing order the operating system happens to use is irrelevant:
      listings holding the same entries give the same sorted paths. */
  lemma SortedPathsIgnoreListingOrder(fs: FileSystem, l1: Listings, l2: Listings, dir: string, onlyDirs: bool)
    requires dir in l1 <==> dir in l2
    requires dir in l1 ==> multiset(l1[dir]) == multiset(l2[dir])
    ensures GetSortedPaths(fs, l1, dir, onlyDirs) == GetSortedPaths(fs, l2, dir, onlyDirs)
  {
    if dir in l1 {
      var a := SelectEntries(fs, dir, l1[dir], onlyDirs);
      var b := SelectEntries(fs, dir, l2[dir], onlyDirs);
      assert forall x :: multiset(a)[x] == multiset(b)[x];
      assert multiset(a) == multiset(b);
      SortPermutationInvariant(a, b);
    }
  }

  /** The three dictionaries of the running site. */
  datatype Resources = Resources(authors: Dict<Author>, examples: Dict<Example>, pages: Dict<Page>)

  function AuthorsDir(here: string): string { Child(here, "gallery/authors") }
  function ExamplesDir(here: string): string { Child(here, "gallery/examples") }
  function PagesDir(here: string): string { Child(here, "pages") }

  /** Each entry's `stem`, the registry key. */
  function Stems(names: seq<string>): (r: seq<string>)
    ensures |r| == |names|
    ensures forall i :: 0 <= i < |names| ==> r[i] == Stem(names[i])
  {
    seq(|names|, i requires 0 <= i < |names| => Stem(names[i]))
  }

  function AuthorLoader(env: Env): string -> Result<Author> {
    name => LoadAuthor(env, name)
  }

  function ExampleLoader(env: Env): string -> Result<Example> {
    name => LoadExample(env, name)
  }

  function PageLoader(env: Env): string -> Result<Page> {
    name => LoadPage(env, name)
  }

  /** `get_resources`: authors from every entry of the authors directory and
      examples from every sub-directory of the examples directory, each in
      name order; pages from every entry of the pages directory in listing
      order. Every entry is keyed by its stem and loaded eagerly; the first
      failure aborts the whole build. */
  function GetResources(env: Env, listings: Listings): Result<Resources>
  {
    Assemble(env,
             GetSortedPaths(env.fs, listings, AuthorsDir(env.here), false),
             GetSortedPaths(env.fs, listings, ExamplesDir(env.here), true),
             IterDir(env.fs, listings, PagesDir(env.here)))
  }

  /** The build from the three directory listings, in the order the source
      consumes them: authors are loaded before the examples directory is
      consulted, and examples before the pages directory. */
  function Assemble(env: Env, authorListing: Result<seq<string>>, exampleListing: Result<seq<string>>,
                    pageListing: Result<seq<string>>): Result<Resources>
  {
    var authorNames :- authorListing;
    var authors :- PutAll([], Stems(authorNames), AuthorLoader(env));
    var exampleNames :- exampleListing;
    var examples :- PutAll([], Stems(exampleNames), ExampleLoader(env));
    var pageNames :- pageListing;
    var pages :- PutAll([], Stems(pageNames), PageLoader(env));
    Ok(Resources(authors, examples, pages))
  }

  /** A built registry: authors and examples are keyed by the stems of the
      name-sorted entries, in that order (first occurrence of a stem wins its
      place); every key holds exactly what loading that name gives; a name
      that is not a key is a miss (`None`), never an empty resource; and
      the pages are keyed by the stems of the listed entries. */
  lemma GetResourcesContents(env: Env, listings: Listings)
    requires GetResources(env, listings).Ok?
    ensures var res := GetResources(env, listings).value;
      var authorNames := GetSortedPaths(env.fs, listings, AuthorsDir(env.here), false).value;
      var exampleNames := GetSortedPaths(env.fs, listings, ExamplesDir(env.here), true).value;
      var pageNames := listings[PagesDir(env.here)];
      && Keys(res.authors) == FirstOccurrences(Stems(authorNames))
      && Keys(res.examples) == FirstOccurrences(Stems(exampleNames))
      && Keys(res.pages) == FirstOccurrences(Stems(pageNames))
      && (forall k :: k in Stems(authorNames) ==> Get(res.authors, k).Some? && LoadAuthor(env, k) == Ok(Get(res.authors, k).value))
      && (forall k :: k in Stems(exampleNames) ==> Get(res.examples, k).Some? && LoadExample(env, k) == Ok(Get(res.examples, k).value))
      && (forall k :: k in Stems(pageNames) ==> Get(res.pages, k).Some? && LoadPage(env, k) == Ok(Get(res.pages, k).value))
      && (forall k :: k !in Stems(authorNames) ==> Get(res.authors, k).None?)
      && (forall k :: k !in Stems(exampleNames) ==> Get(res.examples, k).None?)
      && (forall k :: k !in Stems(pageNames) ==> Get(res.pages, k).None?)
  {
    var authorNames := GetSortedPaths(env.fs, listings, AuthorsDir(env.here), false).value;
    var exampleNames := GetSortedPaths(env.fs, listings, ExamplesDir(env.here), true).value;
    var pageNames := listings[PagesDir(env.here)];
    PutAllFromEmpty(Stems(authorNames), AuthorLoader(env));
    PutAllFromEmpty(Stems(exampleNames), ExampleLoader(env));
    PutAllFromEmpty(Stems(pageNames), PageLoader(env));
  }

  /** The build fails iff some directory cannot be listed or some entry
      cannot be loaded: with all three listed, every author and example in
      name order and every page loading, it succeeds. */
  lemma GetResourcesSucceeds(env: Env, listings: Listings)
    requires AuthorsDir(env.here) in listings && ExamplesDir(env.here) in listings && PagesDir(env.here) in listings
    requires var names := GetSortedPaths(env.fs, listings, AuthorsDir(env.here), false).value;
      forall i :: 0 <= i < |names| ==> LoadAuthor(env, Stem(names[i])).Ok?
    requires var names := GetSortedPaths(env.fs, listings, ExamplesDir(env.here), true).value;
      forall i :: 0 <= i < |names| ==> LoadExample(env, Stem(names[i])).Ok?
    requires var names := listings[PagesDir(env.here)];
      forall i :: 0 <= i < |names| ==> LoadPage(env, Stem(names[i])).Ok?
    ensures GetResources(env, listings).Ok?
  {
    var authorNames := GetSortedPaths(env.fs, listings, AuthorsDir(env.here), false).value;
    var exampleNames := GetSortedPaths(env.fs, listings, ExamplesDir(env.here), true).value;
    var pageNames := listings[PagesDir(env.here)];
    PutAllFromEmpty(Stems(authorNames), AuthorLoader(env));
    PutAllFromEmpty(Stems(exampleNames), ExampleLoader(env));
    PutAllFromEmpty(Stems(pageNames), PageLoader(env));
  }

  /** Rebuilding gives the same registry even when the operating system
      lists the authors and examples directories in another order (the
      pages' listing order, which the build keeps, must be the same). */
  lemma GetResourcesIgnoresListingOrder(env: Env, l1: Listings, l2: Listings)
    requires forall d :: d in {AuthorsDir(env.here), ExamplesDir(env.here)} ==>
      (d in l1 <==> d in l2) && (d in l1 ==> multiset(l1[d]) == multiset(l2[d]))
    requires PagesDir(env.here) in l1 <==> PagesDir(env.here) in l2
    requires PagesDir(env.here) in l1 ==> l1[PagesDir(env.here)] == l2[PagesDir(env.here)]
    ensures GetResources(env, l1) == GetResources(env, l2)
  {
    SortedPathsIgnoreListingOrder(env.fs, l1, l2, AuthorsDir(env.here), false);
    SortedPathsIgnoreListingOrder(env.fs, l1, l2, ExamplesDir(env.here), true);
    assert IterDir(env.fs, l1, PagesDir(env.here)) == IterDir(env.fs, l2, PagesDir(env.here));
  }
}
