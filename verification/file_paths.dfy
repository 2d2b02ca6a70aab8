/** The `pathlib.PurePath` operations the loaders use, on `/`-separated
    path strings. */
module FilePaths {

  import opened Strings

  /** `dir / name`. */
  function Child(dir: string, name: string): string {
    dir + "/" + name
  }

  /** `s.rfind(c)`: the index of the last occurrence of `c`, or -1. */
  function LastIndexOf(s: string, c: char): (r: int)
    ensures -1 <= r < |s|
    ensures r >= 0 ==> s[r] == c
    ensures forall j :: r < j < |s| ==> s[j] != c
  {
    if |s| == 0 then -1
    else if s[|s| - 1] == c then |s| - 1
    else LastIndexOf(s[..|s| - 1], c)
  }

  /** `PurePath.name`: the final path component. */
  function BaseName(path: string): (r: string)
    ensures forall k :: 0 <= k < |r| ==> r[k] != '/'
    ensures EndsWith(path, r)
  {
    path[LastIndexOf(path, '/') + 1..]
  }

  /** The final component of `dir / name` is `name` when `name` is a single
      component. */
  lemma BaseNameOfChild(dir: string, name: string)
    requires '/' !in name
    ensures BaseName(Child(dir, name)) == name
  {
    var s := Child(dir, name);
    assert s[|dir|] == '/';
    assert forall k :: |dir| < k < |s| ==> s[k] == name[k - |dir| - 1];
    assert s[|dir| + 1..] == name;
  }

  /** Whether a final component has an extension: a dot that is neither
      its first nor its last character (so `.bashrc` and `a.` have none). */
  function DotIndex(name: string): int {
    var i := LastIndexOf(name, '.');
    if 0 < i < |name| - 1 then i else -1
  }

  /** `PurePath.suffix` of a final component: from its last interior dot on. */
  function Suffix(name: string): string {
    var i := DotIndex(name);
    if i < 0 then "" else name[i..]
  }

  /** `PurePath.stem` of a final component: everything before the suffix. */
  function Stem(name: string): string {
    var i := DotIndex(name);
    if i < 0 then name else name[..i]
  }

  /** Stem and suffix split a name: they concatenate back to it, the suffix
      is empty or a dot followed by at least one dot-free character, and the
      stem is never empty. */
  lemma StemSuffixSplit(name: string)
    ensures Stem(name) + Suffix(name) == name
    ensures Suffix(name) == "" || (|Suffix(name)| >= 2 && Suffix(name)[0] == '.')
    ensures forall k :: 1 <= k < |Suffix(name)| ==> Suffix(name)[k] != '.'
    ensures |name| > 0 ==> |Stem(name)| > 0
  {
    var i := DotIndex(name);
    if i >= 0 {
      assert name[..i] + name[i..] == name;
    }
  }

  /** A name with a dot strictly inside it and after which no dot follows has
      exactly that tail as its suffix. */
  lemma SuffixOfExtension(stem: string, ext: string)
    requires |stem| > 0 && |ext| > 0 && '.' !in ext
    ensures Suffix(stem + "." + ext) == "." + ext
    ensures Stem(stem + "." + ext) == stem
  {
    var name := stem + "." + ext;
    var i := LastIndexOf(name, '.');
    assert name[|stem|] == '.';
    assert forall k :: |stem| < k < |name| ==> name[k] == ext[k - |stem| - 1];
    assert name[i..] == "." + ext;
  }
}
