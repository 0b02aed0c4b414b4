/**
  The content resolver: how the uploaded file becomes a staged course tree,
  when processing stops, which file is launched and which paths the
  manifest lists. The staged tree is given as the sequence of entries a
  recursive walk of the course root yields, in its traversal order.
 */
module Resolver {
  import opened Text
  import opened Paths

  /** An entry below the course root: its relative path as `str(rel)` writes it and
      whether it is a regular file (the walk also yields directories). */
  datatype Entry = Entry(path: string, isFile: bool)

  /** What extracting the upload as a ZIP gives: `BadZipFile`, or the tree it stages. */
  datatype Extraction = BadZip | Extracted(tree: seq<Entry>)

  datatype ResolveError = InvalidArchive | NoContentFound

  /** What the manifest builder receives: every staged file and the launch document. */
  datatype StagedCourse = StagedCourse(fileList: seq<string>, launchFile: string)

  /** The upload is treated as a ZIP archive exactly when its name ends in `.zip`, in any case. */
  predicate IsArchive(uploadName: string)
    ensures IsArchive(uploadName) <==>
      var n := |uploadName|;
      n >= 4 && uploadName[n - 4] == '.' && uploadName[n - 3] in "zZ"
      && uploadName[n - 2] in "iI" && uploadName[n - 1] in "pP"
  {
    var lower := Lower(uploadName);
    assert |lower| >= 4 ==> lower[|lower| - 4..] == [lower[|lower| - 4], lower[|lower| - 3], lower[|lower| - 2], lower[|lower| - 1]];
    EndsWith(lower, ".zip")
  }

  /** The name already looks like a root document (`...index.html` or `...index.htm`, any case). */
  predicate LooksLikeIndex(uploadName: string) {
    var lower := Lower(uploadName);
    EndsWith(lower, "index.html") || EndsWith(lower, "index.htm")
  }

  /** The name a single uploaded document is staged under: its own name when it already
      looks like a root document, `index.html` otherwise. */
  function StagingName(uploadName: string): (r: string)
    ensures r == uploadName || r == "index.html"
    ensures LooksLikeIndex(r)
    ensures r != uploadName ==> !LooksLikeIndex(uploadName)
  {
    if LooksLikeIndex(uploadName) then uploadName
    else
      assert Lower("index.html") == "index.html";
      "index.html"
  }

  /** Staging an already staged name changes nothing. */
  lemma StagingNameIdempotent(uploadName: string)
    ensures StagingName(StagingName(uploadName)) == StagingName(uploadName)
  {
  }

  /** A document not named like an index is renamed (`foo.html`), one that is keeps its
      name and case, including names that merely end in `index.html` (`myIndex.HTML`). */
  lemma StagingNameExamples()
    ensures StagingName("foo.html") == "index.html"
    ensures StagingName("myIndex.HTML") == "myIndex.HTML"
    ensures StagingName("index.htm") == "index.htm"
  {
    LowerOfLower("foo.html");
    LowerOfLower("index.htm");
    assert Lower("myIndex.HTML")[2..] == "index.html";
  }

  lemma LowerOfLower(s: string)
    requires forall i :: 0 <= i < |s| ==> !('A' <= s[i] <= 'Z')
    ensures Lower(s) == s
  {
  }

  /** The staged tree, or the archive error. A single document lands alone at the root. */
  function Staged(uploadName: string, extraction: Extraction): (r: Result<seq<Entry>, ResolveError>)
    ensures r.Failure? <==> IsArchive(uploadName) && extraction.BadZip?
    ensures r.Failure? ==> r.error == InvalidArchive
    ensures !IsArchive(uploadName) ==> r == Success([Entry(StagingName(uploadName), true)])
    ensures IsArchive(uploadName) && extraction.Extracted? ==> r == Success(extraction.tree)
  {
    if IsArchive(uploadName) then
      match extraction
      case BadZip => Failure(InvalidArchive)
      case Extracted(tree) => Success(tree)
    else Success([Entry(StagingName(uploadName), true)])
  }

  /** `rglob('*' + ext)`: the entries whose name ends in `ext`, case-sensitively, in
      traversal order. */
  function Matching(tree: seq<Entry>, ext: string): (r: seq<Entry>)
    ensures |r| <= |tree|
    ensures forall e :: e in r ==> e in tree && EndsWith(e.path, ext)
  {
    if tree == [] then []
    else if EndsWith(tree[0].path, ext) then [tree[0]] + Matching(tree[1..], ext)
    else Matching(tree[1..], ext)
  }

  /** An entry is matched exactly when it is in the walk and carries the ending. */
  lemma {:induction false} MatchingMember(tree: seq<Entry>, ext: string, e: Entry)
    ensures e in Matching(tree, ext) <==> e in tree && EndsWith(e.path, ext)
  {
    if tree != [] {
      MatchingMember(tree[1..], ext, e);
      assert e in tree <==> e == tree[0] || e in tree[1..] by { assert tree == [tree[0]] + tree[1..]; }
    }
  }

  /** `tree[k]` is the first entry of the walk whose path ends in `ext`. */
  predicate FirstWith(tree: seq<Entry>, k: int, ext: string) {
    0 <= k < |tree| && EndsWith(tree[k].path, ext) && forall j :: 0 <= j < k ==> !EndsWith(tree[j].path, ext)
  }

  /** The first match is the first entry of the walk with that ending. */
  lemma {:induction false} FirstMatch(tree: seq<Entry>, ext: string)
    requires Matching(tree, ext) != []
    ensures exists k :: FirstWith(tree, k, ext) && Matching(tree, ext)[0] == tree[k]
  {
    if !EndsWith(tree[0].path, ext) {
      FirstMatch(tree[1..], ext);
      var k :| FirstWith(tree[1..], k, ext) && Matching(tree[1..], ext)[0] == tree[1..][k];
      assert forall j :: 1 <= j < k + 1 ==> tree[j] == tree[1..][j - 1];
      assert FirstWith(tree, k + 1, ext);
    } else {
      assert FirstWith(tree, 0, ext);
    }
  }

  /** `list(rglob('*.html')) + list(rglob('*.htm'))` */
  function HtmlMatches(tree: seq<Entry>): (r: seq<Entry>)
    ensures forall e :: e in r ==> e in tree && (EndsWith(e.path, ".html") || EndsWith(e.path, ".htm"))
  {
    Matching(tree, ".html") + Matching(tree, ".htm")
  }

  /** Processing stops with `NoContentFound` exactly when no path ends in `.html` or `.htm`. */
  lemma NoContentExactly(tree: seq<Entry>)
    ensures HtmlMatches(tree) == [] <==>
      forall k :: 0 <= k < |tree| ==> !EndsWith(tree[k].path, ".html") && !EndsWith(tree[k].path, ".htm")
  {
    if HtmlMatches(tree) != [] {
      var e := HtmlMatches(tree)[0];
      if Matching(tree, ".html") != [] {
        MatchingMember(tree, ".html", e);
      } else {
        MatchingMember(tree, ".htm", e);
      }
    } else {
      forall k | 0 <= k < |tree| ensures !EndsWith(tree[k].path, ".html") && !EndsWith(tree[k].path, ".htm") {
        MatchingMember(tree, ".html", tree[k]);
        MatchingMember(tree, ".htm", tree[k]);
      }
    }
  }

  /** `(course_root / 'index.html').exists()`: true for a directory of that name as well. */
  predicate HasRootIndex(tree: seq<Entry>)
    ensures HasRootIndex(tree) <==> Entry("index.html", true) in tree || Entry("index.html", false) in tree
  {
    exists k :: 0 <= k < |tree| && tree[k].path == "index.html"
  }

  /** The launch document: `index.html` at the root if present, otherwise the first
      `.html` match of the walk, and only if there is none the first `.htm` match. */
  function SelectLaunch(tree: seq<Entry>): (r: string)
    requires HtmlMatches(tree) != []
    ensures '\\' !in r
    ensures Selectable(r)
  {
    if HasRootIndex(tree) then "index.html"
    else
      var e := HtmlMatches(tree)[0];
      assert e in HtmlMatches(tree);
      RewrittenSelectable(e.path);
      ForwardSlashes(e.path)
  }

  /** One step of the walk: the first entry is matched exactly when it has the ending. */
  lemma MatchingStep(tree: seq<Entry>, ext: string)
    requires tree != []
    ensures Matching(tree, ext) == (if EndsWith(tree[0].path, ext) then [tree[0]] else []) + Matching(tree[1..], ext)
  {
  }

  /** Without a root `index.html`, the first match is launched, rewritten. */
  lemma LaunchWithoutRootIndex(tree: seq<Entry>)
    requires !HasRootIndex(tree) && HtmlMatches(tree) != []
    ensures SelectLaunch(tree) == ForwardSlashes(HtmlMatches(tree)[0].path)
  {
  }

  /** A `.html` or `.htm` path stays selectable once its backslashes are rewritten. */
  lemma RewrittenSelectable(p: string)
    requires EndsWith(p, ".html") || EndsWith(p, ".htm")
    ensures Selectable(ForwardSlashes(p))
  {
    assert '\\' !in ".html" && '\\' !in ".htm";
    if EndsWith(p, ".html") {
      ForwardSlashesKeepsSuffix(p, ".html");
    } else {
      ForwardSlashesKeepsSuffix(p, ".htm");
    }
  }

  /** Without a root `index.html`, the first `.html` file of the walk is launched,
      ahead of every `.htm` file. */
  lemma LaunchFirstHtml(tree: seq<Entry>)
    requires !HasRootIndex(tree) && Matching(tree, ".html") != []
    ensures HtmlMatches(tree) != []
    ensures exists k :: FirstWith(tree, k, ".html") && SelectLaunch(tree) == ForwardSlashes(tree[k].path)
    ensures EndsWith(SelectLaunch(tree), ".html")
  {
    FirstMatch(tree, ".html");
    var k :| FirstWith(tree, k, ".html") && Matching(tree, ".html")[0] == tree[k];
    assert HtmlMatches(tree)[0] == tree[k];
    assert SelectLaunch(tree) == ForwardSlashes(tree[k].path);
    assert EndsWith(ForwardSlashes(tree[k].path), ".html") by {
      assert '\\' !in ".html";
      ForwardSlashesKeepsSuffix(tree[k].path, ".html");
    }
  }

  /** Without a root `index.html` and without any `.html` file, the first `.htm` file of
      the walk is launched. */
  lemma LaunchFirstHtm(tree: seq<Entry>)
    requires !HasRootIndex(tree) && Matching(tree, ".html") == [] && Matching(tree, ".htm") != []
    ensures HtmlMatches(tree) != []
    ensures exists k :: FirstWith(tree, k, ".htm") && SelectLaunch(tree) == ForwardSlashes(tree[k].path)
  {
    FirstMatch(tree, ".htm");
  }

  /** A nested `docs/index.html` is not a root index: with no root `index.html`, the
      first `.html` of the walk is launched even if a `docs/index.html` comes later. */
  lemma NestedIndexIsNotRoot()
    ensures var tree := [Entry("docs", false), Entry("docs/a.html", true), Entry("docs/index.html", true)];
      HtmlMatches(tree) != [] && SelectLaunch(tree) == "docs/a.html"
  {
    var a, b, c := Entry("docs", false), Entry("docs/a.html", true), Entry("docs/index.html", true);
    var tree := [a, b, c];
    assert !HasRootIndex(tree) by {
      assert a !in [b, c] && b !in [c];
      assert forall k :: 0 <= k < |tree| ==> tree[k] in {a, b, c};
    }
    NestedFirstMatch(a, b, c);
    LaunchWithoutRootIndex(tree);
    ForwardSlashesIdentity(b.path);
  }

  /** In the walk `docs`, `docs/a.html`, `docs/index.html` the first match is `docs/a.html`. */
  lemma NestedFirstMatch(a: Entry, b: Entry, c: Entry)
    requires a == Entry("docs", false) && b == Entry("docs/a.html", true)
    ensures HtmlMatches([a, b, c]) != [] && HtmlMatches([a, b, c])[0] == b
  {
    var tree := [a, b, c];
    assert EndsWith(b.path, ".html") by { assert b.path[6..] == ".html"; }
    MatchingStep(tree, ".html");
    assert tree[1..] == [b, c];
    MatchingStep([b, c], ".html");
  }



  /** The file list: every regular file of the walk, in walk order, backslashes rewritten. */
  function FileList(tree: seq<Entry>): (r: seq<string>)
    ensures |r| <= |tree|
  {
    if tree == [] then []
    else FileList(tree[..|tree| - 1]) + if tree[|tree| - 1].isFile then [ForwardSlashes(tree[|tree| - 1].path)] else []
  }

  /** A path is listed exactly when some regular file of the walk rewrites to it. */
  lemma {:induction false} FileListMember(tree: seq<Entry>, p: string)
    ensures p in FileList(tree) <==> exists k :: 0 <= k < |tree| && tree[k].isFile && p == ForwardSlashes(tree[k].path)
  {
    if tree != [] {
      var init := tree[..|tree| - 1];
      FileListMember(init, p);
      assert forall k :: 0 <= k < |init| ==> init[k] == tree[k];
    }
  }

  /** The loop that collects `file_list` from the walk. */
  method ListFiles(tree: seq<Entry>) returns (fileList: seq<string>)
    ensures fileList == FileList(tree)
  {
    fileList := [];
    for i := 0 to |tree|
      invariant fileList == FileList(tree[..i])
    {
      assert tree[..i + 1][..i] == tree[..i];
      if tree[i].isFile {
        fileList := fileList + [ForwardSlashes(tree[i].path)];
      }
    }
    assert tree[..|tree|] == tree;
  }

  /** A path the launch policy can pick. */
  predicate Selectable(path: string) {
    path == "index.html" || EndsWith(path, ".html") || EndsWith(path, ".htm")
  }

  /** The launch document is one of the listed files, provided every entry that can be
      chosen is a regular file (a directory named `x.html` is also matched). */
  lemma LaunchIsListed(tree: seq<Entry>)
    requires HtmlMatches(tree) != []
    requires forall k :: 0 <= k < |tree| && Selectable(tree[k].path) ==> tree[k].isFile
    ensures SelectLaunch(tree) in FileList(tree)
  {
    if HasRootIndex(tree) {
      var k :| 0 <= k < |tree| && tree[k].path == "index.html";
      RootIndexUnchanged();
      FileListMember(tree, "index.html");
    } else {
      var e := HtmlMatches(tree)[0];
      var ext := if Matching(tree, ".html") != [] then ".html" else ".htm";
      MatchingMember(tree, ext, e);
      var k :| 0 <= k < |tree| && tree[k] == e;
      FileListMember(tree, ForwardSlashes(e.path));
    }
  }

  /** The `.html` pattern also matches a directory: a directory named `a.html` holding
      only `b.txt` is launched, yet it is not among the listed files. */
  lemma DirectoryCanBeLaunched()
    ensures var tree := [Entry("a.html", false), Entry("a.html/b.txt", true)];
      HtmlMatches(tree) != [] && SelectLaunch(tree) == "a.html" && FileList(tree) == ["a.html/b.txt"]
      && SelectLaunch(tree) !in FileList(tree)
  {
    var a, b := Entry("a.html", false), Entry("a.html/b.txt", true);
    var tree := [a, b];
    DirectoryIsLaunched(a, b);
    assert FileList(tree) == [b.path] by {
      ForwardSlashesIdentity(b.path);
      assert tree[..1][..0] == [] && tree[..2][..1] == tree[..1];
    }
    assert |a.path| != |b.path|;
  }

  /** The directory `a.html`, walked first, is the launch file of the tree `[a, b]`. */
  lemma DirectoryIsLaunched(a: Entry, b: Entry)
    requires a == Entry("a.html", false) && b == Entry("a.html/b.txt", true)
    ensures HtmlMatches([a, b]) != [] && SelectLaunch([a, b]) == "a.html"
  {
    var tree := [a, b];
    assert !HasRootIndex(tree) by {
      assert forall k :: 0 <= k < |tree| ==> tree[k] in {a, b};
    }
    assert HtmlMatches(tree)[0] == a by {
      assert EndsWith(a.path, ".html") by { assert a.path[1..] == ".html"; }
      MatchingStep(tree, ".html");
    }
    LaunchWithoutRootIndex(tree);
    ForwardSlashesIdentity(a.path);
  }



  /** The resolver as the program runs it: stage, stop on a bad archive or on missing
      HTML, pick the launch document, collect the file list. */
  method ResolveContent(uploadName: string, extraction: Extraction) returns (r: Result<StagedCourse, ResolveError>)
    ensures IsArchive(uploadName) && extraction.BadZip? ==> r == Failure(InvalidArchive)
    ensures Staged(uploadName, extraction).Success? ==>
      var tree := Staged(uploadName, extraction).value;
      if HtmlMatches(tree) == [] then r == Failure(NoContentFound)
      else r == Success(StagedCourse(FileList(tree), SelectLaunch(tree)))
  {
    var staged := Staged(uploadName, extraction);
    if staged.Failure? {
      return Failure(InvalidArchive);
    }
    var tree := staged.value;
    var htmlFiles := HtmlMatches(tree);
    if htmlFiles == [] {
      return Failure(NoContentFound);
    }
    var launchFile := SelectLaunch(tree);
    var fileList := ListFiles(tree);
    r := Success(StagedCourse(fileList, launchFile));
  }

  /** A single document not named like an index is staged as `index.html`, which is then
      the only file and the launch document. */
  lemma SingleDocumentUpload(uploadName: string, extraction: Extraction)
    requires !IsArchive(uploadName) && !LooksLikeIndex(uploadName)
    ensures var tree := Staged(uploadName, extraction).value;
      HtmlMatches(tree) != [] && SelectLaunch(tree) == "index.html" && FileList(tree) == ["index.html"]
  {
    var tree := Staged(uploadName, extraction).value;
    assert tree == [Entry("index.html", true)];
    assert tree[0] in HtmlMatches(tree);
    assert HasRootIndex(tree);
    assert tree[..0] == [];
    RootIndexUnchanged();
  }

  /** Matching is case-sensitive while the staging test is not: an upload named
      `INDEX.HTML` keeps its name and then yields no `.html`/`.htm` match, so processing
      stops with `NoContentFound`. */
  lemma UpperCaseIndexFindsNoContent(extraction: Extraction)
    ensures Staged("INDEX.HTML", extraction) == Success([Entry("INDEX.HTML", true)])
    ensures HtmlMatches([Entry("INDEX.HTML", true)]) == []
  {
    UpperCaseIndexStaging();
    assert !EndsWith("INDEX.HTML", ".html") && !EndsWith("INDEX.HTML", ".htm");
    NoContentExactly([Entry("INDEX.HTML", true)]);
  }

  lemma UpperCaseIndexStaging()
    ensures !IsArchive("INDEX.HTML") && StagingName("INDEX.HTML") == "INDEX.HTML"
  {
    assert Lower("INDEX.HTML") == "index.html";
  }
}
