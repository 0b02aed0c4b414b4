/**
  The upload-to-package pipeline: resolve the upload, build the manifest,
  name the package, and list the archive entries.
 */
module App {
  import opened Text
  import opened Paths
  import opened Xml
  import opened Manifest
  import opened Resolver

  const PackageSuffix: string := "_SCORM.zip"
  const ManifestEntry: string := "imsmanifest.xml"

  /** The download name: the title without surrounding whitespace, each space turned
      into `_`, then `_SCORM.zip`. */
  function PackageName(title: string): (r: string)
    ensures EndsWith(r, PackageSuffix)
    ensures ' ' !in r
  {
    var stem := ReplaceChar(Strip(title), ' ', '_');
    SuffixHasNoSpace();
    assert (stem + PackageSuffix)[|stem|..] == PackageSuffix;
    stem + PackageSuffix
  }

  /** Before the suffix, the name is the stripped title with each space turned into `_`;
      every other character, a tab included, passes through. */
  lemma PackageNameStem(title: string)
    ensures var r := PackageName(title); var t := Strip(title);
      |r| == |t| + |PackageSuffix| &&
      forall i :: 0 <= i < |t| ==> if t[i] == ' ' then r[i] == '_' else r[i] == t[i]
  {
  }

  lemma SuffixHasNoSpace()
    ensures ' ' !in PackageSuffix
  {
  }

  /** The title "Demo Course" names the package `Demo_Course_SCORM.zip`. */
  lemma DemoCourseName()
    ensures PackageName("Demo Course") == "Demo_Course_SCORM.zip"
  {
    var t := "Demo Course";
    assert LStrip(t) == t;
    assert RStrip(t) == t;
    var stem := ReplaceChar(t, ' ', '_');
    assert stem == "Demo_Course";
  }

  /** Only the space character is replaced: a stripped title without spaces, whatever
      other whitespace (tabs, newlines) it holds inside, is kept as it is. */
  lemma PackageNameWithoutSpaces(title: string)
    requires ' ' !in Strip(title)
    ensures PackageName(title) == Strip(title) + PackageSuffix
  {
    var t := Strip(title);
    assert ReplaceChar(t, ' ', '_') == t;
  }

  /** What the user downloads: the archive name, its entry names in write order, and the
      manifest written as the last entry. */
  datatype Package = Package(fileName: string, entries: seq<string>, manifest: string)

  /** Runs the whole conversion for one upload, with the identifier supplied by the caller. */
  method MakePackage(title: string, identifier: string, uploadName: string, extraction: Extraction)
    returns (r: Result<Package, ResolveError>)
    ensures IsArchive(uploadName) && extraction.BadZip? ==> r == Failure(InvalidArchive)
    ensures Staged(uploadName, extraction).Success? ==>
      var tree := Staged(uploadName, extraction).value;
      if HtmlMatches(tree) == [] then r == Failure(NoContentFound)
      else
        var files := FileList(tree);
        r == Success(Package(PackageName(title), files + [ManifestEntry],
                             XmlDeclaration + Serialize(ManifestTree(title, identifier, SelectLaunch(tree), files), Prefixes)))
  {
    var resolved := ResolveContent(uploadName, extraction);
    if resolved.Failure? {
      return Failure(resolved.error);
    }
    var course := resolved.value;
    var manifest := GenerateManifest(title, identifier, course.launchFile, course.fileList);
    var name := PackageName(title);
    r := Success(Package(name, course.fileList + [ManifestEntry], manifest));
  }

  /** When every entry the launch policy can pick is a regular file, the resource's
      `href` is also the `href` of one of its `file` children. */
  lemma LaunchHasFileEntry(title: string, identifier: string, tree: seq<Entry>)
    requires HtmlMatches(tree) != []
    requires forall k :: 0 <= k < |tree| && Selectable(tree[k].path) ==> tree[k].isFile
    ensures var m := ManifestTree(title, identifier, SelectLaunch(tree), FileList(tree));
      var res := m.children[2].children[0];
      Get(res, Plain("href")) == Some(SelectLaunch(tree)) && SelectLaunch(tree) in Hrefs(res.children)
  {
    var launch := SelectLaunch(tree);
    var files := FileList(tree);
    LaunchIsListed(tree);
    ForwardSlashesIdentity(launch);
    ListedLaunchHasFileEntry(title, identifier, launch, files);
  }

  lemma ManifestEntryUnchanged()
    ensures ForwardSlashes(ManifestEntry) == ManifestEntry
  {
    ForwardSlashesIdentity(ManifestEntry);
  }

  /** An archive that already holds a root `imsmanifest.xml` file yields that entry name
      twice: once copied from the tree, once for the generated manifest. */
  lemma ManifestEntryCanRepeat(tree: seq<Entry>)
    requires exists k :: 0 <= k < |tree| && tree[k] == Entry(ManifestEntry, true)
    ensures multiset(FileList(tree) + [ManifestEntry])[ManifestEntry] >= 2
  {
    ManifestEntryUnchanged();
    FileListMember(tree, ManifestEntry);
    var files := FileList(tree);
    assert ManifestEntry in multiset(files);
    assert multiset(files + [ManifestEntry]) == multiset(files) + multiset{ManifestEntry};
  }

  /** A single `lesson.html` titled "Demo Course" becomes `Demo_Course_SCORM.zip` holding
      `index.html` and `imsmanifest.xml`, with `index.html` as the launch document. */
  lemma DemoCourse(extraction: Extraction)
    ensures var tree := Staged("lesson.html", extraction).value;
      && HtmlMatches(tree) != []
      && SelectLaunch(tree) == "index.html"
      && FileList(tree) + [ManifestEntry] == ["index.html", "imsmanifest.xml"]
      && PackageName("Demo Course") == "Demo_Course_SCORM.zip"
  {
    assert Lower("lesson.html") == "lesson.html";
    assert !IsArchive("lesson.html");
    assert !LooksLikeIndex("lesson.html");
    SingleDocumentUpload("lesson.html", extraction);
    DemoCourseName();
  }
}
