/**
  `generate_manifest`: the `imsmanifest.xml` of a single-SCO SCORM 1.2
  content package (IMS Content Packaging `imscp_v1p1`), with one
  organization, one item, one resource and one `file` per listed path.
 */
module Manifest {
  import opened Text
  import opened Xml
  import opened Ordering
  import opened Paths

  const ImscpNamespace: string := "http://www.imsglobal.org/xsd/imscp_v1p1"
  /** The namespace the program uses for `adlcp`; SCORM 1.2 itself names `adlcp_rootv1p2`. */
  const AdlcpNamespace: string := "http://www.adlnet.org/xsd/adlcp_v1p3"
  const XsiNamespace: string := "http://www.w3.org/2001/XMLSchema-instance"

  /** The prefixes registered with `ET.register_namespace`, keyed by namespace URI. */
  const Prefixes: map<string, string> :=
    map[ImscpNamespace := "", AdlcpNamespace := "adlcp", XsiNamespace := "xsi"]

  /** The literal prepended to the serialised tree. */
  const XmlDeclaration: string := "<?xml version=\"1.0\" encoding=\"UTF-8\"?>\n"

  const ScormType: QName := QName(AdlcpNamespace, "scormtype")

  /** A child element holding only text, such as `<title>` or `<schema>`. */
  function TextElement(tag: string, text: string): Element {
    NewElement(tag, []).(text := Some(text))
  }

  function ResourceAttrs(launchFile: string): seq<Attribute> {
    [ Attribute(Plain("identifier"), "RES-1"), Attribute(Plain("type"), "webcontent"),
      Attribute(ScormType, "sco"), Attribute(Plain("href"), launchFile) ]
  }

  /** One `<file href=...>` per listed path, with backslashes rewritten. */
  function FileElement(path: string): Element {
    NewElement("file", [Attribute(Plain("href"), ForwardSlashes(path))])
  }

  function FileElements(paths: seq<string>): (r: seq<Element>)
    ensures |r| == |paths|
    ensures forall k :: 0 <= k < |paths| ==> r[k] == FileElement(paths[k])
  {
    seq(|paths|, k requires 0 <= k < |paths| => FileElement(paths[k]))
  }

  function MetadataTree(): Element {
    Element("metadata", [], None, [TextElement("schema", "ADL SCORM"), TextElement("schemaversion", "1.2")])
  }

  function OrganizationsTree(title: string): Element {
    var item := Element("item", [Attribute(Plain("identifier"), "ITEM-1"), Attribute(Plain("identifierref"), "RES-1")],
                        None, [TextElement("title", title)]);
    var organization := Element("organization", [Attribute(Plain("identifier"), "ORG-1")], None,
                                [TextElement("title", title), item]);
    Element("organizations", [Attribute(Plain("default"), "ORG-1")], None, [organization])
  }

  function ResourcesTree(launchFile: string, fileList: seq<string>): Element {
    var resource := Element("resource", ResourceAttrs(launchFile), None, FileElements(SortStrings(fileList)));
    Element("resources", [], None, [resource])
  }

  /** The tree the builder produces: the reference the method below is proved against. */
  function ManifestTree(title: string, identifier: string, launchFile: string, fileList: seq<string>): Element {
    Element("manifest", [Attribute(Plain("identifier"), identifier), Attribute(Plain("version"), "1")], None,
            [MetadataTree(), OrganizationsTree(title), ResourcesTree(launchFile, fileList)])
  }

  /** Grows the tree as `generate_manifest` does, one `SubElement` at a time; the `file`
      children are appended to the resource in ascending order of the original paths. */
  method BuildManifest(title: string, identifier: string, launchFile: string, fileList: seq<string>)
    returns (manifest: Element)
    ensures manifest == ManifestTree(title, identifier, launchFile, fileList)
  {
    manifest := NewElement("manifest", [Attribute(Plain("identifier"), identifier), Attribute(Plain("version"), "1")]);
    var metadata := BuildMetadata();
    manifest := AppendChild(manifest, metadata);
    var organizations := BuildOrganizations(title);
    manifest := AppendChild(manifest, organizations);
    var resources := BuildResources(launchFile, fileList);
    manifest := AppendChild(manifest, resources);
    assert manifest.children == [metadata, organizations, resources];
  }

  method BuildMetadata() returns (metadata: Element)
    ensures metadata == MetadataTree()
  {
    metadata := NewElement("metadata", []);
    metadata := AppendChild(metadata, TextElement("schema", "ADL SCORM"));
    metadata := AppendChild(metadata, TextElement("schemaversion", "1.2"));
    assert metadata.children == [TextElement("schema", "ADL SCORM"), TextElement("schemaversion", "1.2")];
  }

  method BuildOrganizations(title: string) returns (organizations: Element)
    ensures organizations == OrganizationsTree(title)
  {
    organizations := NewElement("organizations", [Attribute(Plain("default"), "ORG-1")]);
    var org := NewElement("organization", [Attribute(Plain("identifier"), "ORG-1")]);
    org := AppendChild(org, TextElement("title", title));
    var item := NewElement("item", [Attribute(Plain("identifier"), "ITEM-1"), Attribute(Plain("identifierref"), "RES-1")]);
    item := AppendChild(item, TextElement("title", title));
    assert item.children == [TextElement("title", title)];
    org := AppendChild(org, item);
    assert org.children == [TextElement("title", title), item];
    organizations := AppendChild(organizations, org);
    assert organizations.children == [org];
  }

  method BuildResources(launchFile: string, fileList: seq<string>) returns (resources: Element)
    ensures resources == ResourcesTree(launchFile, fileList)
  {
    resources := NewElement("resources", []);
    var res := NewElement("resource", ResourceAttrs(launchFile));
    res := AppendFiles(res, SortStrings(fileList));
    assert res.children == FileElements(SortStrings(fileList));
    resources := AppendChild(resources, res);
    assert resources.children == [res];
  }

  /** The `for f in sorted(file_list)` loop: one `file` child per path, appended in order. */
  method AppendFiles(res: Element, paths: seq<string>) returns (grown: Element)
    ensures grown == res.(children := res.children + FileElements(paths))
  {
    grown := res;
    for i := 0 to |paths|
      invariant grown == res.(children := res.children + FileElements(paths[..i]))
    {
      assert FileElements(paths[..i + 1]) == FileElements(paths[..i]) + [FileElement(paths[i])];
      grown := AppendChild(grown, FileElement(paths[i]));
    }
    assert paths[..|paths|] == paths;
  }

  /** `generate_manifest(title, identifier, launch_file, file_list)`: the XML declaration
      followed by the serialised `manifest` element. */
  method GenerateManifest(title: string, identifier: string, launchFile: string, fileList: seq<string>)
    returns (xml: string)
    ensures xml == XmlDeclaration + Serialize(ManifestTree(title, identifier, launchFile, fileList), Prefixes)
    ensures |xml| > |XmlDeclaration| + 9 && xml[..|XmlDeclaration| + 9] == XmlDeclaration + "<manifest"
  {
    var manifest := BuildManifest(title, identifier, launchFile, fileList);
    var body := Serialize(manifest, Prefixes);
    xml := XmlDeclaration + body;
    assert xml[..|XmlDeclaration| + 9] == XmlDeclaration + body[..9];
  }

  /** The `href` of each element, "" where it has none. */
  function Hrefs(es: seq<Element>): (r: seq<string>)
    ensures |r| == |es|
  {
    seq(|es|, k requires 0 <= k < |es| => match Get(es[k], Plain("href")) case Some(h) => h case None => "")
  }

  lemma HrefsOfFileElements(paths: seq<string>)
    ensures Hrefs(FileElements(paths)) == SlashAll(paths)
  {
    var es := FileElements(paths);
    forall k | 0 <= k < |paths| ensures Hrefs(es)[k] == SlashAll(paths)[k] {
      GetFirst(es[k].attrs, 0, Plain("href"));
    }
  }

  /** The root: `manifest` with the package identifier and `version="1"`, then
      `metadata` (`schema` "ADL SCORM", `schemaversion` "1.2"), `organizations`, `resources`. */
  lemma RootAndMetadata(title: string, identifier: string, launchFile: string, fileList: seq<string>)
    ensures var m := ManifestTree(title, identifier, launchFile, fileList);
      && m.tag == "manifest"
      && Get(m, Plain("identifier")) == Some(identifier)
      && Get(m, Plain("version")) == Some("1")
      && |m.children| == 3
      && m.children[0].tag == "metadata" && m.children[1].tag == "organizations" && m.children[2].tag == "resources"
      && m.children[0].children == [TextElement("schema", "ADL SCORM"), TextElement("schemaversion", "1.2")]
  {
    var m := ManifestTree(title, identifier, launchFile, fileList);
    GetFirst(m.attrs, 0, Plain("identifier"));
    GetFirst(m.attrs, 1, Plain("version"));
  }

  /** The one organization is the default one, and both it and its one item carry the
      course title. */
  lemma DefaultOrganization(title: string, identifier: string, launchFile: string, fileList: seq<string>)
    ensures var m := ManifestTree(title, identifier, launchFile, fileList);
      var orgs := FindAll(m.children, "organizations");
      && |orgs| == 1
      && var org := FindAll(orgs[0].children, "organization");
      && |org| == 1
      && Get(orgs[0], Plain("default")) == Get(org[0], Plain("identifier")) == Some("ORG-1")
      && FindAll(org[0].children, "title") == [TextElement("title", title)]
      && var items := FindAll(org[0].children, "item");
      && |items| == 1
      && FindAll(items[0].children, "title") == [TextElement("title", title)]
  {
    var m := ManifestTree(title, identifier, launchFile, fileList);
    FindAllOne(m.children, 1, "organizations");
    var orgs := m.children[1];
    var org := orgs.children[0];
    FindAllOne(orgs.children, 0, "organization");
    GetFirst(orgs.attrs, 0, Plain("default"));
    GetFirst(org.attrs, 0, Plain("identifier"));
    FindAllOne(org.children, 0, "title");
    FindAllOne(org.children, 1, "item");
    FindAllOne(org.children[1].children, 0, "title");
  }

  /** The item's `identifierref` names the identifier of the one resource. */
  lemma ItemRefersToResource(title: string, identifier: string, launchFile: string, fileList: seq<string>)
    ensures var m := ManifestTree(title, identifier, launchFile, fileList);
      var ress := FindAll(m.children, "resources");
      && |ress| == 1
      && var res := FindAll(ress[0].children, "resource");
      && |res| == 1
      && var item := m.children[1].children[0].children[1];
      && item.tag == "item"
      && Get(item, Plain("identifierref")) == Get(res[0], Plain("identifier")) == Some("RES-1")
  {
    var m := ManifestTree(title, identifier, launchFile, fileList);
    FindAllOne(m.children, 2, "resources");
    FindAllOne(m.children[2].children, 0, "resource");
    GetFirst(m.children[1].children[0].children[1].attrs, 1, Plain("identifierref"));
    GetFirst(m.children[2].children[0].attrs, 0, Plain("identifier"));
  }

  /** The resource: `webcontent`, adlcp-qualified `scormtype="sco"`, and `href` the launch
      file exactly as given (no slash rewrite here). */
  lemma ResourceAttributes(title: string, identifier: string, launchFile: string, fileList: seq<string>)
    ensures var m := ManifestTree(title, identifier, launchFile, fileList);
      var res := m.children[2].children[0];
      && res.tag == "resource"
      && Get(res, Plain("type")) == Some("webcontent")
      && Get(res, ScormType) == Some("sco")
      && Get(res, Plain("scormtype")) == None
      && Get(res, Plain("href")) == Some(launchFile)
  {
    var res := ManifestTree(title, identifier, launchFile, fileList).children[2].children[0];
    GetFirst(res.attrs, 1, Plain("type"));
    GetFirst(res.attrs, 2, ScormType);
    GetFirst(res.attrs, 3, Plain("href"));
    GetAbsent(res.attrs, Plain("scormtype"));
  }

  /** One `file` child per list entry (duplicates kept), in ascending order of the original
      strings, each `href` the entry with backslashes rewritten. */
  lemma FileEntries(title: string, identifier: string, launchFile: string, fileList: seq<string>)
    ensures var m := ManifestTree(title, identifier, launchFile, fileList);
      var files := FindAll(m.children[2].children[0].children, "file");
      && files == m.children[2].children[0].children
      && |files| == |fileList|
      && (forall k :: 0 <= k < |files| ==> '\\' !in Hrefs(files)[k])
      && exists orig :: |orig| == |files| && Sorted(orig) && multiset(orig) == multiset(fileList)
           && forall k :: 0 <= k < |files| ==> Hrefs(files)[k] == ForwardSlashes(orig[k])
  {
    var m := ManifestTree(title, identifier, launchFile, fileList);
    var cs := m.children[2].children[0].children;
    var orig := SortStrings(fileList);
    assert |orig| == |fileList| by { assert |multiset(orig)| == |multiset(fileList)|; }
    FindAllKeepsAll(cs, "file");
    HrefsOfFileElements(orig);
  }

  lemma {:induction false} FindAllKeepsAll(cs: seq<Element>, tag: string)
    requires forall k :: 0 <= k < |cs| ==> cs[k].tag == tag
    ensures FindAll(cs, tag) == cs
  {
    if cs != [] { FindAllKeepsAll(cs[1..], tag); }
  }

  /** The `href`s of the `file` children are the file list, rewritten, as a multiset;
      so every listed path appears, rewritten, and nothing else does. */
  lemma FileHrefsMatchFileList(title: string, identifier: string, launchFile: string, fileList: seq<string>)
    ensures var m := ManifestTree(title, identifier, launchFile, fileList);
      multiset(Hrefs(m.children[2].children[0].children)) == multiset(SlashAll(fileList))
  {
    var sorted := SortStrings(fileList);
    HrefsOfFileElements(sorted);
    SlashSorted(fileList);
  }

  /** Rewriting after sorting gives the same multiset as rewriting the unsorted list. */
  lemma {:induction false} SlashSorted(xs: seq<string>)
    ensures multiset(SlashAll(SortStrings(xs))) == multiset(SlashAll(xs))
  {
    if xs != [] {
      var tail := SortStrings(xs[1..]);
      assert multiset(SlashAll(SortStrings(xs))) == multiset(SlashAll(tail)) + multiset{ForwardSlashes(xs[0])} by {
        SortStringsCons(xs);
        SlashInsert(xs[0], tail);
      }
      SlashSorted(xs[1..]);
      SlashAllCons(xs);
    }
  }

  lemma {:induction false} SlashInsert(x: string, s: seq<string>)
    requires Sorted(s)
    ensures multiset(SlashAll(Insert(x, s))) == multiset(SlashAll(s)) + multiset{ForwardSlashes(x)}
  {
    if s != [] && !StrLe(x, s[0]) {
      var t := Insert(x, s[1..]);
      assert Insert(x, s) == [s[0]] + t;
      assert ([s[0]] + t)[1..] == t;
      SlashAllCons([s[0]] + t);
      SlashInsert(x, s[1..]);
      SlashAllCons(s);
    } else {
      assert Insert(x, s) == [x] + s;
      assert ([x] + s)[1..] == s;
      SlashAllCons([x] + s);
    }
  }

  /** Every listed path has a `file` child whose `href` is that path, rewritten. */
  lemma ListedPathHasFileEntry(title: string, identifier: string, launchFile: string, fileList: seq<string>, p: string)
    requires p in fileList
    ensures var m := ManifestTree(title, identifier, launchFile, fileList);
      ForwardSlashes(p) in Hrefs(m.children[2].children[0].children)
  {
    var sorted := SortStrings(fileList);
    assert p in multiset(sorted) by { assert p in multiset(fileList); }
    var j :| 0 <= j < |sorted| && sorted[j] == p;
    HrefsOfFileElements(sorted);
    assert SlashAll(sorted)[j] == ForwardSlashes(p);
  }

  /** A launch file that is itself a listed, already rewritten path is both the resource's
      `href` and the `href` of one of its `file` children. */
  lemma ListedLaunchHasFileEntry(title: string, identifier: string, launchFile: string, fileList: seq<string>)
    requires launchFile in fileList && ForwardSlashes(launchFile) == launchFile
    ensures var res := ManifestTree(title, identifier, launchFile, fileList).children[2].children[0];
      Get(res, Plain("href")) == Some(launchFile) && launchFile in Hrefs(res.children)
  {
    ResourceAttributes(title, identifier, launchFile, fileList);
    ListedPathHasFileEntry(title, identifier, launchFile, fileList, launchFile);
  }

  /** The manifest depends on the file list only as a multiset: whatever order the
      directory walk produced, the output is the same. */
  lemma ManifestIgnoresFileOrder(title: string, identifier: string, launchFile: string,
                                 list1: seq<string>, list2: seq<string>)
    requires multiset(list1) == multiset(list2)
    ensures ManifestTree(title, identifier, launchFile, list1) == ManifestTree(title, identifier, launchFile, list2)
  {
    SortIgnoresOrder(list1, list2);
  }

  /** Sorting happens before the rewrite, so the `href`s themselves need not be ascending:
      `/` sorts below `\`. */
  lemma HrefsNotAlwaysAscending(title: string, identifier: string, launchFile: string)
    ensures var m := ManifestTree(title, identifier, launchFile, ["a\\b", "a/c"]);
      var hrefs := Hrefs(m.children[2].children[0].children);
      hrefs == ["a/c", "a/b"] && !Sorted(hrefs)
  {
    SortTwoPaths();
    HrefsOfFileElements(["a/c", "a\\b"]);
    assert ForwardSlashes("a\\b") == "a/b";
    assert ForwardSlashes("a/c") == "a/c";
    assert !StrLe("a/c", "a/b");
  }

  lemma SortTwoPaths()
    ensures SortStrings(["a\\b", "a/c"]) == ["a/c", "a\\b"]
  {
    assert StrLe("a/c", "a\\b");
    SortedUnique(SortStrings(["a\\b", "a/c"]), ["a/c", "a\\b"]);
  }
}
