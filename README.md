# HTML → SCORM 1.2 packager, modelled in Dafny

The program is a small web app. It takes an uploaded HTML document, or a ZIP of a web
course, and wraps it into a minimal SCORM 1.2 content package. The package is a ZIP that
holds the course files and a generated `imsmanifest.xml`.

This project models the part of the app that decides what goes into that package:

- `generate_manifest`, which builds the manifest with Python's `xml.etree.ElementTree`
  and serialises it after an XML declaration;
- the content resolver, inline in the upload handler:
  - whether the upload is an archive;
  - the name a single document is staged under;
  - when processing stops;
  - which document is launched;
  - which paths the manifest lists;
- the download name of the package.

Modules:

- `Text`: the string operations the program uses.
  - `str.lower` on ASCII letters.
  - `str.strip` with Python's `isspace` set.
  - `endswith`, and `replace` of one character.
  - `Option` and `Result`.
- `Ordering`: Python's code-point order on strings. It also holds `sorted(...)` as an
  insertion sort, proved sorted, a permutation, and unique.
- `Xml`: ElementTree elements as values.
  - An element is its tag, its attributes in insertion order, its text and its children.
  - It covers `get`, `findall` on direct children, and `tostring`.
- `Paths`: the `\` → `/` rewrite applied to relative paths.
- `Manifest`: the manifest tree.
  - `ManifestTree` is its reference definition.
  - `BuildManifest` grows it with `SubElement`-style steps and is proved equal to it.
  - `GenerateManifest` adds the declaration.
  - Lemmas state the structure a SCORM player reads.
- `Resolver`: staging, the two early stops, launch selection, the file-list loop, and
  `ResolveContent`, which runs them in order.
- `App`: the package name and `MakePackage`. `MakePackage` runs the whole conversion and
  gives the package's file name, its entry names in write order, and the manifest text.

The staged course directory is modelled as the sequence of entries a recursive walk of
the course root yields (`rglob('*')`). That sequence is in traversal order, and each
entry is a relative path plus a flag saying whether it is a regular file.
`rglob('*.html')` is the subsequence whose path ends in `.html`, matched
case-sensitively as on a POSIX file system. The uuid-based package identifier is a
parameter.

## Model

| member | source | states |
|---|---|---|
| Text.EndsWith | streamlit_app.py:78-87 | `endswith`: the string is at least as long as the suffix and its last characters are the suffix |
| Text.Lower | streamlit_app.py:78 | lower-casing keeps the length and maps each character on its own, only `A`-`Z` change |
| Text.LStrip | streamlit_app.py:121 | the result is a suffix of the input, everything removed is whitespace, and it does not start with whitespace |
| Text.RStrip | streamlit_app.py:121 | the result is a prefix of the input, everything removed is whitespace, and it does not end with whitespace |
| Text.Strip | streamlit_app.py:121 | `strip()` is the right strip of the left strip; `Text.StripSpec` states what it returns |
| Text.StripSpec | streamlit_app.py:121 | `strip()` returns a slice `s[i..j]` with only whitespace before `i` and after `j`, and neither end of it is whitespace |
| Text.TrimmedSlice | streamlit_app.py:121 | proof helper: stripping the left end and then the right end leaves one contiguous slice of the original title with only whitespace around it |
| Text.ReplaceChar | streamlit_app.py:57 | `replace` of one character rewrites exactly the occurrences of that character and keeps the length |
| Ordering.StrLe | streamlit_app.py:56 | Python's `<=` on `str`: code point by code point, a prefix being `<=` every extension of it; its order laws are the four lemmas below |
| Ordering.StrLeTotal | streamlit_app.py:56 | any two strings are comparable |
| Ordering.StrLeReflexive | streamlit_app.py:56 | every string is `<=` itself |
| Ordering.StrLeAntisymmetric | streamlit_app.py:56 | two strings each `<=` the other are equal |
| Ordering.StrLeTransitive | streamlit_app.py:56 | the order is transitive |
| Ordering.SortedPairs | streamlit_app.py:56 | in a sorted list every element is `<=` every later one |
| Ordering.Insert | streamlit_app.py:56 | inserting into a sorted list gives a sorted list with one more copy of the element |
| Ordering.SortStrings | streamlit_app.py:56 | `sorted(file_list)` is sorted and a permutation of its input, duplicates kept |
| Ordering.HeadIsLeast | streamlit_app.py:56 | the head of a sorted list is `<=` each of its elements |
| Ordering.SortedUnique | streamlit_app.py:56 | two sorted lists with the same elements are equal |
| Ordering.SortIgnoresOrder | streamlit_app.py:56 | `sorted` depends only on the multiset of its input |
| Ordering.SortSortedIsIdentity | streamlit_app.py:56 | sorting a sorted list leaves it unchanged |
| Xml.NewElement | streamlit_app.py:29-33 | `ET.Element(tag, attrib)`: the tag and the attributes in the order given, no text, no children |
| Xml.AppendChild | streamlit_app.py:34-57 | `ET.SubElement(parent, ...)` as seen from the parent: the new child becomes the last child, nothing else changes |
| Xml.FindAll | streamlit_app.py:29-57 | `findall` returns every child that carries the tag asked for, and only those |
| Xml.FindAllConcat | streamlit_app.py:29-57 | `findall` keeps document order: on a concatenation it returns the matches of the first part, then those of the second |
| Xml.GetFirst | streamlit_app.py:29-54 | `get` returns the value of the first attribute with that name |
| Xml.GetAbsent | streamlit_app.py:49-54 | `get` of a name no attribute has is `None` |
| Xml.FindAllOne | streamlit_app.py:34-49 | when exactly one child has the tag, `findall` returns that child alone |
| Xml.FindAllNone | streamlit_app.py:34-49 | when no child has the tag, `findall` is empty |
| Xml.Serialize | streamlit_app.py:59 | the serialised element starts with `<` and its tag |
| Paths.ForwardSlashes | streamlit_app.py:57 | the rewrite keeps the length, turns every `\` into `/`, keeps every other character, and so leaves no `\` |
| Paths.ForwardSlashesIdempotent | streamlit_app.py:102 | rewriting twice is rewriting once |
| Paths.ForwardSlashesIdentity | streamlit_app.py:102 | a path without `\` is unchanged |
| Paths.RootIndexUnchanged | streamlit_app.py:97-99 | proof helper: `index.html` is unchanged by the rewrite |
| Paths.ForwardSlashesKeepsSuffix | streamlit_app.py:101-102 | an ending without `\`, such as `.html`, survives the rewrite |
| Paths.SlashAll | streamlit_app.py:56-57 | rewriting a list rewrites each entry in place |
| Paths.SlashAllCons | streamlit_app.py:56-57 | as a multiset, the rewritten list is the rewritten head plus the rewritten tail |
| Manifest.FileElements | streamlit_app.py:56-57 | one `file` element per path, in the same order |
| Manifest.ManifestTree | streamlit_app.py:29-57 | the reference manifest tree; `BuildManifest` is proved to build it and the `Manifest` lemmas below state its structure |
| Manifest.BuildManifest | streamlit_app.py:29-57 | the tree grown child by child equals the reference `ManifestTree` |
| Manifest.BuildMetadata | streamlit_app.py:34-38 | `metadata` holds `schema` "ADL SCORM", then `schemaversion` "1.2" |
| Manifest.BuildOrganizations | streamlit_app.py:40-46 | `organizations` holds one `organization`, which holds the title and one `item` with its own title |
| Manifest.BuildResources | streamlit_app.py:48-57 | `resources` holds one `resource` whose children are the `file` elements of the sorted list |
| Manifest.AppendFiles | streamlit_app.py:56-57 | the loop appends exactly one `file` child per path, in order, after the existing children |
| Manifest.GenerateManifest | streamlit_app.py:19-60 | the output is the XML declaration followed by the serialised tree, so it starts with the declaration and `<manifest` |
| Manifest.HrefsOfFileElements | streamlit_app.py:56-57 | the `href`s of the `file` elements are the paths with `\` rewritten, in order |
| Manifest.RootAndMetadata | streamlit_app.py:29-38 | root `manifest` with the given identifier and `version="1"`; children `metadata`, `organizations`, `resources` in order; the two metadata children |
| Manifest.DefaultOrganization | streamlit_app.py:40-46 | one organization, and its identifier is the default `ORG-1`; the organization and its one item both carry the title |
| Manifest.ItemRefersToResource | streamlit_app.py:44-50 | one `resource`, and the item's `identifierref` is its identifier `RES-1` |
| Manifest.ResourceAttributes | streamlit_app.py:49-54 | `type="webcontent"`; `scormtype="sco"` in the adlcp namespace, with no unqualified `scormtype`; `href` is the launch file verbatim |
| Manifest.FileEntries | streamlit_app.py:56-57 | one `file` child per list entry, duplicates kept; their order is the sorted original strings; each `href` is the rewritten entry and contains no `\` |
| Manifest.FindAllKeepsAll | streamlit_app.py:56-57 | `findall("file")` on the resource returns all its children |
| Manifest.FileHrefsMatchFileList | streamlit_app.py:56-57 | as a multiset, the `href`s are exactly the rewritten file list |
| Manifest.SlashSorted | streamlit_app.py:56-57 | proof helper: rewriting the sorted list and rewriting the unsorted list give the same multiset |
| Manifest.SlashInsert | streamlit_app.py:56-57 | proof helper: the rewrite commutes with insertion, as multisets |
| Manifest.ListedPathHasFileEntry | streamlit_app.py:56-57 | every listed path appears, rewritten, as some `file` `href` |
| Manifest.ListedLaunchHasFileEntry | streamlit_app.py:49-57 | a launch file that is listed and already in forward-slash form is both the resource `href` and the `href` of one of its `file` children |
| Manifest.ManifestIgnoresFileOrder | streamlit_app.py:56 | two file lists with the same elements give the same manifest |
| Manifest.HrefsNotAlwaysAscending | streamlit_app.py:56-57 | sorting comes before the rewrite: `["a\\b", "a/c"]` gives `href`s `a/c`, `a/b`, which are not ascending |
| Manifest.SortTwoPaths | streamlit_app.py:56 | proof helper: `/` sorts below `\` |
| Resolver.IsArchive | streamlit_app.py:78 | the archive branch is taken exactly when the name ends in `.`, `z`/`Z`, `i`/`I`, `p`/`P` |
| Resolver.StagingName | streamlit_app.py:86-88 | the staged name is the upload's own name or `index.html`; the own name is kept exactly when its lower-cased form ends in `index.html` or `index.htm` |
| Resolver.LooksLikeIndex | streamlit_app.py:87 | the lower-cased upload name ends in `index.html` or `index.htm` |
| Resolver.StagingNameIdempotent | streamlit_app.py:86-88 | staging a staged name keeps it |
| Resolver.StagingNameExamples | streamlit_app.py:86-88 | `foo.html` becomes `index.html`; `myIndex.HTML` and `index.htm` keep their names and case |
| Resolver.LowerOfLower | streamlit_app.py:87 | proof helper: a name without capitals is its own lower-case form |
| Resolver.Staged | streamlit_app.py:78-90 | a `.zip` upload that is not a valid ZIP fails with `InvalidArchive`, and nothing else fails; a valid archive stages exactly the extracted tree; a non-archive is a one-file tree under its staging name |
| Resolver.MatchingMember | streamlit_app.py:92 | `rglob('*' + ext)` yields exactly the walk's entries whose path ends in `ext` |
| Resolver.Matching | streamlit_app.py:92 | `rglob('*' + ext)`: no more entries than the walk, each one an entry of the walk whose path ends in `ext` |
| Resolver.HtmlMatches | streamlit_app.py:92 | every entry of the `.html` then `.htm` matches is an entry of the walk ending in `.html` or `.htm` |
| Resolver.FirstMatch | streamlit_app.py:92-101 | the first match is the first entry of the walk with that ending |
| Resolver.NoContentExactly | streamlit_app.py:92-95 | processing stops for missing HTML exactly when no path ends in `.html` or `.htm` |
| Resolver.HasRootIndex | streamlit_app.py:97-98 | `exists()` on `index.html` holds exactly when the walk has an entry at that path, file or directory |
| Resolver.SelectLaunch | streamlit_app.py:97-102 | the launch file contains no `\` and is selectable: `index.html`, or a path ending in `.html` or `.htm` |
| Resolver.LaunchWithoutRootIndex | streamlit_app.py:100-102 | without a root `index.html`, the launch file is the first match, rewritten |
| Resolver.RewrittenSelectable | streamlit_app.py:101-102 | proof helper: a `.html` or `.htm` path still ends that way after the rewrite |
| Resolver.LaunchFirstHtml | streamlit_app.py:97-102 | without a root `index.html`, the launch file is the rewritten first `.html` entry of the walk, ahead of any `.htm` |
| Resolver.LaunchFirstHtm | streamlit_app.py:97-102 | without a root `index.html` and without any `.html`, the launch file is the rewritten first `.htm` entry |
| Resolver.NestedIndexIsNotRoot | streamlit_app.py:97-102 | a nested `docs/index.html` does not count as the root index |
| Resolver.FileList | streamlit_app.py:104-108 | the file list has at most one entry per walked entry |
| Resolver.FileListMember | streamlit_app.py:104-108 | a path is listed exactly when some regular file of the walk rewrites to it |
| Resolver.ListFiles | streamlit_app.py:104-108 | the collecting loop yields `FileList`: the regular files, in walk order, rewritten |
| Resolver.LaunchIsListed | streamlit_app.py:97-108 | the launch file is in the file list when every entry the policy can pick is a regular file |
| Resolver.DirectoryCanBeLaunched | streamlit_app.py:92-108 | a directory named `a.html` is matched and launched, yet it is not in the file list |
| Resolver.ResolveContent | streamlit_app.py:78-108 | a bad archive gives `InvalidArchive`; no HTML gives `NoContentFound`; otherwise the file list and the launch file |
| Resolver.SingleDocumentUpload | streamlit_app.py:86-108 | a single document not named like an index becomes the only file, `index.html`, and is launched |
| Resolver.UpperCaseIndexFindsNoContent | streamlit_app.py:87-95 | an upload named `INDEX.HTML` keeps its name and then matches neither pattern, so processing stops |
| Resolver.UpperCaseIndexStaging | streamlit_app.py:78-88 | `INDEX.HTML` is not an archive and keeps its name |
| App.PackageName | streamlit_app.py:121 | the download name ends in `_SCORM.zip` and contains no space |
| App.PackageNameStem | streamlit_app.py:121 | before the suffix, the name is the stripped title with each space, and only each space, turned into `_` |
| App.SuffixHasNoSpace | streamlit_app.py:121 | proof helper: the suffix has no space |
| App.DemoCourseName | streamlit_app.py:121 | "Demo Course" gives `Demo_Course_SCORM.zip` |
| App.PackageNameWithoutSpaces | streamlit_app.py:121 | a stripped title without spaces is kept as it is, tabs and newlines inside included |
| App.MakePackage | streamlit_app.py:68-121 | the two error stops as in `ResolveContent`; otherwise the package name, the listed files followed by `imsmanifest.xml`, and the generated manifest |
| App.LaunchHasFileEntry | streamlit_app.py:49-108 | when only regular files can be picked, the resource `href` is also the `href` of one of its `file` children |
| App.ManifestEntryUnchanged | streamlit_app.py:118 | proof helper: the manifest entry name is unchanged by the rewrite |
| App.ManifestEntryCanRepeat | streamlit_app.py:114-118 | a root `imsmanifest.xml` in the upload is written too, so the name occurs twice among the entries |
| App.DemoCourse | streamlit_app.py:63-121 | a `lesson.html` upload titled "Demo Course" gives `Demo_Course_SCORM.zip`, holding `index.html` and `imsmanifest.xml`, and launching `index.html` |

## Left out

- The Streamlit user interface is not modelled: page set-up, the title input with its default, the uploader and its file-type filter, the messages, and the download button. The title and the upload name are parameters.
- Temporary directories, file writes and reads are not modelled. The staged tree is an input.
- ZIP reading is not modelled. `extractall` is an input: either `BadZip` or the extracted tree.
- Only `zipfile.BadZipFile` is caught. Other failures of opening or extracting the archive propagate uncaught and end the run without a package: `RuntimeError` for an encrypted member, `NotImplementedError` for an unsupported compression method, `zlib.error` for corrupt data. `Extraction` has no case for them, so the model does not capture these crashes.
- ZIP writing is not modelled. Compression and the bytes of each member are left out; an entry is its name.
- The traversal order of `rglob` is left to the file system. It is an input, and the model keeps it.
- `uuid.uuid4()` is not modelled; the package identifier is a parameter.
- ElementTree's mutation in place is modelled on values. A `SubElement` appends the child to its parent's value, and `.text` is set before the child is attached. Aliasing between a child and the copy its parent holds is not modelled.
- Serialisation does not model ElementTree's escaping of `&`, `<`, `>` and `"`.
- Serialisation does not model the `xmlns` declarations ElementTree adds to the root. The `Prefixes` map only names the prefixes.
- QualifiedName: writes `ns0:` for every namespace without a registered prefix. ElementTree numbers such namespaces `ns0`, `ns1`, … in order of appearance. The manifest uses only registered namespaces, so this case does not arise there.
- Serialisation does not model the encoding to UTF-8 bytes. Text is a sequence of characters.
- `str.lower()` is modelled for ASCII letters only. Other case mappings of Unicode are left out.
- Glob matching is modelled as a case-sensitive suffix test. That is pathlib's behaviour wherever paths are POSIX paths, macOS included. On Windows pathlib matches case-insensitively, and there `UpperCaseIndexFindsNoContent` does not hold.
- `Path.exists()` on `index.html` is modelled as "some walked entry has that path". It does not distinguish a file from a directory, as the program does not.
- LaunchIsListed: holds only when every entry that the launch policy can pick is a regular file. `DirectoryCanBeLaunched` shows why the precondition is needed: `rglob('*.html')` also matches directories.
- PackageNameWithoutSpaces: the package name is sometimes described as replacing all whitespace with `_`. The program replaces only the space character, and the model follows the program, so a tab inside the title is kept.
- The adlcp namespace URI `adlcp_v1p3` is kept as the program writes it, although SCORM 1.2 uses `adlcp_rootv1p2`.
