/**
  The part of Python's `xml.etree.ElementTree` the manifest builder uses:
  elements as values (tag, attributes in insertion order, optional text,
  children) and a serialisation without escaping or namespace declarations.
  Attribute lookup (`get`) and child lookup (`findall`) are not called by the
  builder; they are the vocabulary in which properties of its tree are stated.
 */
module Xml {
  import opened Text

  /** An attribute name; `ns` is "" for an unqualified name, otherwise the namespace URI
      (ElementTree's `{uri}local` spelling). */
  datatype QName = QName(ns: string, local: string)

  datatype Attribute = Attribute(name: QName, value: string)

  /** `ET.Element`: the tag, the attributes in the order they were given, `.text` and the children. */
  datatype Element = Element(tag: string, attrs: seq<Attribute>, text: Option<string>, children: seq<Element>)

  function Plain(local: string): QName {
    QName("", local)
  }

  /** `ET.Element(tag, attrib)`: no text, no children yet. */
  function NewElement(tag: string, attrs: seq<Attribute>): Element {
    Element(tag, attrs, None, [])
  }

  /** `ET.SubElement(parent, ...)` as seen from the parent: the child goes last. */
  function AppendChild(parent: Element, child: Element): Element {
    parent.(children := parent.children + [child])
  }

  /** `elem.get(name)`: the value of the first attribute with that name. */
  function Get(e: Element, name: QName): Option<string> {
    GetIn(e.attrs, name)
  }

  function GetIn(attrs: seq<Attribute>, name: QName): Option<string> {
    if attrs == [] then None
    else if attrs[0].name == name then Some(attrs[0].value)
    else GetIn(attrs[1..], name)
  }

  /** `elem.findall(tag)` on direct children: those children with that tag, in document order. */
  function FindAll(cs: seq<Element>, tag: string): (r: seq<Element>)
    ensures forall c :: c in r ==> c in cs && c.tag == tag
    ensures forall k :: 0 <= k < |cs| && cs[k].tag == tag ==> cs[k] in r
  {
    if cs == [] then []
    else if cs[0].tag == tag then [cs[0]] + FindAll(cs[1..], tag)
    else FindAll(cs[1..], tag)
  }

  /** `FindAll` keeps document order: the matches of a concatenation are the matches of
      the first part followed by those of the second. */
  lemma {:induction false} FindAllConcat(a: seq<Element>, b: seq<Element>, tag: string)
    ensures FindAll(a + b, tag) == FindAll(a, tag) + FindAll(b, tag)
  {
    if a == [] {
      assert a + b == b;
    } else {
      assert (a + b)[0] == a[0] && (a + b)[1..] == a[1..] + b;
      FindAllConcat(a[1..], b, tag);
    }
  }

  /** `Get` finds the first attribute with the name asked for. */
  lemma {:induction false} GetFirst(attrs: seq<Attribute>, k: nat, name: QName)
    requires k < |attrs| && attrs[k].name == name
    requires forall j :: 0 <= j < k ==> attrs[j].name != name
    ensures GetIn(attrs, name) == Some(attrs[k].value)
  {
    if k > 0 { GetFirst(attrs[1..], k - 1, name); }
  }

  lemma {:induction false} GetAbsent(attrs: seq<Attribute>, name: QName)
    requires forall j :: 0 <= j < |attrs| ==> attrs[j].name != name
    ensures GetIn(attrs, name) == None
  {
    if attrs != [] { GetAbsent(attrs[1..], name); }
  }

  /** `FindAll` of a tag carried by exactly one child gives that child alone. */
  lemma {:induction false} FindAllOne(cs: seq<Element>, k: nat, tag: string)
    requires k < |cs| && cs[k].tag == tag
    requires forall j :: 0 <= j < |cs| && j != k ==> cs[j].tag != tag
    ensures FindAll(cs, tag) == [cs[k]]
  {
    if k > 0 {
      FindAllOne(cs[1..], k - 1, tag);
    } else {
      FindAllNone(cs[1..], tag);
    }
  }

  lemma {:induction false} FindAllNone(cs: seq<Element>, tag: string)
    requires forall j :: 0 <= j < |cs| ==> cs[j].tag != tag
    ensures FindAll(cs, tag) == []
  {
    if cs != [] { FindAllNone(cs[1..], tag); }
  }

  /** The name ElementTree writes for an attribute, given the registered prefixes. */
  function QualifiedName(q: QName, prefixes: map<string, string>): string {
    if q.ns == "" then q.local
    else if q.ns in prefixes && prefixes[q.ns] == "" then q.local
    else if q.ns in prefixes then prefixes[q.ns] + ":" + q.local
    else "ns0:" + q.local
  }

  function SerializeAttrs(attrs: seq<Attribute>, prefixes: map<string, string>): string {
    if attrs == [] then ""
    else " " + QualifiedName(attrs[0].name, prefixes) + "=\"" + attrs[0].value + "\""
         + SerializeAttrs(attrs[1..], prefixes)
  }

  /** `ET.tostring(e)`: an element with neither text nor children is written in the short
      form `<tag ... />`, as ElementTree does by default. */
  function Serialize(e: Element, prefixes: map<string, string>): (r: string)
    decreases e
    ensures |r| > |e.tag| && r[..|e.tag| + 1] == "<" + e.tag
  {
    var text := if e.text.Some? then e.text.value else "";
    var close :=
      if text == "" && e.children == [] then " />"
      else ">" + text + SerializeAll(e.children, prefixes) + "</" + e.tag + ">";
    "<" + e.tag + (SerializeAttrs(e.attrs, prefixes) + close)
  }

  function SerializeAll(cs: seq<Element>, prefixes: map<string, string>): string
    decreases cs
  {
    if cs == [] then "" else Serialize(cs[0], prefixes) + SerializeAll(cs[1..], prefixes)
  }
}
