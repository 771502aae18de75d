/**
 * FeverAPI::my_sanitize: an entry's HTML is trimmed, auto-linked when it holds
 * no "href=", parsed, cleaned attribute by attribute and written back. The
 * parser, the serialiser and rewrite_urls belong to libxml and are given as
 * a `DomLib`; the attribute pass over the parsed elements is modelled here.
 */
module Sanitizer {
  import opened Wrappers
  import opened PhpStrings

  datatype Attr = Attr(name: string, value: string)

  /**
   * An element as the parser yields it: its tag name, its attributes and its
   * own text (the character data directly inside it, in document order).
   */
  datatype Node = Node(tag: string, attrs: seq<Attr>, text: string)

  /** getAttribute(name), None when the element has no such attribute. */
  function Lookup(attrs: seq<Attr>, name: string): Option<string>
  {
    if |attrs| == 0 then None
    else if attrs[0].name == name then Some(attrs[0].value)
    else Lookup(attrs[1..], name)
  }

  function Replace(attrs: seq<Attr>, name: string, value: string): seq<Attr>
  {
    if |attrs| == 0 then []
    else [if attrs[0].name == name then Attr(name, value) else attrs[0]] + Replace(attrs[1..], name, value)
  }

  /** setAttribute(name, value): the value replaces an existing one, or the attribute is added. */
  function SetAttribute(attrs: seq<Attr>, name: string, value: string): seq<Attr>
  {
    if Lookup(attrs, name).Some? then Replace(attrs, name, value) else attrs + [Attr(name, value)]
  }

  lemma {:induction false} ReplaceLookup(attrs: seq<Attr>, name: string, value: string, n: string)
    ensures Lookup(Replace(attrs, name, value), n) ==
      if n == name && Lookup(attrs, name).Some? then Some(value) else Lookup(attrs, n)
  {
    if |attrs| > 0 {
      ReplaceLookup(attrs[1..], name, value, n);
      assert Replace(attrs, name, value)[1..] == Replace(attrs[1..], name, value);
    }
  }

  lemma {:induction false} LookupSnoc(attrs: seq<Attr>, x: Attr, n: string)
    ensures Lookup(attrs + [x], n) ==
      if Lookup(attrs, n).Some? then Lookup(attrs, n) else if x.name == n then Some(x.value) else None
  {
    if |attrs| > 0 {
      assert (attrs + [x])[1..] == attrs[1..] + [x];
      LookupSnoc(attrs[1..], x, n);
    }
  }

  /** After setAttribute the attribute has the new value and every other attribute its old one. */
  lemma SetAttributeLookup(attrs: seq<Attr>, name: string, value: string, n: string)
    ensures Lookup(SetAttribute(attrs, name, value), n) == if n == name then Some(value) else Lookup(attrs, n)
  {
    if Lookup(attrs, name).Some? {
      ReplaceLookup(attrs, name, value, n);
    } else {
      LookupSnoc(attrs, Attr(name, value), n);
    }
  }

  /** Removed from every element: on* event handlers, id, style and class. */
  predicate Forbidden(name: string)
  {
    (|name| >= 2 && name[..2] == "on") || name == "id" || name == "style" || name == "class"
  }

  /** removeAttributeNode for every forbidden attribute, the others kept in order. */
  function RemoveForbidden(attrs: seq<Attr>): seq<Attr>
  {
    if |attrs| == 0 then []
    else (if Forbidden(attrs[0].name) then [] else [attrs[0]]) + RemoveForbidden(attrs[1..])
  }

  lemma {:induction false} RemoveForbiddenLookup(attrs: seq<Attr>, n: string)
    ensures Lookup(RemoveForbidden(attrs), n) == if Forbidden(n) then None else Lookup(attrs, n)
  {
    if |attrs| > 0 {
      RemoveForbiddenLookup(attrs[1..], n);
      var rest := RemoveForbidden(attrs[1..]);
      if !Forbidden(attrs[0].name) {
        assert RemoveForbidden(attrs) == [attrs[0]] + rest;
        assert ([attrs[0]] + rest)[1..] == rest;
      } else {
        assert RemoveForbidden(attrs) == rest;
      }
    }
  }

  // ---------------------------------------------------------------------------
  // The three passes over the elements

  /** The elements the link pass visits: anchors with an href and images with a src. */
  predicate LinkSelected(n: Node)
  {
    (n.tag == "a" && Lookup(n.attrs, "href").Some?) || (n.tag == "img" && Lookup(n.attrs, "src").Some?)
  }

  /** A selected element whose lower-cased name is "a" opens in a new window. */
  function WithTarget(n: Node): Node
  {
    if LinkSelected(n) && Lower(n.tag) == "a" then n.(attrs := SetAttribute(n.attrs, "target", "_blank")) else n
  }

  const SandboxValue := "allow-scripts allow-same-origin"

  /** Every `//iframe` is sandboxed. */
  function WithSandbox(n: Node): Node
  {
    if n.tag == "iframe" then n.(attrs := SetAttribute(n.attrs, "sandbox", SandboxValue)) else n
  }

  function WithoutForbidden(n: Node): Node
  {
    n.(attrs := RemoveForbidden(n.attrs))
  }

  /** One element after all three passes. */
  function CleanNode(n: Node): Node
  {
    WithoutForbidden(WithSandbox(WithTarget(n)))
  }

  function CleanAll(nodes: seq<Node>): (r: seq<Node>)
    ensures |r| == |nodes|
    ensures forall i :: 0 <= i < |nodes| ==> r[i] == CleanNode(nodes[i])
  {
    seq(|nodes|, i requires 0 <= i < |nodes| => CleanNode(nodes[i]))
  }

  /**
   * Each attribute of a cleaned element: forbidden ones are gone, an anchor
   * with href has target="_blank", an iframe has the sandbox, and every other
   * attribute keeps its value. The tag and the text are left alone.
   */
  lemma CleanLookup(n: Node, name: string)
    ensures CleanNode(n).tag == n.tag && CleanNode(n).text == n.text
    ensures Lookup(CleanNode(n).attrs, name) ==
      if Forbidden(name) then None
      else if name == "target" && n.tag == "a" && Lookup(n.attrs, "href").Some? then Some("_blank")
      else if name == "sandbox" && n.tag == "iframe" then Some(SandboxValue)
      else Lookup(n.attrs, name)
  {
    var t := WithTarget(n);
    var s := WithSandbox(t);
    assert Lower("a") == "a";
    assert Lower("img") != "a" by {
      assert Lower("img")[0] == 'i';
    }
    RemoveForbiddenLookup(s.attrs, name);
    if n.tag == "iframe" {
      SetAttributeLookup(t.attrs, "sandbox", SandboxValue, name);
    }
    if LinkSelected(n) && Lower(n.tag) == "a" {
      SetAttributeLookup(n.attrs, "target", "_blank", name);
    }
  }

  /** Cleaning touches attributes only: every element keeps its tag and its text. */
  lemma CleanKeepsContent(nodes: seq<Node>, i: int)
    requires 0 <= i < |nodes|
    ensures |CleanAll(nodes)| == |nodes|
    ensures CleanAll(nodes)[i].tag == nodes[i].tag && CleanAll(nodes)[i].text == nodes[i].text
  {
    CleanLookup(nodes[i], "");
  }

  /** No element keeps an on* handler, id, style or class. */
  lemma CleanRemovesForbidden(nodes: seq<Node>, i: int, name: string)
    requires 0 <= i < |nodes| && Forbidden(name)
    ensures Lookup(CleanAll(nodes)[i].attrs, name).None?
  {
    CleanLookup(nodes[i], name);
  }

  /**
   * The parsed document: every element in document order, as the all-elements query lists
   * them. The passes set and remove attributes on the elements in place.
   */
  class HtmlDocument {
    var elements: array<Node>

    constructor (nodes: seq<Node>)
      ensures fresh(elements) && elements[..] == nodes
    {
      elements := new Node[|nodes|](i requires 0 <= i < |nodes| => nodes[i]);
    }

    /** The link pass: every anchor with an href opens in a new browsing context. */
    method TargetLinks()
      modifies elements
      ensures forall i :: 0 <= i < elements.Length ==> elements[i] == WithTarget(old(elements[i]))
    {
      var i := 0;
      while i < elements.Length
        invariant 0 <= i <= elements.Length
        invariant forall k :: 0 <= k < i ==> elements[k] == WithTarget(old(elements[k]))
        invariant forall k :: i <= k < elements.Length ==> elements[k] == old(elements[k])
      {
        elements[i] := WithTarget(elements[i]);
        i := i + 1;
      }
    }

    /** The loop over `//iframe`. */
    method SandboxFrames()
      modifies elements
      ensures forall i :: 0 <= i < elements.Length ==> elements[i] == WithSandbox(old(elements[i]))
    {
      var i := 0;
      while i < elements.Length
        invariant 0 <= i <= elements.Length
        invariant forall k :: 0 <= k < i ==> elements[k] == WithSandbox(old(elements[k]))
        invariant forall k :: i <= k < elements.Length ==> elements[k] == old(elements[k])
      {
        if elements[i].tag == "iframe" {
          elements[i] := elements[i].(attrs := SetAttribute(elements[i].attrs, "sandbox", SandboxValue));
        }
        i := i + 1;
      }
    }

    /** The loop over every element: collect the forbidden attributes, then remove them. */
    method StripForbidden()
      modifies elements
      ensures forall i :: 0 <= i < elements.Length ==> elements[i] == WithoutForbidden(old(elements[i]))
    {
      var i := 0;
      while i < elements.Length
        invariant 0 <= i <= elements.Length
        invariant forall k :: 0 <= k < i ==> elements[k] == WithoutForbidden(old(elements[k]))
        invariant forall k :: i <= k < elements.Length ==> elements[k] == old(elements[k])
      {
        elements[i] := WithoutForbidden(elements[i]);
        i := i + 1;
      }
    }

    /** The three passes in the handler's order. */
    method Clean()
      modifies elements
      ensures elements[..] == CleanAll(old(elements[..]))
    {
      TargetLinks();
      SandboxFrames();
      StripForbidden();
    }
  }

  // ---------------------------------------------------------------------------
  // my_sanitize($str) without a site URL

  /** The head prepended before parsing so that the text is read as UTF-8. */
  const CharsetHack := "<head>\n\t\t\t<meta http-equiv=\"Content-Type\" content=\"text/html; charset=utf-8\"/>\n\t\t</head>"

  /**
   * The libxml side: rewrite_urls, loadHTML (text to elements with their text)
   * and saveHTML (elements with their text back to HTML, after the doctype is removed).
   */
  datatype DomLib = DomLib(rewriteUrls: string -> string, parse: string -> seq<Node>, save: seq<Node> -> string)

  /**
   * The text handed to the parser, or None when the handler returns '' first:
   * trimmed, auto-linked when it has no "href=", trimmed again.
   */
  function Prepared(str: string, lib: DomLib): Option<string>
  {
    var res := Trim(str);
    if Falsy(res) then None
    else
      var linked := Trim(if Contains(res, "href=") then res else lib.rewriteUrls(res));
      if Falsy(linked) then None else Some(linked)
  }

  function Sanitized(str: string, lib: DomLib): string
  {
    match Prepared(str, lib)
    case None => ""
    case Some(html) => lib.save(CleanAll(lib.parse(CharsetHack + html)))
  }

  method MySanitize(str: string, lib: DomLib) returns (res: string)
    ensures res == Sanitized(str, lib)
    ensures Falsy(Trim(str)) ==> res == ""
  {
    res := Trim(str);
    if Falsy(res) {
      return "";
    }
    if !Contains(res, "href=") {
      res := lib.rewriteUrls(res);
    }
    res := Trim(res);
    if Falsy(res) {
      return "";
    }
    assert Prepared(str, lib) == Some(res);
    res := CleanHtml(res, lib);
  }

  /** loadHTML, the attribute passes and saveHTML on text that reached the parser. */
  method CleanHtml(html: string, lib: DomLib) returns (res: string)
    ensures res == lib.save(CleanAll(lib.parse(CharsetHack + html)))
  {
    var doc := new HtmlDocument(lib.parse(CharsetHack + html));
    doc.Clean();
    res := lib.save(doc.elements[..]);
  }

  /** Input that is blank or "0" once trimmed sanitises to the empty string. */
  lemma BlankSanitizesToEmpty(str: string, lib: DomLib)
    requires Falsy(Trim(str))
    ensures Sanitized(str, lib) == ""
  {
  }

  /** Text that already has a link is parsed as it stands, trimmed, without the auto-linker. */
  lemma LinkedTextSkipsRewrite(str: string, lib: DomLib)
    requires !Falsy(Trim(str)) && Contains(Trim(str), "href=")
    ensures Prepared(str, lib) == Some(Trim(str))
  {
    TrimIdempotent(str);
  }

  /** What reaches the parser is trimmed, not empty and not "0". */
  lemma PreparedTrimmed(str: string, lib: DomLib)
    requires Prepared(str, lib).Some?
    ensures Trim(Prepared(str, lib).value) == Prepared(str, lib).value
    ensures !Falsy(Prepared(str, lib).value)
  {
    var res := Trim(str);
    TrimIdempotent(if Contains(res, "href=") then res else lib.rewriteUrls(res));
  }
}
