/**
 * FeverAPI::array_to_xml: the XML form of a response. A PHP array is a tree
 * whose entries carry a string or an integer key; a scalar is its string form.
 * `Xml` is the meaning of one call; the method `ArrayToXml` builds the same
 * text the way the handler does, entry by entry.
 */
module XmlOutput {
  import opened PhpStrings

  datatype Key = Str(s: string) | Int(i: int)

  datatype Tree = Scalar(text: string) | Arr(entries: seq<(Key, Tree)>)

  const Prolog := "<?xml version=\"1.0\" encoding=\"utf-8\"?>"

  /** A scalar is treated as a one-entry list holding it. */
  function Entries(t: Tree): seq<(Key, Tree)>
  {
    match t
    case Scalar(_) => [(Int(0), t)]
    case Arr(es) => es
  }

  /** A PHP list: the keys are exactly 0, 1, ..., n-1 in order. */
  predicate IsList(es: seq<(Key, Tree)>)
  {
    forall i :: 0 <= i < |es| ==> es[i].0 == Int(i)
  }

  /** An integer key takes the container's name when the container is not empty. */
  function ElemName(k: Key, container: string): string
  {
    match k
    case Str(s) => s
    case Int(i) => if !Falsy(container) then container else IntToString(i)
  }

  /**
   * The container a nested array is written with: its element's name for a
   * list, after the literal str_replace of "/s$/" (a pattern that is never a
   * regular expression here); '' for any other array.
   */
  function ChildContainer(elem: string, es: seq<(Key, Tree)>): string
  {
    if IsList(es) then ReplaceAll(elem, "/s$/", "") else ""
  }

  // ---------------------------------------------------------------------------
  // htmlspecialchars with double quotes encoded and single quotes left alone

  predicate Special(c: char)
  {
    c == '&' || c == '"' || c == '<' || c == '>'
  }

  function EscapeChar(c: char): string
  {
    if c == '&' then "&amp;"
    else if c == '"' then "&quot;"
    else if c == '<' then "&lt;"
    else if c == '>' then "&gt;"
    else [c]
  }

  function Escape(s: string): string
  {
    if |s| == 0 then "" else EscapeChar(s[0]) + Escape(s[1..])
  }

  /** Escaping lengthens the text exactly when it has a special character, and otherwise leaves it as it is. */
  lemma {:induction false} EscapeChanges(s: string)
    ensures |Escape(s)| >= |s|
    ensures (exists i :: 0 <= i < |s| && Special(s[i])) ==> |Escape(s)| > |s|
    ensures (forall i :: 0 <= i < |s| ==> !Special(s[i])) ==> Escape(s) == s
  {
    if |s| > 0 {
      EscapeChanges(s[1..]);
      assert forall i :: 1 <= i < |s| ==> s[1..][i - 1] == s[i];
      if exists i :: 0 <= i < |s| && Special(s[i]) {
        var i :| 0 <= i < |s| && Special(s[i]);
        if i > 0 {
          assert Special(s[1..][i - 1]);
        }
      }
      if forall i :: 0 <= i < |s| ==> !Special(s[i]) {
        assert !Special(s[0]);
        assert s == [s[0]] + s[1..];
      }
    }
  }

  /** A scalar is wrapped in CDATA exactly when escaping would change it. */
  function ScalarText(s: string): (r: string)
    ensures (exists i :: 0 <= i < |s| && Special(s[i])) ==> r == "<![CDATA[" + s + "]]>"
    ensures (forall i :: 0 <= i < |s| ==> !Special(s[i])) ==> r == s
  {
    EscapeChanges(s);
    if Escape(s) != s then "<![CDATA[" + s + "]]>" else s
  }

  // ---------------------------------------------------------------------------
  // The serialised form

  /** One call of array_to_xml: prolog and root element when `isRoot`, then the control characters removed. */
  function Xml(t: Tree, container: string, isRoot: bool): (r: string)
    ensures NoControl(r)
    decreases t, 1, 0, 0
  {
    var open := if isRoot then Prolog + "<" + container + ">" else "";
    var close := if isRoot then "</" + container + ">" else "";
    StripControl(open + Body(t, |Entries(t)|, container) + close)
  }

  /** The first `n` entries of the array one after another. */
  function Body(t: Tree, n: nat, container: string): string
    requires n <= |Entries(t)|
    decreases t, 0, n, 2
  {
    if n == 0 then "" else Body(t, n - 1, container) + Element(t, n - 1, container)
  }

  /** Entry `i`: its element wrapped around its inner text. */
  function Element(t: Tree, i: nat, container: string): string
    requires i < |Entries(t)|
    decreases t, 0, i, 1
  {
    var elem := ElemName(Entries(t)[i].0, container);
    "<" + elem + ">" + Inner(t, i, container) + "</" + elem + ">"
  }

  /** The inner text of entry `i`: the scalar's text or the nested array's own call. */
  function Inner(t: Tree, i: nat, container: string): string
    requires i < |Entries(t)|
    decreases t, 0, i, 0
  {
    var (key, value) := Entries(t)[i];
    match value
    case Scalar(s) => ScalarText(s)
    case Arr(es) =>
      assert Entries(t)[i] in t.entries;
      Xml(value, ChildContainer(ElemName(key, container), es), false)
  }

  /**
   * array_to_xml($array, $container, $is_root), accumulating the text in a
   * loop over the entries and recursing into nested arrays.
   */
  method ArrayToXml(t: Tree, container: string, isRoot: bool) returns (xml: string)
    ensures xml == Xml(t, container, isRoot)
    decreases t, 1
  {
    var es := Entries(t);
    var open := if isRoot then Prolog + "<" + container + ">" else "";
    xml := open;
    var i := 0;
    while i < |es|
      invariant 0 <= i <= |es|
      invariant xml == open + Body(t, i, container)
      invariant es == Entries(t)
    {
      var piece := ElementText(t, i, container);
      AppendAssoc(open, Body(t, i, container), piece);
      xml := xml + piece;
      i := i + 1;
    }
    var close := if isRoot then "</" + container + ">" else "";
    xml := StripControl(xml + close);
  }

  /** The loop body of array_to_xml for entry `i`: the element named by its key around its inner text. */
  method ElementText(t: Tree, i: nat, container: string) returns (piece: string)
    requires i < |Entries(t)|
    ensures piece == Element(t, i, container)
    decreases t, 0
  {
    var key := Entries(t)[i].0;
    var value := Entries(t)[i].1;
    var elem := ElemName(key, container);
    var inner;
    if value.Arr? {
      assert Entries(t)[i] in t.entries;
      if !IsList(value.entries) {
        inner := ArrayToXml(value, "", false);
      } else {
        inner := ArrayToXml(value, ReplaceAll(elem, "/s$/", ""), false);
      }
    } else {
      inner := ScalarText(value.text);
    }
    assert inner == Inner(t, i, container);
    piece := "<" + elem + ">" + inner + "</" + elem + ">";
  }

  // ---------------------------------------------------------------------------
  // Properties

  /**
   * The root call is the prolog, the container's open tag, the entries and the
   * close tag, for a container free of control characters.
   */
  lemma RootShape(t: Tree, container: string)
    requires NoControl(container)
    ensures Xml(t, container, true)
      == (Prolog + "<" + container + ">") + StripControl(Body(t, |Entries(t)|, container)) + ("</" + container + ">")
  {
    var body := Body(t, |Entries(t)|, container);
    var open := Prolog + "<" + container + ">";
    var close := "</" + container + ">";
    calc {
      Xml(t, container, true);
      StripControl(open + body + close);
      { StripAppend(open + body, close); }
      StripControl(open + body) + StripControl(close);
      { StripAppend(open, body); }
      StripControl(open) + StripControl(body) + StripControl(close);
      { TagsClean(container); StripClean(open); StripClean(close); }
      open + StripControl(body) + close;
    }
  }

  lemma TagsClean(container: string)
    requires NoControl(container)
    ensures NoControl(Prolog + "<" + container + ">")
    ensures NoControl("</" + container + ">")
  {
    assert NoControl(Prolog);
    NoControlAppend(Prolog, "<");
    NoControlAppend(Prolog + "<", container);
    NoControlAppend(Prolog + "<" + container, ">");
    NoControlAppend("</", container);
    NoControlAppend("</" + container, ">");
  }

  lemma AppendAssoc(a: string, b: string, c: string)
    ensures a + b + c == a + (b + c)
  {
  }

  /** A nested call adds no prolog and no root element. */
  lemma NestedHasNoRoot(t: Tree, container: string)
    ensures Xml(t, container, false) == StripControl(Body(t, |Entries(t)|, container))
  {
    assert "" + Body(t, |Entries(t)|, container) + "" == Body(t, |Entries(t)|, container);
  }

  /**
   * The literal str_replace never strips an "s": a list's children take the
   * parent element's own name, e.g. <items><items>..</items></items>.
   */
  lemma ListChildrenTakeParentName(elem: string, es: seq<(Key, Tree)>, i: int)
    requires IsList(es) && !Contains(elem, "/s$/") && !Falsy(elem) && 0 <= i < |es|
    ensures ChildContainer(elem, es) == elem
    ensures ElemName(es[i].0, ChildContainer(elem, es)) == elem
  {
    ReplaceAbsent(elem, "/s$/", "");
  }

  /** Integer keys under an empty container are written as their decimal digits. */
  lemma MapChildrenNamedByKey(es: seq<(Key, Tree)>, elem: string, i: int)
    requires !IsList(es) && 0 <= i < |es|
    ensures ElemName(es[i].0, ChildContainer(elem, es)) ==
      match es[i].0
        case Str(s) => s
        case Int(k) => IntToString(k)
  {
  }
}
