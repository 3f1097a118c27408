/** The older `seri` serializer (`seri.h`, `seri_pugi.h`): a stack of nodes
    whose top is the current node. `node_start` descends into a child and
    pushes it, `node_end` pops back up; text and attributes act on the top.
    A `pugi_write` creates what it names, a `pugi_read` looks it up.

    Numbers go through `num_onverter`, which renders with `std::to_string` and
    parses with `std::stoi`; the model covers its `int` instance. A failed
    parse throws, which is modelled as a `None` result: nothing after the
    failed call runs, so an enclosing `node_with_number` leaves its node on
    the stack. */
module Seri {
  import opened Wrappers
  import opened Convert
  import opened Tree
  import opened Accessors

  /** A `pugi_write` (`writing`) or `pugi_read`, with its document and stack. */
  datatype Seri = Seri(writing: bool, doc: Node, stack: seq<Handle>)

  /** The current node: the top of the stack. */
  function Top(s: Seri): Handle
    requires |s.stack| > 0
  {
    s.stack[|s.stack| - 1]
  }

  /** `pugi_base(parent)`: the stack holds the parent node alone. */
  function New(writing: bool, doc: Node, parent: Handle): (s: Seri)
    ensures |s.stack| == 1 && Top(s) == parent
    ensures s.writing == writing && s.doc == doc
  {
    Seri(writing, doc, [parent])
  }

  // ---------------------------------------------------------------------
  // num_onverter<int>

  /** `write_to_string`: the decimal rendering. */
  function ConvWrite(n: int): (s: string)
    requires InRange(Int, n)
    ensures Stoi(s) == Some(n)
  {
    StoiOfRender(n);
    RenderInt(n)
  }

  /** `read_from_string`: `std::stoi`, `None` when it throws. */
  function ConvRead(s: string): (r: Option<int>)
    ensures r == Stoi(s)
    ensures r.Some? ==> InRange(Int, r.value)
    ensures s == "" ==> r.None?
  {
    Stoi(s)
  }

  // ---------------------------------------------------------------------
  // The primitives of pugi_write and pugi_read

  /** `node_start`: a writer appends a child to the current node and pushes it,
      always reporting success; a reader pushes the first child of that name
      when there is one and reports whether there was. */
  function NodeStart(s: Seri, name: string): (r: (Seri, bool))
    requires |s.stack| > 0
    ensures r.0.writing == s.writing
    ensures r.1 ==> |r.0.stack| == |s.stack| + 1 && r.0.stack == s.stack + [Top(r.0)]
    ensures !r.1 ==> r.0 == s
    ensures s.writing ==> r.1 && (r.0.doc, Top(r.0)) == WriteChild(s.doc, Top(s), name)
    ensures !s.writing ==> r.0.doc == s.doc
    ensures !s.writing ==> (r.1 <==> ReadChild(s.doc, Top(s), name).At?)
    ensures !s.writing && r.1 ==> Top(r.0) == ReadChild(s.doc, Top(s), name)
  {
    if s.writing then
      var (d, h) := WriteChild(s.doc, Top(s), name);
      (s.(doc := d, stack := s.stack + [h]), true)
    else
      var h := ReadChild(s.doc, Top(s), name);
      if h.At? then (s.(stack := s.stack + [h]), true) else (s, false)
  }

  /** `node_end`: back to the node below. */
  function NodeEnd(s: Seri): (r: Seri)
    requires |s.stack| > 0
    ensures r.stack + [Top(s)] == s.stack
    ensures r.writing == s.writing && r.doc == s.doc
  {
    s.(stack := s.stack[..|s.stack| - 1])
  }

  /** String text: a writer sets it; a reader takes the current node's text,
      the empty string when it has none. */
  function Text(s: Seri, v: string): (r: (Seri, string))
    requires |s.stack| > 0
    ensures r.0.stack == s.stack && r.0.writing == s.writing
    ensures s.writing ==> r.1 == v && r.0.doc == WriteText(s.doc, Top(s), v)
    ensures !s.writing ==> r.0 == s && r.1 == TextOf(s.doc, Top(s)).GetOr("")
  {
    if s.writing then (s.(doc := WriteText(s.doc, Top(s), v)), v)
    else (s, TextOf(s.doc, Top(s)).GetOr(""))
  }

  /** String attribute: a writer appends it; a reader takes the value of the
      first attribute of that name, even an empty one, and leaves the
      variable alone when there is none. */
  function Attrib(s: Seri, name: string, v: string): (r: (Seri, string))
    requires |s.stack| > 0
    ensures r.0.stack == s.stack && r.0.writing == s.writing
    ensures s.writing ==> r.1 == v && r.0.doc == WriteAttribute(s.doc, Top(s), name, v)
    ensures !s.writing ==> r.0 == s && r.1 == AttrOf(s.doc, Top(s), name).GetOr(v)
  {
    if s.writing then (s.(doc := WriteAttribute(s.doc, Top(s), name, v)), v)
    else (s, AttrOf(s.doc, Top(s), name).GetOr(v))
  }

  /** Text through the converter: a writer writes the rendering; a reader
      parses the text, read into an empty string first. */
  function TextConv(s: Seri, n: int): (r: (Seri, Option<int>))
    requires |s.stack| > 0 && InRange(Int, n)
    ensures r.0.stack == s.stack && r.0.writing == s.writing
    ensures s.writing ==> r.1 == Some(n) && r.0.doc == WriteText(s.doc, Top(s), RenderInt(n))
    ensures !s.writing ==> r.0 == s && r.1 == Stoi(TextOf(s.doc, Top(s)).GetOr(""))
  {
    if s.writing then (Text(s, ConvWrite(n)).0, Some(n))
    else (s, ConvRead(Text(s, "").1))
  }

  /** An attribute through the converter. A reader parses the empty string,
      and so fails, when the attribute is missing. */
  function AttribConv(s: Seri, name: string, n: int): (r: (Seri, Option<int>))
    requires |s.stack| > 0 && InRange(Int, n)
    ensures r.0.stack == s.stack && r.0.writing == s.writing
    ensures s.writing ==> r.1 == Some(n) && r.0.doc == WriteAttribute(s.doc, Top(s), name, RenderInt(n))
    ensures !s.writing ==> r.0 == s && r.1 == Stoi(AttrOf(s.doc, Top(s), name).GetOr(""))
    ensures !s.writing && AttrOf(s.doc, Top(s), name).None? ==> r.1.None?
  {
    if s.writing then (Attrib(s, name, ConvWrite(n)).0, Some(n))
    else (s, ConvRead(Attrib(s, name, "").1))
  }

  // ---------------------------------------------------------------------
  // The composites of seri::base

  /** `number`: the current node's text through the converter. */
  function Number(s: Seri, n: int): (r: (Seri, Option<int>))
    requires |s.stack| > 0 && InRange(Int, n)
    ensures r.0.stack == s.stack && r.0.writing == s.writing
    ensures s.writing ==> r.1 == Some(n) && r.0.doc == WriteText(s.doc, Top(s), RenderInt(n))
                          && Stoi(TextOf(r.0.doc, Top(s)).GetOr("")) == if Exists(s.doc, Top(s)) then Some(n) else None
    ensures !s.writing ==> r.0 == s && r.1 == Stoi(TextOf(s.doc, Top(s)).GetOr(""))
  {
    StoiOfRender(n);
    TextConv(s, n)
  }

  /** `attrib_number`: an attribute of the current node through the converter. */
  function AttribNumber(s: Seri, name: string, n: int): (r: (Seri, Option<int>))
    requires |s.stack| > 0 && InRange(Int, n)
    ensures r.0.stack == s.stack && r.0.writing == s.writing
    ensures s.writing ==> r.1 == Some(n) && r.0.doc == WriteAttribute(s.doc, Top(s), name, RenderInt(n))
    ensures !s.writing ==> r.0 == s && r.1 == Stoi(AttrOf(s.doc, Top(s), name).GetOr(""))
    ensures !s.writing && AttrOf(s.doc, Top(s), name).None? ==> r.1.None?
  {
    AttribConv(s, name, n)
  }

  /** `node_with_text`: the text of a child. A reader that finds no such child
      leaves the variable unchanged. The stack is as it was. */
  function NodeWithText(s: Seri, nodeName: string, v: string): (r: (Seri, string))
    requires |s.stack| > 0
    ensures r.0.stack == s.stack && r.0.writing == s.writing
    ensures s.writing ==> r.1 == v
    ensures s.writing ==>
              (var (d, c) := WriteChild(s.doc, Top(s), nodeName);
               r.0.doc == WriteText(d, c, v))
    ensures !s.writing ==> r.0 == s
    ensures !s.writing && ReadChild(s.doc, Top(s), nodeName).Null? ==> r.1 == v
    ensures !s.writing && ReadChild(s.doc, Top(s), nodeName).At? ==>
              r.1 == TextOf(s.doc, ReadChild(s.doc, Top(s), nodeName)).GetOr("")
  {
    var (s1, ok) := NodeStart(s, nodeName);
    if ok then
      var (s2, v') := Text(s1, v);
      (NodeEnd(s2), v')
    else (s1, v)
  }

  /** `node_with_text` through a converter, and `node_with_number`, which is
      the same for `int`. A failed parse leaves the child on the stack. */
  function NodeWithNumber(s: Seri, nodeName: string, n: int): (r: (Seri, Option<int>))
    requires |s.stack| > 0 && InRange(Int, n)
    ensures r.0.writing == s.writing
    ensures r.1.Some? ==> r.0.stack == s.stack
    ensures r.1.None? ==> !s.writing && r.0.stack == s.stack + [ReadChild(s.doc, Top(s), nodeName)]
    ensures s.writing ==> r.1 == Some(n)
    ensures s.writing ==>
              (var (d, c) := WriteChild(s.doc, Top(s), nodeName);
               r.0.doc == WriteText(d, c, RenderInt(n)))
    ensures !s.writing ==> r.0.doc == s.doc
    ensures !s.writing && ReadChild(s.doc, Top(s), nodeName).Null? ==> r == (s, Some(n))
    ensures !s.writing && ReadChild(s.doc, Top(s), nodeName).At? ==>
              r.1 == Stoi(TextOf(s.doc, ReadChild(s.doc, Top(s), nodeName)).GetOr(""))
  {
    var (s1, ok) := NodeStart(s, nodeName);
    if ok then
      var (s2, res) := Number(s1, n);
      if res.Some? then (NodeEnd(s2), res) else (s2, None)
    else (s1, Some(n))
  }

  /** `node_with_attrib`: an attribute of a child. */
  function NodeWithAttrib(s: Seri, nodeName: string, attrName: string, v: string): (r: (Seri, string))
    requires |s.stack| > 0
    ensures r.0.stack == s.stack && r.0.writing == s.writing
    ensures s.writing ==> r.1 == v
    ensures s.writing ==>
              (var (d, c) := WriteChild(s.doc, Top(s), nodeName);
               r.0.doc == WriteAttribute(d, c, attrName, v))
    ensures !s.writing ==> r.0 == s
    ensures !s.writing && ReadChild(s.doc, Top(s), nodeName).Null? ==> r.1 == v
    ensures !s.writing && ReadChild(s.doc, Top(s), nodeName).At? ==>
              r.1 == AttrOf(s.doc, ReadChild(s.doc, Top(s), nodeName), attrName).GetOr(v)
  {
    var (s1, ok) := NodeStart(s, nodeName);
    if ok then
      var (s2, v') := Attrib(s1, attrName, v);
      (NodeEnd(s2), v')
    else (s1, v)
  }

  // ---------------------------------------------------------------------
  // Writing then reading

  /** A child with text written below a node without children of that name
      is read back by a reader on the same node. A child without a name is
      never found, so the reader's variable keeps its value. */
  lemma NodeWithTextRoundTrip(doc: Node, parent: Handle, nodeName: string, v: string, w: string)
    requires Exists(doc, parent) && NoneFrom(Names(NodeAt(doc, parent.path).children), nodeName, 0)
    ensures
      var written := NodeWithText(New(true, doc, parent), nodeName, v).0.doc;
      NodeWithText(New(false, written, parent), nodeName, w).1 == if nodeName != "" then v else w
  {
    var s := New(true, doc, parent);
    var (s1, _) := NodeStart(s, nodeName);
    ChildRoundTrip(doc, parent, nodeName);
    var h := Top(s1);
    var s2 := Text(s1, v).0;
    ReplaceRestore(s1.doc, h.path, NodeAt(s1.doc, h.path).(text := Some(v)));
    ChildUnchanged(s1.doc, s2.doc, h.path, NodeAt(s1.doc, h.path), parent, nodeName);
  }

  /** A number written as a child's text is read back, and the reader's stack
      is left as it was; under the empty name the number keeps its value. */
  lemma NodeWithNumberRoundTrip(doc: Node, parent: Handle, nodeName: string, n: int, m: int)
    requires Exists(doc, parent) && NoneFrom(Names(NodeAt(doc, parent.path).children), nodeName, 0)
    requires InRange(Int, n) && InRange(Int, m)
    ensures
      var written := NodeWithNumber(New(true, doc, parent), nodeName, n).0.doc;
      NodeWithNumber(New(false, written, parent), nodeName, m)
      == (New(false, written, parent), Some(if nodeName != "" then n else m))
  {
    var s := New(true, doc, parent);
    var (s1, _) := NodeStart(s, nodeName);
    ChildRoundTrip(doc, parent, nodeName);
    var h := Top(s1);
    var s2 := Number(s1, n).0;
    ReplaceRestore(s1.doc, h.path, NodeAt(s1.doc, h.path).(text := Some(RenderInt(n))));
    ChildUnchanged(s1.doc, s2.doc, h.path, NodeAt(s1.doc, h.path), parent, nodeName);
    StoiOfRender(n);
  }

  /** A child with an attribute is read back likewise; either name empty, and
      the variable keeps its value. */
  lemma NodeWithAttribRoundTrip(doc: Node, parent: Handle, nodeName: string, attrName: string, v: string, w: string)
    requires Exists(doc, parent) && NoneFrom(Names(NodeAt(doc, parent.path).children), nodeName, 0)
    ensures
      var written := NodeWithAttrib(New(true, doc, parent), nodeName, attrName, v).0.doc;
      NodeWithAttrib(New(false, written, parent), nodeName, attrName, w).1
      == if nodeName != "" && attrName != "" then v else w
  {
    var s := New(true, doc, parent);
    var (s1, _) := NodeStart(s, nodeName);
    ChildRoundTrip(doc, parent, nodeName);
    var h := Top(s1);
    var s2 := Attrib(s1, attrName, v).0;
    AttributeLookupAfterWrite(s1.doc, h, attrName, v, attrName);
    ReplaceRestore(s1.doc, h.path, NodeAt(s2.doc, h.path));
    ChildUnchanged(s1.doc, s2.doc, h.path, NodeAt(s1.doc, h.path), parent, nodeName);
  }

  /** Changing the content of a node, not its name, does not change which
      child a lookup from its parent finds. */
  lemma ChildUnchanged(t: Node, t': Node, p: seq<nat>, old_: Node, parent: Handle, name: string)
    requires Exists(t, parent) && ValidPath(t', p) && |p| > 0 && Parent(p) == parent.path
    requires ReplaceAt(t', p, old_) == t && NodeAt(t', p).name == old_.name
    ensures Exists(t', parent)
    ensures ReadChild(t', parent, name) == ReadChild(t, parent, name)
  {
    ReplaceKeepsNames(t', p, old_);
    var names := Names(NodeAt(t, parent.path).children);
    assert ReadChild(t, parent, name) == match FindFrom(names, name, 0)
      case Some(i) => At(parent.path + [i])
      case None => Null;
  }
}
