/** `serializer_base` and its two sessions, `writer` and `reader`: a position in
    the document (the current node) plus the accessor that decides whether each
    call reads or writes. All serializers made from one session share that
    accessor by reference, so its "write default values" flag, once set
    through any of them, holds for all; here the accessor travels with the
    document in one `State`, and a serializer is just its current node.

    One user-written `serialize` routine is run against either session: the
    same call writes the variable into the document or reads it out of it. */
module Serializer {
  import opened Wrappers
  import opened Convert
  import opened Tree
  import opened Accessors

  /** What every serializer of one session shares. */
  datatype State = State(acc: Accessor, doc: Node)

  predicate Reading(st: State) {
    st.acc.reading
  }

  predicate Writing(st: State) {
    st.acc.Writing()
  }

  /** `operator bool`: the serializer is positioned on an actual node. */
  predicate IsValid(st: State, c: Handle) {
    Exists(st.doc, c)
  }

  // ---------------------------------------------------------------------
  // Sessions

  /** `writer(doc, name)`: appends the root element to the document and
      starts there, writing default values. */
  function NewWriter(doc: Node, rootName: string): (r: (State, Handle))
    ensures Writing(r.0) && GetWriteDefaults(r.0.acc)
    ensures IsValid(r.0, r.1) && r.1 == At([|doc.children|]) && ReadNodeName(r.0.doc, r.1) == rootName
    ensures r.0.doc == doc.(children := doc.children + [Element(rootName)])
  {
    var (d, c) := WriteChild(doc, At([]), rootName);
    (State(WriterImpl(), d), c)
  }

  /** `writer(node)`: writes below an existing node. */
  function NewWriterAt(doc: Node, h: Handle): (r: (State, Handle))
    ensures Writing(r.0) && GetWriteDefaults(r.0.acc)
    ensures r.0.doc == doc && r.1 == h
    ensures IsValid(r.0, r.1) <==> Exists(doc, h)
  {
    (State(WriterImpl(), doc), h)
  }

  /** `reader(doc)`: starts at the document element, the first element child
      of the document; a document without one gives an invalid reader. */
  function NewReader(doc: Node): (r: (State, Handle))
    ensures Reading(r.0) && r.0.doc == doc
    ensures IsValid(r.0, r.1) <==> |doc.children| > 0
    ensures IsValid(r.0, r.1) ==> r.1 == At([0])
    ensures !IsValid(r.0, r.1) ==> r.1 == Null
  {
    if |doc.children| > 0 then (State(ReaderImpl(), doc), At([0])) else (State(ReaderImpl(), doc), Null)
  }

  /** `reader(node)`: reads below a given node. */
  function NewReaderAt(doc: Node, h: Handle): (r: (State, Handle))
    ensures Reading(r.0) && r.0.doc == doc && r.1 == h
  {
    (State(ReaderImpl(), doc), h)
  }

  /** `set_should_write_default_values`, seen by every serializer of the session. */
  function SetDefaults(st: State, b: bool): (r: State)
    ensures GetWriteDefaults(r.acc) == b
    ensures Reading(r) == Reading(st) && r.doc == st.doc
  {
    st.(acc := SetWriteDefaults(st.acc, b))
  }

  // ---------------------------------------------------------------------
  // Navigation

  /** `child(name)`: a writer creates a new child, a reader finds the first one
      of that name. Either way the serializer it is called on stays valid. */
  function Child(st: State, c: Handle, name: string): (r: (State, Handle))
    ensures r.0.acc == st.acc
    ensures r.1.At? ==> IsValid(r.0, r.1)
    ensures IsValid(st, c) ==> IsValid(r.0, c)
    ensures Reading(st) ==> r.0 == st && r.1 == ReadChild(st.doc, c, name)
    ensures Writing(st) ==> (r.0.doc, r.1) == WriteChild(st.doc, c, name)
    ensures Writing(st) && IsValid(st, c) ==> IsValid(r.0, r.1) && ReadNodeName(r.0.doc, r.1) == name
  {
    if st.acc.reading then (st, ReadChild(st.doc, c, name))
    else
      var (d, h) := WriteChild(st.doc, c, name);
      (st.(doc := d), h)
  }

  /** `next_sibling(name)`: a writer inserts a new node after the current one,
      a reader finds the next later sibling of that name. */
  function NextSibling(st: State, c: Handle, name: string): (r: (State, Handle))
    ensures r.0.acc == st.acc
    ensures r.1.At? ==> IsValid(r.0, r.1)
    ensures IsValid(st, c) ==> IsValid(r.0, c)
    ensures Reading(st) ==> r.0 == st && r.1 == ReadNextSibling(st.doc, c, name)
    ensures Writing(st) ==> (r.0.doc, r.1) == WriteNextSibling(st.doc, c, name)
  {
    if st.acc.reading then (st, ReadNextSibling(st.doc, c, name))
    else
      var (d, h) := WriteNextSibling(st.doc, c, name);
      (st.(doc := d), h)
  }

  // ---------------------------------------------------------------------
  // Values. Each takes the caller's variable and returns the new state and
  // the variable's new value: reading never changes the document, writing
  // never changes the variable.

  function NodeName(st: State, c: Handle, v: string): (r: (State, string))
    ensures r.0.acc == st.acc
    ensures Reading(st) ==> r.0 == st && r.1 == ReadNodeName(st.doc, c)
    ensures Writing(st) ==> r.1 == v && r.0.doc == WriteNodeName(st.doc, c, v)
  {
    if st.acc.reading then (st, ReadNodeName(st.doc, c))
    else (st.(doc := WriteNodeName(st.doc, c, v)), v)
  }

  function Text(st: State, c: Handle, v: string): (r: (State, string))
    ensures r.0.acc == st.acc
    ensures Reading(st) ==> r.0 == st && r.1 == ReadText(st.doc, c)
    ensures Writing(st) ==> r.1 == v && r.0.doc == WriteText(st.doc, c, v)
  {
    if st.acc.reading then (st, ReadText(st.doc, c))
    else (st.(doc := WriteText(st.doc, c, v)), v)
  }

  function TextDefault(st: State, c: Handle, v: string, def: string): (r: (State, string))
    ensures r.0.acc == st.acc
    ensures Reading(st) ==> r.0 == st && r.1 == ReadTextDefault(st.doc, c, def)
    ensures Writing(st) ==> r.1 == v && r.0.doc == WriteTextDefault(st.acc, st.doc, c, v, def)
  {
    if st.acc.reading then (st, ReadTextDefault(st.doc, c, def))
    else (st.(doc := WriteTextDefault(st.acc, st.doc, c, v, def)), v)
  }

  function ScalarText(st: State, c: Handle, v: Scalar): (r: (State, Scalar))
    ensures r.0.acc == st.acc && KindOf(r.1) == KindOf(v)
    ensures Reading(st) ==> r.0 == st && r.1 == ReadScalarText(st.doc, c, KindOf(v))
    ensures Writing(st) ==> r.1 == v && r.0.doc == WriteScalarText(st.doc, c, v)
  {
    if st.acc.reading then (st, ReadScalarText(st.doc, c, KindOf(v)))
    else (st.(doc := WriteScalarText(st.doc, c, v)), v)
  }

  function ScalarTextDefault(st: State, c: Handle, v: Scalar, def: Scalar): (r: (State, Scalar))
    requires KindOf(def) == KindOf(v)
    ensures r.0.acc == st.acc && KindOf(r.1) == KindOf(v)
    ensures Reading(st) ==> r.0 == st && r.1 == ReadScalarTextDefault(st.doc, c, def)
    ensures Writing(st) ==> r.1 == v && r.0.doc == WriteScalarTextDefault(st.acc, st.doc, c, v, def)
  {
    if st.acc.reading then (st, ReadScalarTextDefault(st.doc, c, def))
    else (st.(doc := WriteScalarTextDefault(st.acc, st.doc, c, v, def)), v)
  }

  function Attribute(st: State, c: Handle, name: string, v: string): (r: (State, string))
    ensures r.0.acc == st.acc
    ensures Reading(st) ==> r.0 == st && r.1 == ReadAttribute(st.doc, c, name, v)
    ensures Writing(st) ==> r.1 == v && r.0.doc == WriteAttribute(st.doc, c, name, v)
  {
    if st.acc.reading then (st, ReadAttribute(st.doc, c, name, v))
    else (st.(doc := WriteAttribute(st.doc, c, name, v)), v)
  }

  function AttributeDefault(st: State, c: Handle, name: string, v: string, def: string): (r: (State, string))
    ensures r.0.acc == st.acc
    ensures Reading(st) ==> r.0 == st && r.1 == ReadAttributeDefault(st.doc, c, name, v, def)
    ensures Writing(st) ==> r.1 == v && r.0.doc == WriteAttributeDefault(st.acc, st.doc, c, name, v, def)
  {
    if st.acc.reading then (st, ReadAttributeDefault(st.doc, c, name, v, def))
    else (st.(doc := WriteAttributeDefault(st.acc, st.doc, c, name, v, def)), v)
  }

  function ScalarAttribute(st: State, c: Handle, name: string, v: Scalar): (r: (State, Scalar))
    ensures r.0.acc == st.acc && KindOf(r.1) == KindOf(v)
    ensures Reading(st) ==> r.0 == st && r.1 == ReadScalarAttribute(st.doc, c, name, v)
    ensures Writing(st) ==> r.1 == v && r.0.doc == WriteScalarAttribute(st.doc, c, name, v)
  {
    if st.acc.reading then (st, ReadScalarAttribute(st.doc, c, name, v))
    else (st.(doc := WriteScalarAttribute(st.doc, c, name, v)), v)
  }

  function ScalarAttributeDefault(st: State, c: Handle, name: string, v: Scalar, def: Scalar): (r: (State, Scalar))
    requires KindOf(def) == KindOf(v)
    ensures r.0.acc == st.acc && KindOf(r.1) == KindOf(v)
    ensures Reading(st) ==> r.0 == st && r.1 == ReadScalarAttributeDefault(st.doc, c, name, def)
    ensures Writing(st) ==> r.1 == v && r.0.doc == WriteScalarAttributeDefault(st.acc, st.doc, c, name, v, def)
  {
    if st.acc.reading then (st, ReadScalarAttributeDefault(st.doc, c, name, def))
    else (st.(doc := WriteScalarAttributeDefault(st.acc, st.doc, c, name, v, def)), v)
  }

  // ---------------------------------------------------------------------
  // Whole sessions

  /** A session is reading or writing, never both and never neither, and no
      operation switches it: every serializer made from it has the same mode. */
  lemma ModeIsFixed(st: State, c: Handle, name: string, v: string, b: bool)
    ensures Reading(st) <==> !Writing(st)
    ensures Reading(Child(st, c, name).0) == Reading(st)
    ensures Reading(NextSibling(st, c, name).0) == Reading(st)
    ensures Reading(NodeName(st, c, v).0) == Reading(st)
    ensures Reading(Text(st, c, v).0) == Reading(st)
    ensures Reading(Attribute(st, c, name, v).0) == Reading(st)
    ensures Reading(SetDefaults(st, b)) == Reading(st)
  {
  }

  /** `operator bool` of the serializers that `child` and `next_sibling`
      return: they are valid exactly when the lookup or creation yielded a
      node, and a null node is never valid. */
  lemma ValidIsNonNull(st: State, c: Handle, name: string)
    ensures !IsValid(st, Null)
    ensures var (s1, h) := Child(st, c, name); IsValid(s1, h) <==> h.At?
    ensures var (s1, h) := NextSibling(st, c, name); IsValid(s1, h) <==> h.At?
    ensures Writing(st) && IsValid(st, c) ==> IsValid(Child(st, c, name).0, Child(st, c, name).1)
  {
  }

  /** The "write default values" flag belongs to the session: once set, the
      serializers that `child` and `next_sibling` return see it, and the
      defaulted writes through them consult it. */
  lemma DefaultsShared(st: State, c: Handle, name: string, b: bool)
    ensures GetWriteDefaults(Child(SetDefaults(st, b), c, name).0.acc) == b
    ensures GetWriteDefaults(NextSibling(SetDefaults(st, b), c, name).0.acc) == b
    ensures var s1 := Child(SetDefaults(st, b), c, name).0;
            GetWriteDefaults(SetDefaults(s1, !b).acc) == !b && Reading(SetDefaults(s1, !b)) == Reading(st)
  {
  }

  /** The construction facts: a writer on a document's own node is valid and
      writing; a reader on an empty document is invalid and reading; a writer
      given a root name stands on a root element of that name; the flag reads
      back as last set. */
  lemma Construction(doc: Node, b: bool)
    ensures var (w, c) := NewWriterAt(doc, At([]));
            IsValid(w, c) && Writing(w) && !Reading(w) && GetWriteDefaults(w.acc)
    ensures var (r, c) := NewReader(EmptyDocument);
            !IsValid(r, c) && Reading(r) && !Writing(r)
    ensures var (w, c) := NewWriter(doc, "DocElementName");
            IsValid(w, c) && ReadNodeName(w.doc, c) == "DocElementName"
    ensures var w := NewWriterAt(doc, At([])).0;
            GetWriteDefaults(SetDefaults(w, b).acc) == b
            && GetWriteDefaults(SetDefaults(SetDefaults(w, b), !b).acc) == !b
  {
  }

  /** The base-types round trip: a writer session on an empty document puts a
      number or boolean into the text and into an attribute of a child
      "value"; a reader session on the result reads both back, whatever the
      variables it reads into held before. */
  lemma BaseTypesRoundTrip(root: string, text: Scalar, attr: Scalar, readText: Scalar, readAttr: Scalar)
    requires WellTyped(text) && WellTyped(attr)
    requires KindOf(readText) == KindOf(text) && KindOf(readAttr) == KindOf(attr)
    ensures
      var (w0, c0) := NewWriter(EmptyDocument, root);
      var (w1, c1) := Child(w0, c0, "value");
      var (w2, _) := ScalarText(w1, c1, text);
      var (w3, _) := ScalarAttribute(w2, c1, "attrib", attr);
      var (r0, d0) := NewReader(w3.doc);
      var (r1, d1) := Child(r0, d0, "value");
      var (r2, t) := ScalarText(r1, d1, readText);
      var (_, a) := ScalarAttribute(r2, d1, "attrib", readAttr);
      t == text && a == attr
  {
    var (w0, c0) := NewWriter(EmptyDocument, root);
    var (w1, c1) := Child(w0, c0, "value");
    assert c0 == At([0]) && c1 == At([0, 0]);
    var (w2, _) := ScalarText(w1, c1, text);
    ScalarTextRoundTrip(w1.doc, c1, text);
    var (w3, _) := ScalarAttribute(w2, c1, "attrib", attr);
    assert NodeAt(w2.doc, c1.path) == NodeAt(w1.doc, c1.path).(text := Some(Render(text)));
    ScalarAttributeRoundTrip(w2.doc, c1, "attrib", attr, readAttr);
    assert TextOf(w3.doc, c1) == TextOf(w2.doc, c1);
    var (r0, d0) := NewReader(w3.doc);
    assert d0 == At([0]);
    var (r1, d1) := Child(r0, d0, "value");
    assert Names(NodeAt(w3.doc, [0]).children) == ["value"];
    assert d1 == At([0, 0]);
  }

  /** The attribute defaults example: with default values switched off, a
      writer leaves out each attribute equal to its default "YES", and a reader
      starting from empty strings gets every value back. */
  lemma AttributeDefaultsRoundTrip(root: string, v1: string, v2: string)
    ensures
      var (w0, c0) := NewWriter(EmptyDocument, root);
      var w1 := SetDefaults(w0, false);
      var (w2, n) := Child(w1, c0, "Noddy");
      var (w3, _) := AttributeDefault(w2, n, "attr1", v1, "YES");
      var (w4, _) := AttributeDefault(w3, n, "attr2", v2, "YES");
      var (r0, d0) := NewReader(w4.doc);
      var (r1, m) := Child(r0, d0, "Noddy");
      var (r2, u1) := AttributeDefault(r1, m, "attr1", "", "YES");
      var (_, u2) := AttributeDefault(r2, m, "attr2", "", "YES");
      && u1 == v1 && u2 == v2
      && w4.doc.children[0].children[0].attrs
         == (if v1 != "YES" then [Attr("attr1", v1)] else []) + (if v2 != "YES" then [Attr("attr2", v2)] else [])
  {
    var (w0, c0) := NewWriter(EmptyDocument, root);
    var w1 := SetDefaults(w0, false);
    var (w2, n) := Child(w1, c0, "Noddy");
    assert n == At([0, 0]);
    var (w3, _) := AttributeDefault(w2, n, "attr1", v1, "YES");
    AttributeDefaultRoundTrip(w1.acc, w2.doc, n, "attr1", v1, "YES", "");
    var (w4, _) := AttributeDefault(w3, n, "attr2", v2, "YES");
    AttributeLookupAfterWrite(w2.doc, n, "attr1", v1, "attr2");
    AttributeDefaultRoundTrip(w1.acc, w3.doc, n, "attr2", v2, "YES", "");
    AttributeLookupAfterWrite(w3.doc, n, "attr2", v2, "attr1");
    var (r0, d0) := NewReader(w4.doc);
    assert d0 == At([0]) && r0.doc == w4.doc;
    var (r1, m) := Child(r0, d0, "Noddy");
    assert Names(NodeAt(w4.doc, [0]).children) == ["Noddy"];
    assert m == At([0, 0]) && r1 == r0;
  }
}
