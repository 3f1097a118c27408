/** The two node accessors of `src/pugi_serializer.cpp`: `writer_impl`, which
    creates nodes and attributes, and `reader_impl`, which looks them up. Both
    work on a node of the document given by a handle; the writer returns the
    changed document, the reader returns what it found and changes nothing.

    An accessor that receives a null node does nothing (writer) or finds
    nothing (reader), as the engine's operations on a null node do. */
module Accessors {
  import opened Wrappers
  import opened Convert
  import opened Tree

  /** `impl_base`: whether the accessor reads, fixed at construction, and the
      "write default values" flag, which only the defaulted writes consult. */
  datatype Accessor = Accessor(reading: bool, writeDefaults: bool) {
    function Writing(): bool {
      !reading
    }
  }

  function WriterImpl(): (a: Accessor)
    ensures a.Writing() && !a.reading
    ensures a.writeDefaults
  {
    Accessor(false, true)
  }

  function ReaderImpl(): (a: Accessor)
    ensures a.reading && !a.Writing()
    ensures a.writeDefaults
  {
    Accessor(true, true)
  }

  function GetWriteDefaults(a: Accessor): bool {
    a.writeDefaults
  }

  function SetWriteDefaults(a: Accessor, b: bool): (r: Accessor)
    ensures GetWriteDefaults(r) == b
    ensures r.reading == a.reading
  {
    a.(writeDefaults := b)
  }

  /** The flag reads back as last set, setting it to what it already holds
      changes nothing, and it never changes the accessor's mode. */
  lemma WriteDefaultsFlag(a: Accessor, b: bool)
    ensures GetWriteDefaults(SetWriteDefaults(a, b)) == b
    ensures SetWriteDefaults(a, GetWriteDefaults(a)) == a
    ensures SetWriteDefaults(SetWriteDefaults(a, !b), b) == SetWriteDefaults(a, b)
    ensures SetWriteDefaults(a, b).Writing() == a.Writing()
  {
  }

  /** The rule of every defaulted write that consults the flag: emit when
      defaults are written or the value differs from the default. */
  predicate Emits(a: Accessor, differs: bool) {
    a.writeDefaults || differs
  }

  // =====================================================================
  // writer_impl

  /** Renames the node. The engine refuses to name the document node, so
      there, as on a null node, nothing changes. */
  function WriteNodeName(t: Node, h: Handle, name: string): (r: Node)
    ensures Exists(t, h) && |h.path| > 0 ==>
              Exists(r, h) && NodeAt(r, h.path) == NodeAt(t, h.path).(name := name)
              && ReplaceAt(r, h.path, NodeAt(t, h.path)) == t
    ensures !(Exists(t, h) && |h.path| > 0) ==> r == t
  {
    if Exists(t, h) && |h.path| > 0 then
      ReplaceRestore(t, h.path, NodeAt(t, h.path).(name := name));
      ReplaceAt(t, h.path, NodeAt(t, h.path).(name := name))
    else t
  }

  /** Always creates a new last child named `name`, whatever children exist. */
  function WriteChild(t: Node, h: Handle, name: string): (r: (Node, Handle))
    ensures Exists(t, h) ==>
              var n := NodeAt(t, h.path);
              && r.1 == At(h.path + [|n.children|])
              && Exists(r.0, r.1) && NodeAt(r.0, r.1.path) == Element(name)
              && Exists(r.0, h) && NodeAt(r.0, h.path) == n.(children := n.children + [Element(name)])
              && ReplaceAt(r.0, h.path, n) == t
    ensures !Exists(t, h) ==> r == (t, Null)
  {
    if Exists(t, h) then
      var n := NodeAt(t, h.path);
      var n' := n.(children := n.children + [Element(name)]);
      var t' := ReplaceAt(t, h.path, n');
      ChildPath(t', h.path, |n.children|);
      ReplaceRestore(t, h.path, n');
      (t', At(h.path + [|n.children|]))
    else (t, Null)
  }

  /** Inserts a new node named `name` directly after the node `h` designates,
      in its parent. The document node has no parent, so nothing is inserted. */
  function WriteNextSibling(t: Node, h: Handle, name: string): (r: (Node, Handle))
    ensures Exists(t, h) && |h.path| > 0 ==>
              var q, i := Parent(h.path), Last(h.path);
              && ValidPath(t, q) && ValidPath(r.0, q)
              && var before, after := NodeAt(t, q).children, NodeAt(r.0, q).children;
              && i < |before|
              && r.1 == At(q + [i + 1])
              && Exists(r.0, r.1) && NodeAt(r.0, r.1.path) == Element(name)
              && Exists(r.0, h) && NodeAt(r.0, h.path) == NodeAt(t, h.path)
              && after == before[..i + 1] + [Element(name)] + before[i + 1..]
              && ReplaceAt(r.0, q, NodeAt(t, q)) == t
    ensures !(Exists(t, h) && |h.path| > 0) ==> r == (t, Null)
  {
    if Exists(t, h) && |h.path| > 0 then
      var q, i := Parent(h.path), Last(h.path);
      ParentPath(t, h.path);
      var P := NodeAt(t, q);
      var P' := P.(children := P.children[..i + 1] + [Element(name)] + P.children[i + 1..]);
      var t' := ReplaceAt(t, q, P');
      ChildPath(t', q, i + 1);
      ChildPath(t', q, i);
      assert h.path == q + [i];
      ReplaceRestore(t, q, P');
      (t', At(q + [i + 1]))
    else (t, Null)
  }

  /** Sets the node's text, replacing any text it had. */
  function WriteText(t: Node, h: Handle, s: string): (r: Node)
    ensures Exists(t, h) ==> Exists(r, h) && NodeAt(r, h.path) == NodeAt(t, h.path).(text := Some(s))
                             && ReplaceAt(r, h.path, NodeAt(t, h.path)) == t
    ensures !Exists(t, h) ==> r == t
  {
    if Exists(t, h) then
      ReplaceRestore(t, h.path, NodeAt(t, h.path).(text := Some(s)));
      ReplaceAt(t, h.path, NodeAt(t, h.path).(text := Some(s)))
    else t
  }

  /** String text with a default: written exactly when it differs from the
      default. Unlike every other defaulted write, the flag is not consulted. */
  function WriteTextDefault(a: Accessor, t: Node, h: Handle, s: string, def: string): (r: Node)
    ensures s != def ==> TextOf(r, h) == (if Exists(t, h) then Some(s) else None)
    ensures s != def ==> r == WriteText(t, h, s)
    ensures s == def ==> r == t
  {
    if s != def then WriteText(t, h, s) else t
  }

  /** A number or boolean as text: its rendering becomes the node's text. */
  function WriteScalarText(t: Node, h: Handle, v: Scalar): (r: Node)
    ensures Exists(t, h) ==> Exists(r, h) && Stored(TextOf(r, h)) == Some(Render(v))
    ensures r == WriteText(t, h, Render(v))
  {
    WriteText(t, h, Render(v))
  }

  /** `write_node_value_with_default`: the text is written iff the flag is on
      or the value differs from the default; otherwise nothing changes. */
  function WriteScalarTextDefault(a: Accessor, t: Node, h: Handle, v: Scalar, def: Scalar): (r: Node)
    ensures Emits(a, v != def) ==> r == WriteScalarText(t, h, v)
    ensures !Emits(a, v != def) ==> r == t
  {
    if a.writeDefaults || def != v then WriteScalarText(t, h, v) else t
  }

  /** Appends an attribute, even when one of that name exists already. */
  function WriteAttribute(t: Node, h: Handle, name: string, s: string): (r: Node)
    ensures Exists(t, h) ==> Exists(r, h)
                             && NodeAt(r, h.path) == NodeAt(t, h.path).(attrs := NodeAt(t, h.path).attrs + [Attr(name, s)])
                             && ReplaceAt(r, h.path, NodeAt(t, h.path)) == t
    ensures !Exists(t, h) ==> r == t
  {
    if Exists(t, h) then
      var n := NodeAt(t, h.path);
      ReplaceRestore(t, h.path, n.(attrs := n.attrs + [Attr(name, s)]));
      ReplaceAt(t, h.path, n.(attrs := n.attrs + [Attr(name, s)]))
    else t
  }

  /** A string attribute with a default: appended iff the flag is on or the
      value differs from the default. */
  function WriteAttributeDefault(a: Accessor, t: Node, h: Handle, name: string, s: string, def: string): (r: Node)
    ensures Emits(a, s != def) ==> r == WriteAttribute(t, h, name, s)
    ensures !Emits(a, s != def) ==> r == t
  {
    if a.writeDefaults || s != def then WriteAttribute(t, h, name, s) else t
  }

  /** `write_attribute_value`: a number or boolean as a new attribute. */
  function WriteScalarAttribute(t: Node, h: Handle, name: string, v: Scalar): (r: Node)
    ensures Exists(t, h) ==> Exists(r, h) && NodeAt(r, h.path).attrs == NodeAt(t, h.path).attrs + [Attr(name, Render(v))]
    ensures r == WriteAttribute(t, h, name, Render(v))
  {
    WriteAttribute(t, h, name, Render(v))
  }

  /** `write_attribute_value_with_default`. */
  function WriteScalarAttributeDefault(a: Accessor, t: Node, h: Handle, name: string, v: Scalar, def: Scalar): (r: Node)
    ensures Emits(a, v != def) ==> r == WriteScalarAttribute(t, h, name, v)
    ensures !Emits(a, v != def) ==> r == t
  {
    if a.writeDefaults || v != def then WriteScalarAttribute(t, h, name, v) else t
  }

  // =====================================================================
  // reader_impl

  /** The node's name; the document node and a null node have none. */
  function ReadNodeName(t: Node, h: Handle): (r: string)
    ensures Exists(t, h) && |h.path| > 0 ==> r == NodeAt(t, h.path).name
    ensures !(Exists(t, h) && |h.path| > 0) ==> r == ""
  {
    if Exists(t, h) && |h.path| > 0 then NodeAt(t, h.path).name else ""
  }

  /** The first child named `name`, or the null node when there is none. */
  function ReadChild(t: Node, h: Handle, name: string): (r: Handle)
    ensures r.At? ==> Exists(t, h) && |r.path| > 0 && Parent(r.path) == h.path && Exists(t, r)
                      && IsFirst(Names(NodeAt(t, h.path).children), name, 0, Last(r.path))
    ensures Exists(t, h) && NoneFrom(Names(NodeAt(t, h.path).children), name, 0) ==> r.Null?
    ensures !Exists(t, h) ==> r.Null?
    ensures name == "" ==> r.Null?
  {
    if Exists(t, h) then
      match FindFrom(Names(NodeAt(t, h.path).children), name, 0)
      case Some(i) =>
        ChildPath(t, h.path, i);
        assert Parent(h.path + [i]) == h.path;
        At(h.path + [i])
      case None => Null
    else Null
  }

  /** The next later sibling named `name`, skipping siblings with other names,
      or the null node when there is none. */
  function ReadNextSibling(t: Node, h: Handle, name: string): (r: Handle)
    ensures r.At? ==> Exists(t, h) && |h.path| > 0 && ValidPath(t, Parent(h.path))
                      && |r.path| > 0 && Parent(r.path) == Parent(h.path) && Exists(t, r)
                      && IsFirst(Names(NodeAt(t, Parent(h.path)).children), name, Last(h.path) + 1, Last(r.path))
    ensures Exists(t, h) && |h.path| > 0 ==>
              ValidPath(t, Parent(h.path))
              && (NoneFrom(Names(NodeAt(t, Parent(h.path)).children), name, Last(h.path) + 1) ==> r.Null?)
    ensures name == "" ==> r.Null?
    ensures !(Exists(t, h) && |h.path| > 0) ==> r.Null?
  {
    if Exists(t, h) && |h.path| > 0 then
      ParentPath(t, h.path);
      var q := Parent(h.path);
      match FindFrom(Names(NodeAt(t, q).children), name, Last(h.path) + 1)
      case Some(j) =>
        ChildPath(t, q, j);
        assert Parent(q + [j]) == q;
        At(q + [j])
      case None => Null
    else Null
  }

  /** String text: the node's text, or the empty string when it has none. */
  function ReadText(t: Node, h: Handle): (r: string)
    ensures r == TextOf(t, h).GetOr("")
  {
    AsString(TextOf(t, h), "")
  }

  /** String text with a default: the node's text when it has a text child,
      the default otherwise. */
  function ReadTextDefault(t: Node, h: Handle, def: string): (r: string)
    ensures r == TextOf(t, h).GetOr(def)
  {
    if TextOf(t, h).Some? then AsString(TextOf(t, h), "") else def
  }

  /** The engine's scalar read with a fallback, for a target of the fallback's type. */
  function AsScalar(v: Option<string>, fallback: Scalar): (r: Scalar)
    ensures KindOf(r) == KindOf(fallback)
    ensures Stored(v).None? ==> r == fallback
    ensures Stored(v).Some? ==> r == Parse(KindOf(fallback), Stored(v).value)
  {
    match Stored(v)
    case Some(s) => Parse(KindOf(fallback), s)
    case None => fallback
  }

  /** A number or boolean read from the text, 0 or false when there is none. */
  function ReadScalarText(t: Node, h: Handle, k: ScalarKind): (r: Scalar)
    ensures KindOf(r) == k && WellTyped(r)
    ensures Stored(TextOf(t, h)).None? ==> r == Zero(k)
    ensures Stored(TextOf(t, h)).Some? ==> r == Parse(k, Stored(TextOf(t, h)).value)
  {
    AsScalar(TextOf(t, h), Zero(k))
  }

  /** A number or boolean read from the text, the default when there is none. */
  function ReadScalarTextDefault(t: Node, h: Handle, def: Scalar): (r: Scalar)
    ensures KindOf(r) == KindOf(def)
    ensures Stored(TextOf(t, h)).None? ==> r == def
    ensures Stored(TextOf(t, h)).Some? ==> WellTyped(r) && r == Parse(KindOf(def), Stored(TextOf(t, h)).value)
  {
    AsScalar(TextOf(t, h), def)
  }

  /** A string attribute without a default: the variable keeps its value when
      the attribute is missing (or empty). */
  function ReadAttribute(t: Node, h: Handle, name: string, v: string): (r: string)
    ensures Stored(AttrOf(t, h, name)).None? ==> r == v
    ensures Stored(AttrOf(t, h, name)).Some? ==> r == AttrOf(t, h, name).value
  {
    AsString(AttrOf(t, h, name), v)
  }

  /** A string attribute with a default: the default when the attribute is
      missing; when it is present its value, except that an empty value leaves
      the variable as it was. */
  function ReadAttributeDefault(t: Node, h: Handle, name: string, v: string, def: string): (r: string)
    ensures AttrOf(t, h, name).None? ==> r == def
    ensures AttrOf(t, h, name).Some? ==> r == (if AttrOf(t, h, name).value == "" then v else AttrOf(t, h, name).value)
  {
    if AttrOf(t, h, name).Some? then AsString(AttrOf(t, h, name), v) else def
  }

  /** A number or boolean attribute without a default: unchanged when missing. */
  function ReadScalarAttribute(t: Node, h: Handle, name: string, v: Scalar): (r: Scalar)
    ensures KindOf(r) == KindOf(v)
    ensures Stored(AttrOf(t, h, name)).None? ==> r == v
    ensures Stored(AttrOf(t, h, name)).Some? ==> r == Parse(KindOf(v), Stored(AttrOf(t, h, name)).value)
  {
    AsScalar(AttrOf(t, h, name), v)
  }

  /** A number or boolean attribute with a default: the default when missing. */
  function ReadScalarAttributeDefault(t: Node, h: Handle, name: string, def: Scalar): (r: Scalar)
    ensures KindOf(r) == KindOf(def)
    ensures Stored(AttrOf(t, h, name)).None? ==> r == def
    ensures Stored(AttrOf(t, h, name)).Some? ==> r == Parse(KindOf(def), Stored(AttrOf(t, h, name)).value)
  {
    AsScalar(AttrOf(t, h, name), def)
  }

  /** Walking a node's children by name: the lookup from the parent finds the
      first of the matches ... */
  lemma ReadChildFindsFirstMatch(t: Node, h: Handle, name: string)
    requires Exists(t, h)
    ensures var m := Matches(NodeAt(t, h.path).children, name);
            ReadChild(t, h, name) == if |m| > 0 then At(h.path + [m[0]]) else Null
  {
    FindIsFirstMatch(Names(NodeAt(t, h.path).children), name, 0);
  }

  /** From the j-th child of the node at `q`, the sibling lookup continues the
      name search among that node's children just after position j. */
  lemma ReadNextSiblingOfChild(t: Node, q: seq<nat>, j: nat, name: string)
    requires ValidPath(t, q) && j < |NodeAt(t, q).children|
    ensures Exists(t, At(q + [j]))
    ensures ReadNextSibling(t, At(q + [j]), name)
         == match FindFrom(Names(NodeAt(t, q).children), name, j + 1)
            case Some(i) => At(q + [i])
            case None => Null
  {
    ChildPath(t, q, j);
    assert Parent(q + [j]) == q && Last(q + [j]) == j;
  }

  /** ... and the sibling lookup from each match finds the next one, or the
      null node after the last. */
  lemma ReadNextSiblingFindsNextMatch(t: Node, p: seq<nat>, name: string, k: nat)
    requires ValidPath(t, p) && k < |Matches(NodeAt(t, p).children, name)|
    ensures var m := Matches(NodeAt(t, p).children, name);
            && m[k] < |NodeAt(t, p).children| && Exists(t, At(p + [m[k]]))
            && ReadNextSibling(t, At(p + [m[k]]), name) == if k + 1 < |m| then At(p + [m[k + 1]]) else Null
  {
    var names := Names(NodeAt(t, p).children);
    MatchBounds(names, name, 0, k);
    var m := Matches(NodeAt(t, p).children, name);
    ReadNextSiblingOfChild(t, p, m[k], name);
    FindAfterMatch(names, name, k);
  }

  // =====================================================================
  // Writing then reading

  /** A child created by the writer is found by the reader's lookup of that
      name, provided no earlier child had it; a child created without a name
      is never found. */
  lemma ChildRoundTrip(t: Node, h: Handle, name: string)
    requires Exists(t, h) && NoneFrom(Names(NodeAt(t, h.path).children), name, 0)
    ensures ReadChild(WriteChild(t, h, name).0, h, name) == if name != "" then WriteChild(t, h, name).1 else Null
    ensures ReadNodeName(WriteChild(t, h, name).0, WriteChild(t, h, name).1) == name
  {
    var (t', c) := WriteChild(t, h, name);
    var before := Names(NodeAt(t, h.path).children);
    var after := Names(NodeAt(t', h.path).children);
    assert after[|before|] == name;
    var r := ReadChild(t', h, name);
    if name != "" {
      assert r.At?;
      assert h.path + [Last(r.path)] == r.path;
      assert forall j :: 0 <= j < |before| ==> after[j] == before[j];
    }
  }

  /** String text reads back as written. */
  lemma TextRoundTrip(t: Node, h: Handle, s: string)
    requires Exists(t, h)
    ensures ReadText(WriteText(t, h, s), h) == s
  {
  }

  /** String text with a default, on a node without text: the reader restores
      the value whether or not the writer left it out. */
  lemma TextDefaultRoundTrip(a: Accessor, t: Node, h: Handle, s: string, def: string)
    requires Exists(t, h) && TextOf(t, h).None?
    ensures ReadTextDefault(WriteTextDefault(a, t, h, s, def), h, def) == s
  {
  }

  /** A number or boolean of a supported type reads back as written. */
  lemma ScalarTextRoundTrip(t: Node, h: Handle, v: Scalar)
    requires Exists(t, h) && WellTyped(v)
    ensures ReadScalarText(WriteScalarText(t, h, v), h, KindOf(v)) == v
  {
    ParseOfRender(v);
  }

  /** With a default, on a node without text, the value reads back whether or
      not it was left out. */
  lemma ScalarTextDefaultRoundTrip(a: Accessor, t: Node, h: Handle, v: Scalar, def: Scalar)
    requires Exists(t, h) && TextOf(t, h).None?
    requires WellTyped(v) && KindOf(def) == KindOf(v)
    ensures ReadScalarTextDefault(WriteScalarTextDefault(a, t, h, v, def), h, def) == v
  {
    ParseOfRender(v);
  }

  /** After an attribute is appended, the lookup of a name sees the first
      attribute of that name: an earlier one wins over the new one, and a
      nameless one is never seen. */
  lemma AttributeLookupAfterWrite(t: Node, h: Handle, name: string, s: string, other: string)
    requires Exists(t, h)
    ensures AttrOf(WriteAttribute(t, h, name, s), h, other)
         == if AttrOf(t, h, other).Some? then AttrOf(t, h, other)
            else if name == other && other != "" then Some(s) else None
  {
    FirstAttrAppend(NodeAt(t, h.path).attrs, Attr(name, s), other);
  }

  /** A string attribute with a default, on a node without that attribute:
      the value reads back, except that a written empty value reads as the
      variable's previous value `v`. An attribute without a name is never
      found, so the reader gets the default. */
  lemma AttributeDefaultRoundTrip(a: Accessor, t: Node, h: Handle, name: string, s: string, def: string, v: string)
    requires Exists(t, h) && AttrOf(t, h, name).None?
    requires s != "" || v == ""
    ensures ReadAttributeDefault(WriteAttributeDefault(a, t, h, name, s, def), h, name, v, def)
         == if name != "" then s else def
  {
    AttributeLookupAfterWrite(t, h, name, s, name);
  }

  /** A number or boolean attribute on a node without that attribute reads
      back as written, whatever the variable held before; one without a name
      leaves the variable as it was. */
  lemma ScalarAttributeRoundTrip(t: Node, h: Handle, name: string, v: Scalar, w: Scalar)
    requires Exists(t, h) && AttrOf(t, h, name).None?
    requires WellTyped(v) && KindOf(w) == KindOf(v)
    ensures ReadScalarAttribute(WriteScalarAttribute(t, h, name, v), h, name, w) == if name != "" then v else w
  {
    AttributeLookupAfterWrite(t, h, name, Render(v), name);
    ParseOfRender(v);
  }

  /** With a default: the value reads back whether or not it was left out
      (the default, for an attribute without a name). */
  lemma ScalarAttributeDefaultRoundTrip(a: Accessor, t: Node, h: Handle, name: string, v: Scalar, def: Scalar)
    requires Exists(t, h) && AttrOf(t, h, name).None?
    requires WellTyped(v) && KindOf(def) == KindOf(v)
    ensures ReadScalarAttributeDefault(WriteScalarAttributeDefault(a, t, h, name, v, def), h, name, def)
         == if name != "" then v else def
  {
    AttributeLookupAfterWrite(t, h, name, Render(v), name);
    ParseOfRender(v);
  }

  /** Writing an attribute whose name the node already has does not change
      what is read: the first one is still found. */
  lemma DuplicateAttributeIgnored(t: Node, h: Handle, name: string, s: string, v: string)
    requires Exists(t, h) && AttrOf(t, h, name).Some?
    ensures ReadAttribute(WriteAttribute(t, h, name, s), h, name, v) == ReadAttribute(t, h, name, v)
  {
    AttributeLookupAfterWrite(t, h, name, s, name);
  }
}
