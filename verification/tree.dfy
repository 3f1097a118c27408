/** The document the serializer works on, as the external document engine
    presents it: a node has a name, ordered element children, an ordered
    sequence of attributes (names are not kept unique: appending never checks
    them, and a lookup takes the first match) and optional text.

    A node is addressed by its path of child indices from the document node.
    A `Handle` is such an address or the engine's null node. */
module Tree {
  import opened Wrappers

  datatype Attr = Attr(name: string, value: string)

  datatype Node = Node(name: string, children: seq<Node>, attrs: seq<Attr>, text: Option<string>)

  datatype Handle = Null | At(path: seq<nat>)

  /** What a node holds apart from its name. */
  datatype Content = Content(children: seq<Node>, attrs: seq<Attr>, text: Option<string>)

  /** A freshly created element: a name and nothing else. */
  function Element(name: string): Node {
    Node(name, [], [], None)
  }

  /** A new, empty document. */
  const EmptyDocument: Node := Node("", [], [], None)

  function ContentOf(n: Node): Content {
    Content(n.children, n.attrs, n.text)
  }

  // ---------------------------------------------------------------------
  // Paths

  predicate ValidPath(t: Node, p: seq<nat>)
    decreases |p|
  {
    |p| == 0 || (p[0] < |t.children| && ValidPath(t.children[p[0]], p[1..]))
  }

  function NodeAt(t: Node, p: seq<nat>): Node
    requires ValidPath(t, p)
    decreases |p|
  {
    if |p| == 0 then t else NodeAt(t.children[p[0]], p[1..])
  }

  /** `t` with the node at `p` replaced by `n`. */
  function ReplaceAt(t: Node, p: seq<nat>, n: Node): (r: Node)
    requires ValidPath(t, p)
    ensures ValidPath(r, p) && NodeAt(r, p) == n
    decreases |p|
  {
    if |p| == 0 then n
    else t.(children := t.children[p[0] := ReplaceAt(t.children[p[0]], p[1..], n)])
  }

  /** A handle that designates a node of `t`: the engine's non-null nodes. */
  predicate Exists(t: Node, h: Handle) {
    h.At? && ValidPath(t, h.path)
  }

  function Parent(p: seq<nat>): seq<nat>
    requires |p| > 0
  {
    p[..|p| - 1]
  }

  function Last(p: seq<nat>): nat
    requires |p| > 0
  {
    p[|p| - 1]
  }

  lemma {:induction false} ReplaceSelf(t: Node, p: seq<nat>)
    requires ValidPath(t, p)
    ensures ReplaceAt(t, p, NodeAt(t, p)) == t
    decreases |p|
  {
    if |p| > 0 {
      ReplaceSelf(t.children[p[0]], p[1..]);
      assert t.children[p[0] := t.children[p[0]]] == t.children;
    }
  }

  lemma {:induction false} ReplaceTwice(t: Node, p: seq<nat>, a: Node, b: Node)
    requires ValidPath(t, p)
    ensures ReplaceAt(ReplaceAt(t, p, a), p, b) == ReplaceAt(t, p, b)
    decreases |p|
  {
    if |p| > 0 {
      ReplaceTwice(t.children[p[0]], p[1..], a, b);
    }
  }

  /** Putting back the node that was replaced restores the tree: a replacement
      changes nothing outside the replaced node. */
  lemma ReplaceRestore(t: Node, p: seq<nat>, n: Node)
    requires ValidPath(t, p)
    ensures ReplaceAt(ReplaceAt(t, p, n), p, NodeAt(t, p)) == t
  {
    ReplaceTwice(t, p, n, NodeAt(t, p));
    ReplaceSelf(t, p);
  }

  /** A tree that differs from `t` only at `p` is `t` with the node at `p` replaced. */
  lemma Determined(t: Node, r: Node, p: seq<nat>, n: Node)
    requires ValidPath(r, p) && ReplaceAt(r, p, n) == t
    ensures r == ReplaceAt(t, p, NodeAt(r, p))
  {
    ReplaceTwice(r, p, n, NodeAt(r, p));
    ReplaceSelf(r, p);
  }

  /** The path `q + [k]` is valid exactly when `q` is and `k` indexes a child there. */
  lemma {:induction false} ChildPath(t: Node, q: seq<nat>, k: nat)
    ensures ValidPath(t, q + [k]) <==> ValidPath(t, q) && k < |NodeAt(t, q).children|
    ensures ValidPath(t, q + [k]) ==> NodeAt(t, q + [k]) == NodeAt(t, q).children[k]
    decreases |q|
  {
    if |q| > 0 {
      assert (q + [k])[1..] == q[1..] + [k];
      if q[0] < |t.children| {
        ChildPath(t.children[q[0]], q[1..], k);
      }
    }
  }

  /** A valid path's parent is valid. */
  lemma ParentPath(t: Node, p: seq<nat>)
    requires |p| > 0 && ValidPath(t, p)
    ensures ValidPath(t, Parent(p)) && Last(p) < |NodeAt(t, Parent(p)).children|
    ensures NodeAt(t, p) == NodeAt(t, Parent(p)).children[Last(p)]
  {
    assert p == Parent(p) + [Last(p)];
    ChildPath(t, Parent(p), Last(p));
  }

  /** Replacing a child is replacing its parent by one whose child list differs there. */
  lemma {:induction false} ReplaceChild(t: Node, q: seq<nat>, k: nat, m: Node)
    requires ValidPath(t, q + [k])
    ensures ValidPath(t, q) && k < |NodeAt(t, q).children|
    ensures ReplaceAt(t, q + [k], m)
         == ReplaceAt(t, q, NodeAt(t, q).(children := NodeAt(t, q).children[k := m]))
    decreases |q|
  {
    ChildPath(t, q, k);
    if |q| > 0 {
      assert (q + [k])[1..] == q[1..] + [k];
      ReplaceChild(t.children[q[0]], q[1..], k, m);
    }
  }

  /** Replacing a node by one of the same name leaves the names of its
      siblings as they were. */
  lemma ReplaceKeepsNames(t: Node, p: seq<nat>, m: Node)
    requires |p| > 0 && ValidPath(t, p) && m.name == NodeAt(t, p).name
    ensures ValidPath(t, Parent(p)) && ValidPath(ReplaceAt(t, p, m), Parent(p))
    ensures Names(NodeAt(ReplaceAt(t, p, m), Parent(p)).children) == Names(NodeAt(t, Parent(p)).children)
  {
    var q, k := Parent(p), Last(p);
    assert p == q + [k];
    ReplaceChild(t, q, k, m);
    ParentPath(t, p);
    var P := NodeAt(t, q);
    assert NodeAt(ReplaceAt(t, p, m), q).children == P.children[k := m];
    assert Names(P.children[k := m]) == Names(P.children);
  }

  // ---------------------------------------------------------------------
  // Finding nodes by name

  function Names(cs: seq<Node>): (r: seq<string>)
    ensures |r| == |cs|
  {
    seq(|cs|, i requires 0 <= i < |cs| => cs[i].name)
  }

  /** The engine's name test in every lookup by name. An empty name is stored
      as no name at all, and a lookup skips entries without a name, so a
      lookup of the empty name never finds anything. */
  predicate Named(stored: string, name: string) {
    name != "" && stored == name
  }

  /** `i` is the first index at or after `from` whose name is `name`. */
  predicate IsFirst(names: seq<string>, name: string, from: nat, i: nat) {
    from <= i < |names| && Named(names[i], name)
    && forall j :: from <= j < i ==> !Named(names[j], name)
  }

  /** No index at or after `from` carries `name`. */
  predicate NoneFrom(names: seq<string>, name: string, from: nat) {
    forall j :: from <= j < |names| ==> !Named(names[j], name)
  }

  /** The engine's forward search for a name. */
  function FindFrom(names: seq<string>, name: string, from: nat): (r: Option<nat>)
    ensures r.Some? ==> IsFirst(names, name, from, r.value)
    ensures r.None? ==> NoneFrom(names, name, from)
    decreases |names| - from
  {
    if from >= |names| then None
    else if Named(names[from], name) then Some(from)
    else FindFrom(names, name, from + 1)
  }

  /** The indices at or after `from` that carry `name`, in increasing order. */
  function MatchesFrom(names: seq<string>, name: string, from: nat): seq<nat>
    decreases |names| - from
  {
    if from >= |names| then []
    else if Named(names[from], name) then [from] + MatchesFrom(names, name, from + 1)
    else MatchesFrom(names, name, from + 1)
  }

  /** The matches are exactly the indices at or after `from` that carry the
      name, each once and in increasing order. */
  lemma {:induction false} MatchesSpec(names: seq<string>, name: string, from: nat)
    ensures forall i :: 0 <= i < |MatchesFrom(names, name, from)| ==>
              from <= MatchesFrom(names, name, from)[i] < |names| && Named(names[MatchesFrom(names, name, from)[i]], name)
    ensures forall i, j :: 0 <= i < j < |MatchesFrom(names, name, from)| ==>
              MatchesFrom(names, name, from)[i] < MatchesFrom(names, name, from)[j]
    ensures forall j :: from <= j < |names| && Named(names[j], name) ==> j in MatchesFrom(names, name, from)
    decreases |names| - from
  {
    if from < |names| {
      MatchesSpec(names, name, from + 1);
      var m := MatchesFrom(names, name, from);
      var m' := MatchesFrom(names, name, from + 1);
      if Named(names[from], name) {
        assert m == [from] + m';
        forall i | 0 < i < |m|
          ensures m[i] == m'[i - 1]
        {
        }
      } else {
        assert m == m';
        forall i | 0 <= i < |m|
          ensures from <= m[i] < |names| && Named(names[m[i]], name)
        {
          assert m[i] == m'[i];
          assert from + 1 <= m'[i] < |names|;
          assert Named(names[m'[i]], name);
        }
      }
    }
  }

  /** One match, within bounds and carrying the name. */
  lemma MatchBounds(names: seq<string>, name: string, from: nat, i: nat)
    requires i < |MatchesFrom(names, name, from)|
    ensures from <= MatchesFrom(names, name, from)[i] < |names|
    ensures Named(names[MatchesFrom(names, name, from)[i]], name)
  {
    MatchesSpec(names, name, from);
  }

  /** The positions of the children of a node that are named `name`. */
  function Matches(cs: seq<Node>, name: string): seq<nat> {
    MatchesFrom(Names(cs), name, 0)
  }

  /** The forward search finds the first of the matches. */
  lemma {:induction false} FindIsFirstMatch(names: seq<string>, name: string, from: nat)
    ensures var m := MatchesFrom(names, name, from);
            FindFrom(names, name, from) == if |m| > 0 then Some(m[0]) else None
    decreases |names| - from
  {
    if from < |names| && !Named(names[from], name) {
      FindIsFirstMatch(names, name, from + 1);
    }
  }

  /** The matches after the i-th match are the remaining ones. */
  lemma {:induction false} MatchesAfter(names: seq<string>, name: string, from: nat, i: nat)
    requires i < |MatchesFrom(names, name, from)|
    ensures var m := MatchesFrom(names, name, from);
            MatchesFrom(names, name, m[i] + 1) == m[i + 1..]
    decreases |names| - from
  {
    var m := MatchesFrom(names, name, from);
    var m' := MatchesFrom(names, name, from + 1);
    if Named(names[from], name) {
      assert m == [from] + m';
      if i > 0 {
        assert m[i] == m'[i - 1] && m[i + 1..] == m'[i..];
        MatchesAfter(names, name, from + 1, i - 1);
      } else {
        assert m[1..] == m';
      }
    } else {
      assert m == m';
      MatchesAfter(names, name, from + 1, i);
    }
  }

  /** Searching onward from just after the k-th match finds the next match,
      or nothing after the last. */
  lemma FindAfterMatch(names: seq<string>, name: string, k: nat)
    requires k < |MatchesFrom(names, name, 0)|
    ensures var m := MatchesFrom(names, name, 0);
            FindFrom(names, name, m[k] + 1) == if k + 1 < |m| then Some(m[k + 1]) else None
  {
    var m := MatchesFrom(names, name, 0);
    MatchesAfter(names, name, 0, k);
    FindIsFirstMatch(names, name, m[k] + 1);
  }

  /** Matches of a list with none of the name in `[from, g)` are the matches from `g`. */
  lemma {:induction false} MatchesSkip(names: seq<string>, name: string, from: nat, g: nat)
    requires from <= g <= |names|
    requires forall j :: from <= j < g ==> !Named(names[j], name)
    ensures MatchesFrom(names, name, from) == MatchesFrom(names, name, g)
    decreases g - from
  {
    if from < g {
      MatchesSkip(names, name, from + 1, g);
    }
  }

  /** The matches in a list extended at the end: first those of the original
      list, then those of the extension. */
  lemma {:induction false} MatchesConcat(names: seq<string>, more: seq<string>, name: string, from: nat)
    requires from <= |names|
    ensures MatchesFrom(names + more, name, from)
         == MatchesFrom(names, name, from) + MatchesFrom(names + more, name, |names|)
    decreases |names| - from
  {
    if from < |names| {
      MatchesConcat(names, more, name, from + 1);
      assert (names + more)[from] == names[from];
    }
  }

  /** When every index from `from` on carries the name, the matches are those indices. */
  lemma {:induction false} MatchesAll(names: seq<string>, name: string, from: nat)
    requires from <= |names|
    requires forall j :: from <= j < |names| ==> Named(names[j], name)
    ensures var m := MatchesFrom(names, name, from);
            |m| == |names| - from && forall i :: 0 <= i < |m| ==> m[i] == from + i
    decreases |names| - from
  {
    if from < |names| {
      MatchesAll(names, name, from + 1);
      var m' := MatchesFrom(names, name, from + 1);
      assert MatchesFrom(names, name, from) == [from] + m';
    }
  }

  // ---------------------------------------------------------------------
  // Attributes and text as the engine reports them

  /** The value of the first attribute named `name`. */
  function FirstAttr(attrs: seq<Attr>, name: string): Option<string>
    decreases |attrs|
  {
    if |attrs| == 0 then None
    else if Named(attrs[0].name, name) then Some(attrs[0].value)
    else FirstAttr(attrs[1..], name)
  }

  /** Appending an attribute is visible to a lookup only if no earlier one has its name. */
  lemma {:induction false} FirstAttrAppend(attrs: seq<Attr>, a: Attr, name: string)
    ensures FirstAttr(attrs + [a], name)
         == if FirstAttr(attrs, name).Some? then FirstAttr(attrs, name)
            else if Named(a.name, name) then Some(a.value) else None
    decreases |attrs|
  {
    if |attrs| > 0 {
      assert (attrs + [a])[1..] == attrs[1..] + [a];
      FirstAttrAppend(attrs[1..], a, name);
    }
  }

  /** The text of the node `h` designates; a null node has none. */
  function TextOf(t: Node, h: Handle): Option<string> {
    if Exists(t, h) then NodeAt(t, h.path).text else None
  }

  /** The first attribute named `name` of the node `h` designates. */
  function AttrOf(t: Node, h: Handle, name: string): Option<string> {
    if Exists(t, h) then FirstAttr(NodeAt(t, h.path).attrs, name) else None
  }

  /** When the engine's setters are given an empty value, they store it as a
      null pointer; its `as_string`, `as_int`, ... readers fall back on their
      argument both for a missing value and for such a null one. This is the
      value they see for everything the writer produced. A document parsed
      from text keeps `a=""` as a non-null empty value instead, which these
      readers return as "" (or parse as 0); documents here are only those the
      writer builds, so that case is not represented. */
  function Stored(v: Option<string>): Option<string> {
    if v.Some? && v.value != "" then v else None
  }

  /** The engine's `as_string(fallback)`. */
  function AsString(v: Option<string>, fallback: string): string {
    Stored(v).GetOr(fallback)
  }
}
