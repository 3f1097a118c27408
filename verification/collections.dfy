/** `serialize_array` and `serialize_container`: a sequence of items kept as
    consecutive children of one name. Writing creates one child per item, in
    order, and lets the item's own `serialize` fill it; reading walks the
    children of that name, first to last, and builds one item from each.

    An item type's `serialize` routine is represented by what it does on each
    side: the content it writes into the fresh, empty node it is given, using
    the session's accessor (and so the session's "write default values"
    flag), and the value it reads out of a node's content.

    A lookup never finds a node without a name, so items written under the
    empty name are never read back. */
module Collections {
  import opened Wrappers
  import opened Convert
  import opened Tree
  import opened Accessors
  import opened Serializer

  datatype ItemCodec<!T> = ItemCodec(write: (Accessor, T) -> Content, read: Content -> T)

  /** Every item survives being written by any writing accessor and read back. */
  ghost predicate RoundTrips<T(!new)>(codec: ItemCodec<T>) {
    forall a: Accessor, x: T :: a.Writing() ==> codec.read(codec.write(a, x)) == x
  }

  /** A node named `name` holding `c`. */
  function Fill(name: string, c: Content): (n: Node)
    ensures n.name == name && ContentOf(n) == c
  {
    Node(name, c.children, c.attrs, c.text)
  }

  /** The children a writer with accessor `a` appends for `items`, one per
      item, in order. */
  function Encoded<T>(codec: ItemCodec<T>, a: Accessor, name: string, items: seq<T>): (r: seq<Node>)
    ensures |r| == |items|
  {
    seq(|items|, i requires 0 <= i < |items| => Fill(name, codec.write(a, items[i])))
  }

  /** The items a reader builds from the children `cs`: one from each child
      named `name`, in document order. */
  function Decoded<T>(codec: ItemCodec<T>, cs: seq<Node>, name: string): (r: seq<T>)
    ensures |r| == |Matches(cs, name)|
  {
    var m := Matches(cs, name);
    MatchesSpec(Names(cs), name, 0);
    seq(|m|, i requires 0 <= i < |m| => codec.read(ContentOf(cs[m[i]])))
  }

  /** Reading the children that follow other children yields the items of the
      former after those of the latter; nameless children add nothing. */
  lemma DecodedConcat<T(!new)>(codec: ItemCodec<T>, a: Accessor, cs: seq<Node>, name: string, items: seq<T>)
    requires RoundTrips(codec) && a.Writing()
    ensures Decoded(codec, cs + Encoded(codec, a, name, items), name)
         == Decoded(codec, cs, name) + if name != "" then items else []
  {
    var e := Encoded(codec, a, name, items);
    var all := cs + e;
    assert Names(all) == Names(cs) + Names(e);
    if name == "" {
      MatchesSkip(Names(all), name, 0, |all|);
      MatchesSkip(Names(cs), name, 0, |cs|);
      return;
    }
    MatchesConcat(Names(cs), Names(e), name, 0);
    MatchesAll(Names(all), name, |cs|);
    MatchesSpec(Names(cs), name, 0);
    var m0 := Matches(cs, name);
    var m := Matches(all, name);
    var d := Decoded(codec, all, name);
    var d0 := Decoded(codec, cs, name);
    assert |d| == |d0| + |items|;
    forall i | 0 <= i < |d|
      ensures d[i] == (d0 + items)[i]
    {
      if i < |m0| {
        assert m[i] == m0[i];
      } else {
        assert m[i] == |cs| + (i - |m0|);
      }
    }
  }

  // ---------------------------------------------------------------------
  // One item

  /** The item's `serialize` run by a writer on the node `h`: the node receives
      the item's content. A null node receives nothing. */
  function WriteItem<T>(st: State, h: Handle, codec: ItemCodec<T>, x: T): (r: State)
    ensures r.acc == st.acc
    ensures Exists(st.doc, h) ==> Exists(r.doc, h) && ContentOf(NodeAt(r.doc, h.path)) == codec.write(st.acc, x)
                                  && NodeAt(r.doc, h.path).name == NodeAt(st.doc, h.path).name
                                  && ReplaceAt(r.doc, h.path, NodeAt(st.doc, h.path)) == st.doc
    ensures !Exists(st.doc, h) ==> r == st
  {
    if Exists(st.doc, h) then
      var n := Fill(NodeAt(st.doc, h.path).name, codec.write(st.acc, x));
      ReplaceRestore(st.doc, h.path, n);
      st.(doc := ReplaceAt(st.doc, h.path, n))
    else st
  }

  /** The item's `serialize` run by a reader on the node `h`. */
  function ReadItem<T>(st: State, h: Handle, codec: ItemCodec<T>): T
    requires Exists(st.doc, h)
  {
    codec.read(ContentOf(NodeAt(st.doc, h.path)))
  }

  // ---------------------------------------------------------------------
  // Writing

  /** The writing half of both algorithms: one new child per item, appended
      after whatever children the node already has. */
  method WriteItems<T>(st: State, c: Handle, items: seq<T>, codec: ItemCodec<T>, name: string) returns (st': State)
    requires Writing(st)
    ensures st'.acc == st.acc
    ensures IsValid(st, c) ==>
              var n := NodeAt(st.doc, c.path);
              IsValid(st', c) && st'.doc == ReplaceAt(st.doc, c.path, n.(children := n.children + Encoded(codec, st.acc, name, items)))
    ensures !IsValid(st, c) ==> st' == st
  {
    st' := st;
    ghost var n := if IsValid(st, c) then NodeAt(st.doc, c.path) else st.doc;
    if IsValid(st, c) {
      ReplaceSelf(st.doc, c.path);
      assert n.children + Encoded(codec, st.acc, name, items[..0]) == n.children;
    }
    var i := 0;
    while i < |items|
      invariant 0 <= i <= |items|
      invariant st'.acc == st.acc
      invariant IsValid(st, c) ==>
                  IsValid(st', c) && st'.doc == ReplaceAt(st.doc, c.path, n.(children := n.children + Encoded(codec, st.acc, name, items[..i])))
      invariant !IsValid(st, c) ==> st' == st
    {
      var r := Child(st', c, name);
      var st2 := WriteItem(r.0, r.1, codec, items[i]);
      if IsValid(st, c) {
        ghost var es := Encoded(codec, st.acc, name, items[..i]);
        ghost var m := Fill(name, codec.write(st.acc, items[i]));
        assert NodeAt(st'.doc, c.path) == n.(children := n.children + es);
        AppendStep(st.doc, st'.doc, r.0.doc, c.path, n, es, Element(name), m);
        assert st2.doc == ReplaceAt(r.0.doc, c.path + [|n.children + es|], m);
        assert Encoded(codec, st.acc, name, items[..i + 1]) == es + [m];
        assert n.children + es + [m] == n.children + Encoded(codec, st.acc, name, items[..i + 1]);
      }
      st' := st2;
      i := i + 1;
    }
    assert items[..i] == items;
  }

  /** One round of `WriteItems`: when the node at `p` of `d` has gained the
      children `es`, creating one more child and then replacing that child by
      `m` leaves it having gained `es + [m]`. */
  lemma AppendStep(d: Node, d0: Node, d1: Node, p: seq<nat>, n: Node, es: seq<Node>, e: Node, m: Node)
    requires ValidPath(d, p) && ValidPath(d1, p)
    requires d0 == ReplaceAt(d, p, n.(children := n.children + es))
    requires NodeAt(d1, p) == n.(children := n.children + es + [e])
    requires ReplaceAt(d1, p, n.(children := n.children + es)) == d0
    ensures ValidPath(d1, p + [|n.children + es|])
    ensures ReplaceAt(d1, p + [|n.children + es|], m) == ReplaceAt(d, p, n.(children := n.children + es + [m]))
  {
    var j := |n.children + es|;
    var N0 := n.(children := n.children + es);
    var N1 := NodeAt(d1, p);
    ChildPath(d1, p, j);
    ReplaceChild(d1, p, j, m);
    assert N1.children[j := m] == n.children + es + [m];
    Determined(d0, d1, p, N0);
    ReplaceTwice(d0, p, N1, n.(children := n.children + es + [m]));
    ReplaceTwice(d, p, N0, n.(children := n.children + es + [m]));
  }

  // ---------------------------------------------------------------------
  // Reading

  /** The reading half of `serialize_container`: every child named `name`,
      first to last, becomes an item appended to the container, after the
      items it already held. */
  method ReadContainer<T>(st: State, c: Handle, prior: seq<T>, codec: ItemCodec<T>, name: string) returns (out: seq<T>)
    requires Reading(st)
    ensures IsValid(st, c) ==> out == prior + Decoded(codec, NodeAt(st.doc, c.path).children, name)
    ensures !IsValid(st, c) ==> out == prior
  {
    out := prior;
    var h := Child(st, c, name).1;
    if !IsValid(st, c) {
      return;
    }
    var cs := NodeAt(st.doc, c.path).children;
    var m := Matches(cs, name);
    ghost var all := Decoded(codec, cs, name);
    ReadChildFindsFirstMatch(st.doc, c, name);
    var k := 0;
    while h.At?
      invariant k <= |m|
      invariant h.At? ==> k < |m| && h.path == c.path + [m[k]]
      invariant h.Null? ==> k == |m|
      invariant out == prior + all[..k]
      decreases |m| - k
    {
      ReadNextSiblingFindsNextMatch(st.doc, c.path, name, k);
      ChildPath(st.doc, c.path, m[k]);
      assert ReadItem(st, h, codec) == all[k];
      out := out + [ReadItem(st, h, codec)];
      assert all[..k + 1] == all[..k] + [all[k]];
      h := NextSibling(st, h, name).1;
      k := k + 1;
    }
    assert all[..k] == all;
  }

  /** The reading half of `serialize_array`: the children named `name`
      overwrite the array from its start, stopping at the array's end or after
      the last such child; the remaining elements keep their values. */
  method ReadArray<T>(st: State, c: Handle, arr: seq<T>, codec: ItemCodec<T>, name: string) returns (out: seq<T>)
    requires Reading(st)
    ensures |out| == |arr|
    ensures IsValid(st, c) ==>
              var all := Decoded(codec, NodeAt(st.doc, c.path).children, name);
              var k := if |all| < |arr| then |all| else |arr|;
              out == all[..k] + arr[k..]
    ensures !IsValid(st, c) ==> out == arr
  {
    out := arr;
    var h := Child(st, c, name).1;
    if !IsValid(st, c) {
      return;
    }
    var cs := NodeAt(st.doc, c.path).children;
    var m := Matches(cs, name);
    ghost var all := Decoded(codec, cs, name);
    ReadChildFindsFirstMatch(st.doc, c, name);
    var k := 0;
    while h.At? && k != |arr|
      invariant k <= |m| && k <= |arr|
      invariant h.At? ==> k < |m| && h.path == c.path + [m[k]]
      invariant h.Null? ==> k == |m|
      invariant out == all[..k] + arr[k..]
      decreases |m| - k
    {
      ReadNextSiblingFindsNextMatch(st.doc, c.path, name, k);
      ChildPath(st.doc, c.path, m[k]);
      assert ReadItem(st, h, codec) == all[k];
      out := out[k := ReadItem(st, h, codec)];
      assert all[..k + 1] == all[..k] + [all[k]];
      h := NextSibling(st, h, name).1;
      k := k + 1;
    }
  }

  // ---------------------------------------------------------------------
  // The two algorithms

  /** `serialize_container`: a writer appends one child per item, holding the
      item, after the node's existing children and changes nothing else; a
      reader appends what it finds to the container. */
  method SerializeContainer<T>(st: State, c: Handle, container: seq<T>, codec: ItemCodec<T>, name: string)
    returns (st': State, container': seq<T>)
    ensures st'.acc == st.acc
    ensures Reading(st) ==> st' == st
    ensures Reading(st) && IsValid(st, c) ==> container' == container + Decoded(codec, NodeAt(st.doc, c.path).children, name)
    ensures Reading(st) && !IsValid(st, c) ==> container' == container
    ensures Writing(st) ==> container' == container
    ensures Writing(st) && IsValid(st, c) ==>
              var n := NodeAt(st.doc, c.path);
              IsValid(st', c) && st'.doc == ReplaceAt(st.doc, c.path, n.(children := n.children + Encoded(codec, st.acc, name, container)))
    ensures Writing(st) && !IsValid(st, c) ==> st' == st
  {
    if st.acc.reading {
      st' := st;
      container' := ReadContainer(st, c, container, codec, name);
    } else {
      st' := WriteItems(st, c, container, codec, name);
      container' := container;
    }
  }

  /** `serialize_array`: a writer appends one child per element; a reader
      overwrites a prefix of the array, no longer than the array, and never
      changes its length. */
  method SerializeArray<T>(st: State, c: Handle, arr: seq<T>, codec: ItemCodec<T>, name: string)
    returns (st': State, arr': seq<T>)
    ensures st'.acc == st.acc && |arr'| == |arr|
    ensures Reading(st) ==> st' == st
    ensures Reading(st) && IsValid(st, c) ==>
              var all := Decoded(codec, NodeAt(st.doc, c.path).children, name);
              var k := if |all| < |arr| then |all| else |arr|;
              arr' == all[..k] + arr[k..]
    ensures Reading(st) && !IsValid(st, c) ==> arr' == arr
    ensures Writing(st) ==> arr' == arr
    ensures Writing(st) && IsValid(st, c) ==>
              var n := NodeAt(st.doc, c.path);
              IsValid(st', c) && st'.doc == ReplaceAt(st.doc, c.path, n.(children := n.children + Encoded(codec, st.acc, name, arr)))
    ensures Writing(st) && !IsValid(st, c) ==> st' == st
  {
    if st.acc.reading {
      st' := st;
      arr' := ReadArray(st, c, arr, codec, name);
    } else {
      st' := WriteItems(st, c, arr, codec, name);
      arr' := arr;
    }
  }

  // ---------------------------------------------------------------------
  // Writing then reading

  /** A container written below a node, with default values written or not,
      and read back by a reader on the resulting document gains exactly the
      written items, after those already there under that name. */
  method ContainerRoundTrip<T(!new)>(doc: Node, c: Handle, items: seq<T>, codec: ItemCodec<T>, name: string, writeDefaults: bool)
    returns (doc': Node, back: seq<T>)
    requires RoundTrips(codec) && Exists(doc, c)
    ensures back == Decoded(codec, NodeAt(doc, c.path).children, name) + if name != "" then items else []
    ensures NoneFrom(Names(NodeAt(doc, c.path).children), name, 0) ==> back == if name != "" then items else []
  {
    var (w0, wc) := NewWriterAt(doc, c);
    var w := SetDefaults(w0, writeDefaults);
    var w' := WriteItems(w, wc, items, codec, name);
    doc' := w'.doc;
    var (r, rc) := NewReaderAt(doc', c);
    back := ReadContainer(r, rc, [], codec, name);
    var n := NodeAt(doc, c.path);
    DecodedConcat(codec, w.acc, n.children, name, items);
    if NoneFrom(Names(n.children), name, 0) {
      MatchesSkip(Names(n.children), name, 0, |n.children|);
    }
  }

  /** An array written into a node without children of that name, and read
      back into an array of the same length, gets every element back. Under
      the empty name nothing is found and the target keeps its values. */
  method ArrayRoundTrip<T(!new)>(doc: Node, c: Handle, arr: seq<T>, target: seq<T>, codec: ItemCodec<T>, name: string, writeDefaults: bool)
    returns (back: seq<T>)
    requires RoundTrips(codec) && Exists(doc, c) && |target| == |arr|
    requires NoneFrom(Names(NodeAt(doc, c.path).children), name, 0)
    ensures back == if name != "" then arr else target
  {
    var (w0, wc) := NewWriterAt(doc, c);
    var w := SetDefaults(w0, writeDefaults);
    var w' := WriteItems(w, wc, arr, codec, name);
    var (r, rc) := NewReaderAt(w'.doc, c);
    back := ReadArray(r, rc, target, codec, name);
    var n := NodeAt(doc, c.path);
    DecodedConcat(codec, w.acc, n.children, name, arr);
    MatchesSkip(Names(n.children), name, 0, |n.children|);
  }
}
