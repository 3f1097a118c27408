/** An item type as the library's users write one: `entity` of the big-file
    test, whose one `serialize` routine stores an identifier attribute and a
    name attribute with the empty string as its default. Run in a container,
    it shows the whole write-then-read cycle. */
module Items {
  import opened Wrappers
  import opened Tree
  import opened Accessors
  import opened Serializer
  import opened Collections

  datatype Entity = Entity(id: string, name: string)

  /** `entity::serialize`: the same two calls read or write the fields. */
  function SerializeEntity(st: State, c: Handle, e: Entity): (r: (State, Entity))
    ensures r.0.acc == st.acc
    ensures Reading(st) ==> r.0 == st
    ensures Writing(st) ==> r.1 == e
  {
    var (s1, id) := Attribute(st, c, "id", e.id);
    var (s2, name) := AttributeDefault(s1, c, "name", e.name, "");
    (s2, Entity(id, name))
  }

  /** The routine seen from both sides: writing into a fresh node with the
      session's accessor, and reading into a default-constructed entity. */
  function EntityCodec(): ItemCodec<Entity> {
    ItemCodec(
      (a, e) => ContentOf(SerializeEntity(State(a, Element("")), At([]), e).0.doc),
      cont => SerializeEntity(State(ReaderImpl(), Fill("", cont)), At([]), Entity("", "")).1)
  }

  /** Every entity survives, whatever the session's "write default values"
      flag, including empty identifiers and names. */
  lemma EntityRoundTrip()
    ensures RoundTrips(EntityCodec())
  {
    var codec := EntityCodec();
    forall a: Accessor, e: Entity | a.Writing()
      ensures codec.read(codec.write(a, e)) == e
    {
      var h := At([]);
      var t0 := Element("");
      var t1 := WriteAttribute(t0, h, "id", e.id);
      var t2 := WriteAttributeDefault(a, t1, h, "name", e.name, "");
      assert codec.write(a, e) == ContentOf(t2);
      AttributeLookupAfterWrite(t0, h, "id", e.id, "id");
      if Emits(a, e.name != "") {
        AttributeLookupAfterWrite(t1, h, "name", e.name, "id");
        AttributeLookupAfterWrite(t1, h, "name", e.name, "name");
      }
      AttributeLookupAfterWrite(t0, h, "id", e.id, "name");
      assert Fill("", ContentOf(t2)) == t2;
    }
  }

  /** A miniature of the big-file round trip: a writer session with default
      values switched off stores a container of entities under the root, and a
      reader session on the result reads the same container back. */
  method EntitiesRoundTrip(entities: seq<Entity>) returns (back: seq<Entity>)
    ensures back == entities
  {
    var (w0, root) := NewWriter(EmptyDocument, "mondial");
    var w1 := SetDefaults(w0, false);
    var w2, _ := SerializeContainer(w1, root, entities, EntityCodec(), "continent");
    var (r, rroot) := NewReader(w2.doc);
    EntityRoundTrip();
    assert rroot == root;
    var _, read := SerializeContainer(r, rroot, [], EntityCodec(), "continent");
    DecodedConcat(EntityCodec(), w1.acc, [], "continent", entities);
    assert Decoded(EntityCodec(), [], "continent") == [];
    back := read;
  }
}
