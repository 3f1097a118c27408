# pugi_serializer in Dafny

A model of the bidirectional XML serializer `pugi_serializer`. Its users write
one `serialize` routine per type, and that routine runs against either of two
sessions. A `writer` turns each call into new nodes, text and attributes. A
`reader` turns the same call into lookups that fill the variables back in.
Both sessions sit on a document engine that has ordered element children,
ordered attributes and optional text.

The model has these parts:

- `wrappers.dfy` (`Wrappers`): optional values.
- `convert.dfy` (`Convert`): integer and boolean rendering and parsing.
  - The engine's saturating readers: `as_int`, `as_uint`, `as_llong`, `as_ullong` and `as_bool`.
  - `std::to_string` and `std::stoi`. A failed `stoi` is modelled as a missing result.
- `tree.dfy` (`Tree`): the document as the engine presents it.
  - Nodes are addressed by paths of child indices.
  - Attributes are a sequence, not a map: the writer appends without checking names, and a lookup takes the first match.
  - The engine's setters store an empty value as "no value". So for everything the writer produces, its readers with a fallback return the fallback both for a missing value and for an empty one (`Stored`, `AsString`).
  - The engine stores an empty name as "no name", and every lookup by name skips nodes and attributes without one (`Named`). A lookup of the empty name therefore never finds anything.
- `accessors.dfy` (`Accessors`): `impl_base`, `writer_impl` and `reader_impl` of `src/pugi_serializer.cpp`. Each is a pure function.
  - Writer functions return the changed document. Their contracts state the change and that the rest of the document is untouched: restoring the changed node gives back the original.
  - Reader functions return what they find.
  - The module also proves the write-then-read lemmas.
- `serializer.dfy` (`Serializer`): `serializer_base` and the `writer` / `reader` sessions.
  - Every serializer of a session shares one accessor by reference. This is modelled as a `State` holding the accessor and the document. A serializer is then its current node.
  - Two whole sessions from the repository's tests are proved to round-trip.
- `collections.dfy` (`Collections`): `serialize_array` and `serialize_container` of `src/pugi_serializer.hpp`.
  - They are methods with loop invariants, each checked against a functional description: `Encoded` for what a writer appends, `Decoded` for what a reader collects.
  - An item type's `serialize` is an `ItemCodec`: the content it writes into a fresh node, and the value it reads from a node's content.
- `items.dfy` (`Items`): a concrete item, the `entity` of the big-file test. Its codec is proved to round-trip with the real accessor functions. A whole container of entities is then written and read back.
- `seri.dfy` (`Seri`): the older node-stack serializer of `seri.h` and `seri_pugi.h`, for `int` numbers.

Behaviour worth knowing, as the code does it:

- Defaulted string text is written iff it differs from its default, whatever the "write default values" flag says. Every other defaulted write also emits when the flag is on.
- An undefaulted string attribute read keeps the variable's old value when a writer left the attribute empty, not only when it is missing. It reads through `as_string(old)`, and the engine's setter stored the empty value as none.
- The defaulted string attribute read returns the default only when the attribute is missing. An attribute the writer left empty also leaves the old value.
- The writer refuses to rename the document node itself, and the reader gives the document node the empty name.
- `seri`'s `pugi_read::attrib` copies an empty value, unlike the accessors above.
- `seri`'s converter reads parse the empty string when the node has no text or the attribute is missing, so `stoi` fails; so does text that is not a number. A missing child is different: `node_start` fails and the number is left alone. When the child exists but its text does not parse, `node_with_number` never reaches `node_end`, and the child stays on the stack.

The header declares the cursor class as `serilaizer_base`, while the `.cpp` and the tests use `serializer_base`. The header also lacks the numeric attribute overloads. The operation set modelled is the one the `.cpp` defines.

## Model

| member | source | states |
|---|---|---|
| Accessors.WriterImpl | src/pugi_serializer.cpp:91-94 | a writer accessor writes and does not read; default values are written until told otherwise |
| Accessors.ReaderImpl | src/pugi_serializer.cpp:83-84 | a reader accessor reads and does not write; the flag starts true |
| Accessors.SetWriteDefaults | src/pugi_serializer.cpp:37-38 | the flag reads back as last set and the mode does not change |
| Accessors.WriteDefaultsFlag | src/pugi_serializer.cpp:37-39 | the flag reads back as last set, setting it again to its value changes nothing, only the last setting counts, and the mode never changes |
| Accessors.WriteNodeName | src/pugi_serializer.cpp:96-99 | only the node's name changes; the rest of the document is untouched; a null node and the document node change nothing |
| Accessors.WriteChild | src/pugi_serializer.cpp:101-106 | always appends a fresh element of that name as the last child, even when one of that name exists; the new handle designates it; no other node changes |
| Accessors.WriteNextSibling | src/pugi_serializer.cpp:108-112 | the new node sits directly after the given one in its parent; the other siblings keep their order; nothing changes and the result is null for the document node or a null node |
| Accessors.WriteText | src/pugi_serializer.cpp:114-117 | the node's text is replaced; nothing else changes |
| Accessors.WriteTextDefault | src/pugi_serializer.cpp:119-125 | text is written exactly when it differs from the default, whatever the flag |
| Accessors.WriteScalarText | src/pugi_serializer.cpp:146-149 | the stored text is the value's rendering |
| Accessors.WriteScalarTextDefault | src/pugi_serializer.cpp:139-144 | the text is written iff the flag is on or the value differs from the default; otherwise the document is unchanged |
| Accessors.WriteAttribute | src/pugi_serializer.cpp:186-189 | the attribute is appended after all existing ones, even when one of that name exists; nothing else changes |
| Accessors.WriteAttributeDefault | src/pugi_serializer.cpp:192-196 | appended iff the flag is on or the value differs from the default; otherwise the document is unchanged |
| Accessors.WriteScalarAttribute | src/pugi_serializer.cpp:198-202 | appends an attribute holding the value's rendering |
| Accessors.WriteScalarAttributeDefault | src/pugi_serializer.cpp:204-212 | appended iff the flag is on or the value differs from the default |
| Accessors.ReadNodeName | src/pugi_serializer.cpp:255-258 | the node's name; empty for a null node and for the document node |
| Accessors.ReadChild | src/pugi_serializer.cpp:260-264 | a valid result is a child of the node and the first child with that name; no such child, or the empty name, gives the null node |
| Accessors.ReadNextSibling | src/pugi_serializer.cpp:266-270 | a valid result is the first later sibling with that name, skipping other names; none, or the empty name, gives the null node |
| Accessors.ReadText | src/pugi_serializer.cpp:277-280 | the node's text, or empty when it has none |
| Accessors.ReadTextDefault | src/pugi_serializer.cpp:282-292 | the node's text when it has text, even empty text; the default otherwise |
| Accessors.ReadScalarText | src/pugi_serializer.cpp:294-295 | the stored text parsed as the requested type; zero or false when there is no stored text |
| Accessors.ReadScalarTextDefault | src/pugi_serializer.cpp:296-297 | the stored text parsed as the default's type, a value of that type; the default when there is no stored text |
| Accessors.ReadAttribute | src/pugi_serializer.cpp:335-338 | the attribute's value when it is stored; the variable is unchanged when it is missing or empty |
| Accessors.ReadAttributeDefault | src/pugi_serializer.cpp:341-347 | the default when the attribute is missing; its value when present, except that an empty value keeps the variable |
| Accessors.ReadScalarAttribute | src/pugi_serializer.cpp:349-352 | the stored value parsed as the variable's type; the variable is unchanged when the attribute is missing or empty; the result has the variable's type |
| Accessors.ReadScalarAttributeDefault | src/pugi_serializer.cpp:353-356 | the stored value parsed as the default's type; the default when the attribute is missing or empty |
| Accessors.ReadChildFindsFirstMatch | src/pugi_serializer.cpp:260-264 | the lookup from a node returns the first of its children carrying the name |
| Accessors.ReadNextSiblingFindsNextMatch | src/pugi_serializer.cpp:266-270 | from the k-th child carrying the name, the sibling lookup returns the (k+1)-th, or null after the last |
| Accessors.ChildRoundTrip | src/pugi_serializer.cpp:101-106 | a child created by the writer is found by the reader's lookup of that name, when no earlier child had it, and carries the name; a child created under the empty name is never found |
| Accessors.TextRoundTrip | src/pugi_serializer.cpp:277-280 | string text reads back as written |
| Accessors.TextDefaultRoundTrip | src/pugi_serializer.cpp:282-292 | on a node without text, a defaulted string text reads back whether or not the writer left it out |
| Accessors.ScalarTextRoundTrip | src/pugi_serializer.cpp:294-295 | every int, unsigned, long long, unsigned long long and bool written as text reads back unchanged |
| Accessors.ScalarTextDefaultRoundTrip | src/pugi_serializer.cpp:139-144 | on a node without text, a defaulted number or bool reads back whether or not it was left out |
| Accessors.AttributeLookupAfterWrite | src/pugi_serializer.cpp:186-189 | after an append, a lookup of a name sees an earlier attribute of that name if there is one, else the new one if it has that name and the name is not empty |
| Accessors.AttributeDefaultRoundTrip | src/pugi_serializer.cpp:341-347 | a defaulted string attribute reads back, written or not, except that an empty value reads as the variable's old value; under the empty name the read gives the default |
| Accessors.ScalarAttributeRoundTrip | src/pugi_serializer.cpp:349-352 | a number or bool attribute reads back, whatever the variable held; under the empty name the variable keeps its value |
| Accessors.ScalarAttributeDefaultRoundTrip | src/pugi_serializer.cpp:204-212 | a defaulted number or bool attribute reads back whether or not it was left out; under the empty name the read gives the default |
| Accessors.DuplicateAttributeIgnored | src/pugi_serializer.cpp:335-338 | appending an attribute whose name the node already has does not change what is read |
| Convert.EngineInt | src/pugi_serializer.cpp:294-297 | the engine's integer read never fails, stays in the target type's range, and gives 0 for text without digits |
| Convert.EngineIntOfRender | src/pugi_serializer.cpp:294-295 | every in-range integer's rendering reads back as that integer |
| Convert.RenderBool | src/pugi_serializer.cpp:314-315 | a written boolean reads back as itself |
| Convert.ParseOfRender | src/pugi_serializer.cpp:146-149 | every value of a supported type survives rendering and the engine's parse |
| Convert.Stoi | seri.h:26-31 | `stoi` yields a value iff digits follow the optional sign and the value fits an `int` |
| Convert.StoiOfRender | seri.h:21-31 | `stoi(to_string(n)) == n` for every `int` |
| Serializer.NewWriter | src/pugi_serializer.cpp:532-536 | appends a root element of the given name and stands on it: valid, writing, defaults on |
| Serializer.NewWriterAt | src/pugi_serializer.cpp:538-540 | a writer on a given node is valid iff the node exists |
| Serializer.NewReader | src/pugi_serializer.cpp:547-548 | a reader stands on the document element; it is valid iff the document has one |
| Serializer.NewReaderAt | src/pugi_serializer.cpp:550-551 | a reader on a given node, reading |
| Serializer.SetDefaults | src/pugi_serializer.cpp:434-437 | the flag, shared by all serializers of the session, reads back as set |
| Serializer.Child | src/pugi_serializer.cpp:449-453 | the new serializer shares the accessor; it is valid or null; the originating serializer stays valid; reading leaves the document unchanged |
| Serializer.NextSibling | src/pugi_serializer.cpp:455-459 | the same for the sibling step |
| Serializer.NodeName | src/pugi_serializer.cpp:444-447 | reading never changes the document, writing never changes the variable |
| Serializer.Text | src/pugi_serializer.cpp:466-470 | reading never changes the document, writing never changes the variable |
| Serializer.TextDefault | src/pugi_serializer.cpp:472-476 | the same, with a default |
| Serializer.ScalarText | src/pugi_serializer.cpp:466-470 | the same for numbers and booleans, and the type is kept |
| Serializer.ScalarTextDefault | src/pugi_serializer.cpp:472-476 | the same, with a default |
| Serializer.Attribute | src/pugi_serializer.cpp:501-505 | reading never changes the document, writing never changes the variable |
| Serializer.AttributeDefault | src/pugi_serializer.cpp:507-511 | the same, with a default |
| Serializer.ScalarAttribute | src/pugi_serializer.cpp:501-505 | the same for numbers and booleans, and the type is kept |
| Serializer.ScalarAttributeDefault | src/pugi_serializer.cpp:507-511 | the same, with a default |
| Serializer.ModeIsFixed | src/pugi_serializer.cpp:431-432 | a session is reading exactly when it is not writing, and no operation or flag setting changes its mode |
| Serializer.ValidIsNonNull | src/pugi_serializer.hpp:61 | the serializers `child` and `next_sibling` return are valid exactly when they stand on a node; a null node is never valid; a writer's child of a valid serializer is valid |
| Serializer.DefaultsShared | src/pugi_serializer.cpp:434-442 | the flag set on a session is seen by the serializers its `child` and `next_sibling` return, and setting it again through one of them reads back without changing the mode |
| Serializer.Construction | tests/TestConstruction.cpp:7-49 | writer on a document valid and writing; reader on an empty document invalid; the root element has the given name; the flag reads back as set |
| Serializer.BaseTypesRoundTrip | tests/TestSerializeBaseTypes.cpp:36-50 | a number or bool written to a child's text and attribute is read back by a reader session, whatever the variables held |
| Serializer.AttributeDefaultsRoundTrip | tests/TestSerializeDefaults.cpp:23-58 | with defaults off, only the attributes differing from "YES" are written, and a reader session gets every value back |
| Collections.DecodedConcat | src/pugi_serializer.hpp:147-167 | reading children after appending encoded items yields the earlier items followed by exactly those items, or by nothing when the name is empty |
| Collections.WriteItem | src/pugi_serializer.hpp:142-143 | the item's content fills the node it is given, and nothing else changes |
| Collections.WriteItems | src/pugi_serializer.hpp:137-144 | one child per item, in order, is appended after the existing children; nothing else changes; a null node changes nothing |
| Collections.ReadContainer | src/pugi_serializer.hpp:150-158 | the items of every child with that name, in document order, are appended after the container's prior items |
| Collections.ReadArray | src/pugi_serializer.hpp:127-136 | with k children of that name and an array of length n, the first min(k, n) slots receive the items of the first such children, in order; the other slots keep their values; the length is unchanged |
| Collections.SerializeContainer | src/pugi_serializer.hpp:147-167 | reading leaves the document unchanged and appends the items of every child with that name; writing leaves the container unchanged and appends one child per item, holding that item's content, with nothing else changed; a null node changes nothing |
| Collections.SerializeArray | src/pugi_serializer.hpp:124-145 | reading leaves the document unchanged and overwrites the first min(k, n) slots with the items of the first such children, keeping the rest; writing appends one child per element, holding its content, with nothing else changed; a null node changes nothing |
| Collections.ContainerRoundTrip | src/pugi_serializer.hpp:147-167 | a container written with defaults on or off and read back into an empty one gives the items already there under that name, then the written items, or nothing more under the empty name; with none there, exactly the written items |
| Collections.ArrayRoundTrip | src/pugi_serializer.hpp:124-145 | an array written, with defaults on or off, into a node without such children reads back into an array of the same size unchanged; under the empty name the target array keeps its values |
| Items.SerializeEntity | tests/TestBigFile.cpp:54-58 | one routine for both sessions: reading leaves the document unchanged, writing leaves the entity unchanged |
| Items.EntityRoundTrip | tests/TestBigFile.cpp:45-59 | every entity survives being written through any writing accessor, with defaults written or not, and read back, including empty fields |
| Items.EntitiesRoundTrip | tests/TestBigFile.cpp:457-485 | a container of entities written with defaults off is read back equal |
| Seri.New | seri_pugi.h:14-17 | the stack holds exactly the parent node |
| Seri.ConvWrite | seri.h:21-24 | the rendering of an `int` parses back to it |
| Seri.ConvRead | seri.h:26-31 | `stoi` of the string: a parsed value fits an `int`; the empty string fails |
| Seri.NodeStart | seri_pugi.h:32-75 | a writer always succeeds, appending a child to the top node and pushing it; a reader pushes the first child of that name and succeeds iff there is one, otherwise leaves the stack unchanged, and never changes the document |
| Seri.NodeEnd | seri_pugi.h:18-21 | exactly one node is popped |
| Seri.Text | seri_pugi.h:76-79 | a reader takes the top node's text, empty when there is none; a writer sets it |
| Seri.Attrib | seri_pugi.h:86-93 | a reader takes the first such attribute's value, leaving the variable alone when there is none; a writer appends |
| Seri.TextConv | seri_pugi.h:80-85 | a reader parses the top node's text; a writer stores the rendering |
| Seri.AttribConv | seri_pugi.h:94-99 | a reader parses the attribute's value and fails when it is missing; a writer appends the rendering |
| Seri.Number | seri.h:80-84 | a writer stores the number's rendering as the top node's text, which parses back to the number; a reader parses the top node's text and changes nothing else; the stack is unchanged |
| Seri.AttribNumber | seri.h:85-89 | a writer appends the number's rendering as an attribute of the top node; a reader parses that attribute's value and fails when it is missing; the stack is unchanged |
| Seri.NodeWithText | seri.h:90-97 | a writer appends a child and sets its text to the value; a reader takes the first such child's text, empty when it has none, and keeps the variable when there is no such child; the stack is as it was and a reader never changes the document |
| Seri.NodeWithNumber | seri.h:106-113 | a writer appends a child whose text is the number's rendering; a reader parses the first such child's text, and a failed parse leaves exactly that child pushed; a missing child keeps the number |
| Seri.NodeWithAttrib | seri.h:114-121 | a writer appends a child carrying the attribute; a reader takes that attribute of the first such child, keeping the variable when the child or the attribute is missing; the stack is as it was |
| Seri.NodeWithTextRoundTrip | seri.h:90-97 | a child's text written by `pugi_write` is read back by `pugi_read` on the same parent; under the empty name the variable keeps its value |
| Seri.NodeWithNumberRoundTrip | seri.h:106-113 | a number written as a child's text is read back, leaving the reader's stack as it was; under the empty name the number keeps its value |
| Seri.NodeWithAttribRoundTrip | seri.h:114-121 | a child's attribute written by `pugi_write` is read back by `pugi_read`; when either name is empty the variable keeps its value |

## Left out

- The XML engine itself: parsing, printing, escaping and file I/O. The document is the `Tree.Node` datatype.
- Floating-point text and attributes, and the `stof`/`stod`/`stold` branches of `num_onverter`: floating-point formatting and parsing are not modelled.
- `num_onverter` instances other than `int`. The `stol`, `stoll`, `stoul` and `stoull` branches are not modelled.
- Hexadecimal and other non-decimal number syntax accepted by the engine's integer readers.
- `cdata` and `c_str`: they depend on the engine's node types, and the document model has element children and one text value only.
- `child_with_text` and `child_with_attribute`: the tests call them, but their implementation is not part of this model.
- Accessor allocation and deletion in the session constructors and destructors, and `serializer_base::operator=`: object-lifetime details.
- `seri::stl_container_serializer`: it refers to members that are not declared and does not compile as written.
- The test programs' object graphs (`world`, `country`, `city`, ...) and the mondial file. One item type, `entity`, stands for them.
- Handles are paths of child indices. After a writer's `next_sibling`, a handle held to a later sibling points one position off. The engine's node pointers would not shift; the model's statements are about the handles the operations return.
- Comments, processing instructions and other non-element nodes. `reader(doc)` therefore takes the first child as the document element.
- Refusing attributes on the document node itself: the engine refuses them, while the model appends.
- Accessors.ReadAttribute: a document parsed from text may hold an attribute with a non-null empty value, which `as_string(old)` returns as ""; documents here are only those the writer builds, which stores an empty value as none, so the contract promises the old value for every empty attribute.
- Accessors.ReadAttributeDefault: the same restriction; an empty attribute of a parsed document would read as "" rather than keep the variable.
- Accessors.ReadScalarAttribute: the same restriction; an empty attribute of a parsed document would read as 0 or false rather than keep the variable.
- Accessors.ReadScalarAttributeDefault: the same restriction; an empty attribute of a parsed document would read as 0 or false rather than give the default.
- Collections.WriteItem: models an item's `serialize` on the fresh node it is given as replacing that node's content with what the item writes. An item routine that navigates outside its own node is not modelled.
- Seri.NodeStart: a writer on a null top node pushes the null node, as `append_child` returns it; the model does the same but states nothing further about such a stack.
