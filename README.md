# rust-rpm workspace registry, modelled in Dafny

rust-rpm keeps its workspaces in an XML file, `workspaces.xml`. The file has a
`workspaces` root. Each workspace is a `workspace` element with a `name` and a
`path` attribute. A `current` element names the active workspace. This
project models the three core files behind that registry:

- `xml.dfy`, module `Xml` (`src/xmltree.rs`): the element tree and its
  operations.
  - In-place edits of an element: `remove`, `add_element`,
    `merge_with_or_add`, and building from the reader.
  - Reading a document from reader events.
  - Writing the roots back out as events and as text.
  - The `indent` pass that lays the text out one tag per line.
- `workspaces.dfy`, module `Workspaces` (`src/workspace.rs`):
  - converting a workspace to and from its element;
  - the name a new workspace gets from its path;
  - the tree logic of `new`, `save`, `lookup`, `current`, `set_active` and
    `remove`.
- `projects.dfy`, module `Projects` (`src/project.rs`): parsing a
  colon-separated project path.

## How the model is written

- An element is modelled twice:
  - as the value `Element`, which is what a tree owns;
  - as the class `XmlElement`, whose methods update its fields in place the
    way the Rust methods take `&mut self`.
- Children are stored as values. Each operation that edits a child works on a
  fresh `XmlElement` built from that child, then writes its value back. Rust's
  ownership rules out aliasing between children, so nothing is lost.
- The state-changing methods have loops. Each is proved equal to a
  specification function of its inputs, and the properties are stated as
  lemmas about those functions.
- The reader is abstracted to a sequence of events: `Start`, `End`, `Text`,
  `Eof`, `Failure` and `Other`.
  - Running out of events counts as `Eof`.
  - `Failure` stands for a reader error. The source panics there; the model
    returns `Err(ReaderError)`.
  - The reader checks each end tag against the element it closes. An end
    tag that does not match, or that no start tag opened, is a reader error
    too. The decoder carries a flag saying whether the element being built
    was opened by a start event.
  - `Other` stands for every event the source skips: self-closing elements,
    comments, declarations and the like.
- The workspace operations take the loaded document and return the document
  they would write. Their file reading and writing is left out.

## Model

| member | source | states |
|---|---|---|
| Xml.FirstIndex | src/xmltree.rs:199-208 | the position of the first element satisfying the predicate, or the length when none does |
| Xml.RemoveFirst | src/xmltree.rs:196-211 | nothing is removed (children unchanged) exactly when no child satisfies the predicate; otherwise the first satisfying child is returned and cut out, the others keep their order, and the length drops by one |
| Xml.XmlElement.Remove | src/xmltree.rs:196-211 | the new children and the returned child are those of `RemoveFirst` on the old children; tag, text and attributes are unchanged |
| Xml.XmlElement.AddElement | src/xmltree.rs:242-244 | the element is appended after the existing children; nothing else changes |
| Xml.XmlElement.constructor | src/xmltree.rs:112-119 | the new element holds exactly the given tag, text, attributes and children |
| Xml.XmlElement.FromStart | src/xmltree.rs:121-144 | the new element has the start event's tag and attributes, no text and no children |
| Xml.XmlElement.MergeWithOrAdd | src/xmltree.rs:248-261 | the new value is `MergeOrAdd` of the old value: with no paired child the element is appended, otherwise its children are merged one by one into the first paired child |
| Xml.MergeOrAddAppends | src/xmltree.rs:248-261 | when no child pairs with the element, merging appends it exactly once at the end and changes nothing else |
| Xml.MergeOrAddGrafts | src/xmltree.rs:248-261 | when child i is the first to pair, only child i changes; it keeps its tag, text and attributes and receives the element's children; the parent's own fields and child count are unchanged |
| Xml.MergeAllKeepsOwnFields | src/xmltree.rs:252-254 | merging a sequence of elements into a target never changes the target's tag, text or attributes |
| Xml.Build | src/xmltree.rs:148-170 | on success the rest of the events is no longer than the input, the element keeps its tag and attributes, and its old children remain a prefix of the new ones |
| Xml.DecodeUnopenedEnd | src/xmltree.rs:157-165 | an end tag that no start tag opened makes reading fail |
| Xml.DecodeMismatchedEnd | src/xmltree.rs:152-165 | an end tag that does not match the open element makes reading fail |
| Xml.XmlElement.BuildFromReader | src/xmltree.rs:148-170 | the event loop consumes events from `pos` exactly as `Build` does and reports where it stopped; it fails exactly when `Build` fails |
| Xml.FromEvents | src/xmltree.rs:19-33 | the document read from the events is `Decode` of them: a fresh unnamed root built by the reader loop |
| Xml.Encode | src/xmltree.rs:174-190 | the events written for an element never contain text |
| Xml.EncodeAll | src/xmltree.rs:57-59 | the events written for a sequence of elements never contain text |
| Xml.EncodeAllLength | src/xmltree.rs:174-190 | the writer puts out as many start events as elements, as many end events, and nothing else: twice as many events as elements |
| Xml.AsString | src/xmltree.rs:53-65 | as many start events as elements below the unnamed root, as many end events, nothing else and no text; that the events are those of the roots, not of the unnamed root, is `DecodeAsString` |
| Xml.CountAppend | src/xmltree.rs:174-190 | the starts and ends of concatenated event sequences add up, as one writer emitting one piece after another does |
| Xml.BuildEncoded | src/xmltree.rs:148-190 | reading back what the writer produced appends the written elements (with texts emptied) to the current element and stops where the tail says |
| Xml.DecodeAsString | src/xmltree.rs:53-65 | reading back `as_string` of a tree, followed by the end of input, gives a tree with the same roots, with every text emptied |
| Xml.DecodeAsStringTextFree | src/xmltree.rs:53-65 | a document without texts reads back exactly |
| Xml.StripTextFree | src/xmltree.rs:174-190 | emptying the texts of elements that have none changes nothing |
| Xml.RenderAppend | src/xmltree.rs:57-62 | the text of concatenated event sequences is the concatenation of their texts |
| Xml.RenderAttributesPlain | src/xmltree.rs:176-181 | attributes whose keys and values hold no markup characters render as text with no markup characters |
| Xml.Spaces | src/xmltree.rs:288-294 | the indentation is two spaces per level, and empty for a depth of zero or below |
| Xml.IndentBy | src/xmltree.rs:288-294 | the indentation closure builds exactly `Spaces(count)` |
| Xml.IndentPlain | src/xmltree.rs:296-316 | text without `<` or `>` passes through the indenter unchanged |
| Xml.IndentOpen | src/xmltree.rs:300-311 | an opening tag is written at the current depth and raises it by one |
| Xml.IndentClose | src/xmltree.rs:300-311 | a closing tag lowers the depth by one and is written at the lowered depth |
| Xml.IndentGt | src/xmltree.rs:312 | a `>` reached by the scan is written as `>` and a newline, at any depth |
| Xml.Indent | src/xmltree.rs:284-319 | the character loop computes `IndentFrom(text, 0)`, including when a lone `<` ends the text |
| Xml.IndentEncoded | src/xmltree.rs:284-319 | indenting the writer's text of a writable element gives one line per tag, each indented two spaces per level |
| Xml.IndentEncodedAll | src/xmltree.rs:284-319 | indenting the writer's text of several writable elements lays each of them out as in `IndentEncoded` |
| Xml.DocumentText | src/xmltree.rs:69-72 | the text `write_to_file` writes for writable roots is their one-tag-per-line layout at depth zero |
| Xml.IndentRoots | src/xmltree.rs:70-72 | indenting the written text of writable roots gives their layout at depth zero |
| Xml.SizeAllBound | src/xmltree.rs:100-106 | each child is no larger than the sequence of children it belongs to |
| Projects.FirstColon | src/project.rs:12 | where `splitn(2, ":")` cuts: the first `:`, or the length when there is none |
| Projects.FromStr | src/project.rs:11-23 | the parse is a chain of projects with colon-free names whose names, joined by `:`, give back the text, with one project per colon plus one |
| Projects.FromStrJoin | src/project.rs:11-23 | parsing the joined names of any colon-free chain gives that chain back |
| Projects.FromStrEmpty | src/project.rs:12-22 | the empty string parses as one project with an empty name |
| Projects.FromStrTrailingColon | src/project.rs:12-22 | a trailing colon gives a last sub-project with an empty name |
| Projects.ColonCountSplit | src/project.rs:12-16 | cutting at the first colon leaves one colon fewer in the remainder |
| Projects.ColonCountNone | src/project.rs:12-15 | a text with no colon has a colon count of zero |
| Workspaces.Replace | src/workspace.rs:25 | every occurrence of one character is replaced by another, and nothing else changes |
| Workspaces.NormalizeSeparators | src/workspace.rs:25 | every `/` and `\` becomes the platform's separator; every other character is kept |
| Workspaces.NameFromPath | src/workspace.rs:25-28 | the workspace's name is the last component of the path as given, whichever separators it uses |
| Workspaces.TrailingName | src/workspace.rs:28 | the name is the longest suffix of the path without a separator: it holds no separator, and a separator precedes it when it is not the whole path |
| Workspaces.TrailingNameAgree | src/workspace.rs:28 | two paths with separators in the same places and the same other characters have the same last component |
| Workspaces.AsXmlElement | src/workspace.rs:137-145 | a workspace becomes a childless `workspace` element with a `name` attribute holding its name and no key other than `name` and `path` |
| Workspaces.LastValueMeaning | src/workspace.rs:153-161 | an attribute value is absent exactly when no attribute has the key; otherwise it comes from an attribute with that key that no later attribute overrides |
| Workspaces.ParseWorkspace | src/workspace.rs:148-170 | only a `workspace` element is accepted, and the workspace read from it carries its name in a `name` attribute, so `save` and `remove` see it under that name |
| Workspaces.FromXmlElement | src/workspace.rs:148-170 | the attribute loop returns exactly `ParseWorkspace` of the element |
| Workspaces.ParseAsXmlElement | src/workspace.rs:137-170 | a workspace converted to its element and back is the same workspace |
| Workspaces.ParseWorkspaceNone | src/workspace.rs:148-170 | an element is refused exactly when its tag is not `workspace`, an attribute key is neither `name` nor `path`, or one of the two is missing |
| Workspaces.FindWorkspaceMeaning | src/workspace.rs:61-73 | the lookup fails with its message exactly when no element parses with that name; otherwise it returns the first that does |
| Workspaces.Lookup | src/workspace.rs:58-74 | the nested loops return exactly `LookupIn`: the first workspace of that name in any `workspaces` root |
| Workspaces.Appended | src/workspace.rs:113-129 | every `workspaces` root gets the element at the end; the other roots are unchanged |
| Workspaces.Save | src/workspace.rs:100-133 | the loops return `SaveTree`: `AlreadyExists` when any `workspaces` root already holds the name, otherwise the workspace appended to every `workspaces` root |
| Workspaces.FindSkip | src/workspace.rs:61-73 | elements that do not parse with the name do not affect the lookup |
| Workspaces.SaveThenLookup | src/workspace.rs:58-133 | after a successful save into a document with a `workspaces` root, looking the name up returns the saved workspace |
| Workspaces.AppendedThenFind | src/workspace.rs:58-133 | with no duplicate, appending the workspace to every `workspaces` root makes it the first match for its name |
| Workspaces.DefaultTreeDecodes | src/workspace.rs:12-16 | the default file reads as a single empty `workspaces` root |
| Workspaces.NewWorkspace | src/workspace.rs:23-54 | creation fails, with the duplicate message, exactly when the registry (the default one when there is none) already holds the name; otherwise the workspace is named by the path's last component, which has no separator, and carries the absolute path |
| Workspaces.NewThenLookup | src/workspace.rs:23-54 | a workspace created in a fresh registry gets the path's last component as its name and is then found under it |
| Workspaces.FreshSave | src/workspace.rs:100-133 | saving into the default document always succeeds and the workspace is then found |
| Workspaces.NewDuplicate | src/workspace.rs:45-50 | creating a workspace whose name is already registered fails with the duplicate message |
| Workspaces.RemoveTree | src/workspace.rs:208-249 | removal fails with its message exactly when no `workspaces` root holds the name; on success it keeps the number of roots and the root's tag |
| Workspaces.Remove | src/workspace.rs:208-249 | the loop returns `RemoveTree`: the first named workspace is taken out of the first `workspaces` root holding one |
| Workspaces.RemoveAfterAppend | src/xmltree.rs:196-211 | removing by name right after appending the only element with that name takes exactly that element back out |
| Workspaces.SaveThenRemove | src/workspace.rs:100-249 | with a single `workspaces` root, removing a workspace just saved gives back the original document |
| Workspaces.FindCurrentMeaning | src/workspace.rs:81-93 | there is no active name exactly when no element is a `current` element with a `name` attribute; otherwise it is the first `name` of the first such element |
| Workspaces.Current | src/workspace.rs:78-96 | the loops return `CurrentIn`: the lookup of the active name, or "No workspace currently selected!" when none is set |
| Workspaces.SetActiveTree | src/workspace.rs:173-204 | the document keeps its number of roots and root tag, and every root except the first `workspaces` root is unchanged |
| Workspaces.SetActive | src/workspace.rs:173-204 | the loops return `SetActiveTree`: the first `name` of the first `current` element is overwritten, or a new `current` element is appended, in the first `workspaces` root only |
| Workspaces.FindCurrentSkip | src/workspace.rs:83-90 | elements that do not name a current workspace do not affect the active name |
| Workspaces.WorkspaceElementsFrom | src/workspace.rs:61-63 | the workspace elements begin with the children of the first `workspaces` root |
| Workspaces.SetActiveThenCurrent | src/workspace.rs:78-204 | after `set_active` in a document with a `workspaces` root, the active name is the name just set |
| Workspaces.ActivateInNames | src/workspace.rs:173-204 | in the edited `workspaces` root, the first `current` element that carries a `name` now carries the name just set, whatever follows the root |

## Left out

- File I/O:
  - `XmlTree::from_file`, `write_to_file`'s file creation and writing, and the
    `Path::exists` check in `save` are not modelled. The operations take the
    loaded document and return the document to be written.
  - Write errors and their messages are not modelled, nor the panics on
    `unwrap`.
- `quick_xml`'s tokenizer and writer are replaced by the event datatype.
  - `trim_text(true)` is assumed done by the tokenizer.
  - Escaping and unescaping of text and attribute values are not modelled:
    `Render` writes values verbatim. The layout lemmas therefore require
    tags, keys and values free of markup characters (`Writable`).
  - The source panics on a reader error; the model returns `Err(ReaderError)`.
  - The events are assumed to be valid reader output. A start tag whose
    attributes the reader refuses, such as one with a repeated key, panics in
    `attr.unwrap()` (src/xmltree.rs:127). In the model it arrives as
    `Failure`. `Decode` itself accepts a `Start` event with a repeated key.
    So the "last value wins" rule of `from_xml_element` matters only for
    elements built in memory.
  - Xml.Build: does not state that the rest of the events is a suffix of the input, only that it is no longer; the round-trip lemmas pin the rest down for written documents.
- `std::path::MAIN_SEPARATOR` is a parameter of `NameFromPath`.
- `current_dir().join(path)` is the `absolutePath` parameter of
  `NewWorkspace`.
- `fs::create_dir_all` is not modelled.
- The `purge` flag of `remove` has no effect in the source and is not a
  parameter.
- The closures passed to `remove` and `merge_with_or_add` are `FnMut` in the
  source; here they are pure functions.
- The accessors (`tag`, `attributes`, `attributes_mut`, `elements`,
  `elements_mut`, `roots`, `roots_mut`) are field reads and updates of the
  model and have no members of their own.
- `XmlAttribute::new` is the `XmlAttribute` datatype constructor.
- Tag and name comparisons are exact (src/workspace.rs:65, 120, 219), and the
  model compares exactly too.
- A document cut short (an end of input with elements still open) is read
  as far as it goes.
- Xml.Indent: the depth counter is an `i32` in the source. The model uses an
  unbounded integer, so it does not model overflow, which would take more
  than 2^31 nested open tags.
- The command-line front end (`main.rs`, argument parsing) is not part of this
  model.
