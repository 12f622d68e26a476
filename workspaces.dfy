/** The workspace registry: workspaces are `workspace` elements with `name`
    and `path` attributes inside a `workspaces` root, and the active one is
    named by a `current` element beside them. Every operation takes the
    loaded document and returns the document to be saved. */
module Workspaces {
  import opened Xml

  datatype Workspace = Workspace(name: string, path: string)

  datatype SaveError = AlreadyExists

  // ---------------------------------------------------------------------
  // The name of a new workspace

  predicate IsSeparator(c: char)
  {
    c == '/' || c == '\\'
  }

  /** Every `from` replaced by `to`. */
  function Replace(s: string, from: char, to: char): (r: string)
    ensures |r| == |s|
    ensures forall k :: 0 <= k < |s| ==> r[k] == if s[k] == from then to else s[k]
  {
    if s == [] then [] else [if s[0] == from then to else s[0]] + Replace(s[1..], from, to)
  }

  /** Both separators turned into the platform's own. */
  function NormalizeSeparators(path: string, mainSeparator: char): (r: string)
    ensures |r| == |path|
    ensures forall k :: 0 <= k < |path| && IsSeparator(path[k]) ==> r[k] == if mainSeparator == '\\' then '\\' else '/'
    ensures forall k :: 0 <= k < |path| && !IsSeparator(path[k]) ==> r[k] == path[k]
  {
    if mainSeparator == '\\' then Replace(path, '/', '\\') else Replace(path, '\\', '/')
  }

  /** The characters after the last separator: the longest suffix free of
      separators, the whole path when it has none. */
  function TrailingName(path: string): (name: string)
    ensures |name| <= |path| && name == path[|path| - |name|..]
    ensures forall k :: 0 <= k < |name| ==> !IsSeparator(name[k])
    ensures |name| < |path| ==> IsSeparator(path[|path| - |name| - 1])
  {
    if path == [] || IsSeparator(path[|path| - 1]) then []
    else
      var name := TrailingName(path[..|path| - 1]);
      assert path[..|path| - 1][|path| - 1 - |name|..] + [path[|path| - 1]] == path[|path| - |name| - 1..];
      name + [path[|path| - 1]]
  }

  /** The name `Workspace::new` gives a workspace created at `path`:
      normalising only swaps one separator for the other, so it is the last
      component of the path as given. */
  function NameFromPath(path: string, mainSeparator: char): (name: string)
    ensures name == TrailingName(path)
  {
    var p := NormalizeSeparators(path, mainSeparator);
    TrailingNameAgree(p, path);
    TrailingName(p)
  }

  /** Two paths with separators in the same places and the same characters
      elsewhere have the same last component. */
  lemma {:induction false} TrailingNameAgree(a: string, b: string)
    requires |a| == |b|
    requires forall k :: 0 <= k < |a| ==> (IsSeparator(a[k]) <==> IsSeparator(b[k]))
    requires forall k :: 0 <= k < |a| && !IsSeparator(a[k]) ==> a[k] == b[k]
    ensures TrailingName(a) == TrailingName(b)
  {
    if a == [] {
      assert b == [];
    } else if IsSeparator(a[|a| - 1]) {
      assert IsSeparator(b[|b| - 1]);
    } else {
      var a', b' := a[..|a| - 1], b[..|b| - 1];
      assert forall k :: 0 <= k < |a'| ==> a'[k] == a[k] && b'[k] == b[k];
      TrailingNameAgree(a', b');
      assert !IsSeparator(b[|b| - 1]) && a[|a| - 1] == b[|b| - 1];
      TrailingNameLast(a);
      TrailingNameLast(b);
    }
  }

  lemma TrailingNameLast(path: string)
    requires path != [] && !IsSeparator(path[|path| - 1])
    ensures TrailingName(path) == TrailingName(path[..|path| - 1]) + [path[|path| - 1]]
  {
  }

  // ---------------------------------------------------------------------
  // A workspace as an element

  /** `as_xml_element`: a childless `workspace` element named after the
      workspace, with no key other than `name` and `path`. */
  function AsXmlElement(w: Workspace): (e: Element)
    ensures e.tag == "workspace" && e.subElements == []
    ensures NamedWorkspace(e, w.name) && KnownKeys(e.attributes)
  {
    var e := Element("workspace", "", [XmlAttribute("name", w.name), XmlAttribute("path", w.path)], []);
    assert e.attributes[0].key == "name" && e.attributes[0].value == w.name;
    e
  }

  /** The value of the last attribute with this key. */
  function LastValue(attrs: seq<XmlAttribute>, key: string): Option<string>
  {
    if attrs == [] then None
    else if attrs[|attrs| - 1].key == key then Some(attrs[|attrs| - 1].value)
    else LastValue(attrs[..|attrs| - 1], key)
  }

  /** `LastValue` is absent exactly when no attribute has the key, and is
      otherwise the value of an attribute with the key that no later one has. */
  lemma {:induction false} LastValueMeaning(attrs: seq<XmlAttribute>, key: string)
    ensures LastValue(attrs, key).None? <==> forall k :: 0 <= k < |attrs| ==> attrs[k].key != key
    ensures LastValue(attrs, key).Some? ==>
      exists k :: 0 <= k < |attrs| && attrs[k].key == key && attrs[k].value == LastValue(attrs, key).value
        && forall j :: k < j < |attrs| ==> attrs[j].key != key
  {
    if attrs == [] {
    } else if attrs[|attrs| - 1].key == key {
      var k := |attrs| - 1;
      assert attrs[k].key == key && attrs[k].value == LastValue(attrs, key).value;
    } else {
      var init := attrs[..|attrs| - 1];
      assert LastValue(attrs, key) == LastValue(init, key);
      LastValueMeaning(init, key);
      assert forall k :: 0 <= k < |init| ==> init[k] == attrs[k];
      if LastValue(init, key).Some? {
        var k :| 0 <= k < |init| && init[k].key == key && init[k].value == LastValue(init, key).value
          && forall j :: k < j < |init| ==> init[j].key != key;
        assert attrs[k] == init[k];
        assert forall j :: k < j < |attrs| ==> attrs[j].key != key;
      }
    }
  }

  predicate KnownKeys(attrs: seq<XmlAttribute>)
  {
    forall k :: 0 <= k < |attrs| ==> attrs[k].key == "name" || attrs[k].key == "path"
  }

  /** What `from_xml_element` accepts: a `workspace` element whose
      attributes are all `name` or `path` and include both, the last of
      each kind winning. */
  function ParseWorkspace(e: Element): (r: Option<Workspace>)
    ensures r.Some? ==> e.tag == "workspace" && NamedWorkspace(e, r.value.name)
  {
    LastValueMeaning(e.attributes, "name");
    var name := LastValue(e.attributes, "name");
    var path := LastValue(e.attributes, "path");
    if e.tag == "workspace" && KnownKeys(e.attributes) && name.Some? && path.Some? then
      Some(Workspace(name.value, path.value))
    else None
  }

  /** `from_xml_element`: one pass over the attributes. */
  method FromXmlElement(element: Element) returns (r: Option<Workspace>)
    ensures r == ParseWorkspace(element)
  {
    if element.tag != "workspace" {
      return None;
    }
    var attrs := element.attributes;
    var name: Option<string> := None;
    var path: Option<string> := None;
    var i := 0;
    while i < |attrs|
      invariant 0 <= i <= |attrs|
      invariant KnownKeys(attrs[..i])
      invariant name == LastValue(attrs[..i], "name")
      invariant path == LastValue(attrs[..i], "path")
    {
      assert attrs[..i + 1][..i] == attrs[..i];
      assert attrs[..i + 1][i] == attrs[i];
      if attrs[i].key == "name" {
        name := Some(attrs[i].value);
      } else if attrs[i].key == "path" {
        path := Some(attrs[i].value);
      } else {
        assert !KnownKeys(attrs);
        return None;
      }
      i := i + 1;
    }
    assert attrs[..i] == attrs;
    if name.Some? && path.Some? {
      return Some(Workspace(name.value, path.value));
    }
    return None;
  }

  /** A workspace read back from its own element is the same workspace. */
  lemma ParseAsXmlElement(w: Workspace)
    ensures ParseWorkspace(AsXmlElement(w)) == Some(w)
  {
    var attrs := AsXmlElement(w).attributes;
    assert attrs[..1] == [XmlAttribute("name", w.name)];
    assert LastValue(attrs[..1], "name") == Some(w.name);
    assert LastValue(attrs, "name") == Some(w.name);
    assert LastValue(attrs, "path") == Some(w.path);
  }

  /** The element is refused exactly when its tag is wrong, a key is
      unknown, or `name` or `path` is missing. */
  lemma ParseWorkspaceNone(e: Element)
    ensures ParseWorkspace(e).None? <==>
      || e.tag != "workspace"
      || (exists k :: 0 <= k < |e.attributes| && e.attributes[k].key != "name" && e.attributes[k].key != "path")
      || (forall k :: 0 <= k < |e.attributes| ==> e.attributes[k].key != "name")
      || (forall k :: 0 <= k < |e.attributes| ==> e.attributes[k].key != "path")
  {
    LastValueMeaning(e.attributes, "name");
    LastValueMeaning(e.attributes, "path");
  }

  // ---------------------------------------------------------------------
  // Lookup

  /** The children of every `workspaces` root, in document order. */
  function WorkspaceElements(roots: seq<Element>): seq<Element>
  {
    if roots == [] then []
    else (if roots[0].tag == "workspaces" then roots[0].subElements else []) + WorkspaceElements(roots[1..])
  }

  function NotFoundMessage(name: string): string
  {
    "Error: \"Could not find workspace with the name '" + name + "'\""
  }

  predicate ParsesWithName(e: Element, name: string)
  {
    ParseWorkspace(e).Some? && ParseWorkspace(e).value.name == name
  }

  /** The first of `es` that parses as a workspace with this exact name. */
  function FindWorkspace(es: seq<Element>, name: string): Result<Workspace, string>
  {
    if es == [] then Err(NotFoundMessage(name))
    else if ParsesWithName(es[0], name) then Ok(ParseWorkspace(es[0]).value)
    else FindWorkspace(es[1..], name)
  }

  /** The lookup fails, with its message, exactly when nothing parses with
      the name, and otherwise returns the first that does. */
  lemma {:induction false} FindWorkspaceMeaning(es: seq<Element>, name: string)
    ensures FindWorkspace(es, name).Err? <==> forall k :: 0 <= k < |es| ==> !ParsesWithName(es[k], name)
    ensures FindWorkspace(es, name).Err? ==> FindWorkspace(es, name).error == NotFoundMessage(name)
    ensures FindWorkspace(es, name).Ok? ==> FindWorkspace(es, name).value.name == name
    ensures FindWorkspace(es, name).Ok? ==>
      exists k :: 0 <= k < |es| && ParseWorkspace(es[k]) == Some(FindWorkspace(es, name).value)
        && forall j :: 0 <= j < k ==> !ParsesWithName(es[j], name)
  {
    if es == [] {
    } else if ParsesWithName(es[0], name) {
      assert ParseWorkspace(es[0]) == Some(FindWorkspace(es, name).value);
    } else {
      var tail := es[1..];
      assert FindWorkspace(es, name) == FindWorkspace(tail, name);
      FindWorkspaceMeaning(tail, name);
      assert forall k :: 1 <= k < |es| ==> tail[k - 1] == es[k];
      if FindWorkspace(tail, name).Ok? {
        var k :| 0 <= k < |tail| && ParseWorkspace(tail[k]) == Some(FindWorkspace(tail, name).value)
          && forall j :: 0 <= j < k ==> !ParsesWithName(tail[j], name);
        assert es[k + 1] == tail[k];
      }
    }
  }

  function LookupIn(tree: XmlTree, name: string): Result<Workspace, string>
  {
    FindWorkspace(WorkspaceElements(tree.Roots()), name)
  }

  lemma WorkspaceElementsStep(roots: seq<Element>, i: nat)
    requires i < |roots|
    ensures WorkspaceElements(roots[i..])
      == (if roots[i].tag == "workspaces" then roots[i].subElements else []) + WorkspaceElements(roots[i + 1..])
  {
    assert roots[i..][1..] == roots[i + 1..];
  }

  lemma FindWorkspaceStep(subs: seq<Element>, j: nat, rest: seq<Element>, name: string, w: Option<Workspace>)
    requires j < |subs| && w == ParseWorkspace(subs[j])
    ensures FindWorkspace(subs[j..] + rest, name)
      == if w.Some? && w.value.name == name then Ok(w.value) else FindWorkspace(subs[j + 1..] + rest, name)
  {
    assert (subs[j..] + rest)[0] == subs[j];
    assert (subs[j..] + rest)[1..] == subs[j + 1..] + rest;
  }

  /** `lookup`: every element of every `workspaces` root, in order. */
  method Lookup(name: string, tree: XmlTree) returns (r: Result<Workspace, string>)
    ensures r == LookupIn(tree, name)
  {
    var roots := tree.Roots();
    var i := 0;
    assert roots[0..] == roots;
    while i < |roots|
      invariant 0 <= i <= |roots|
      invariant FindWorkspace(WorkspaceElements(roots[i..]), name) == LookupIn(tree, name)
    {
      var root := roots[i];
      var rest := WorkspaceElements(roots[i + 1..]);
      WorkspaceElementsStep(roots, i);
      if root.tag == "workspaces" {
        var j := 0;
        assert root.subElements[0..] + rest == WorkspaceElements(roots[i..]);
        while j < |root.subElements|
          invariant 0 <= j <= |root.subElements|
          invariant FindWorkspace(root.subElements[j..] + rest, name) == LookupIn(tree, name)
        {
          var w := FromXmlElement(root.subElements[j]);
          FindWorkspaceStep(root.subElements, j, rest, name, w);
          if w.Some? && w.value.name == name {
            return Ok(w.value);
          }
          j := j + 1;
        }
        assert root.subElements[j..] + rest == rest;
      } else {
        assert [] + rest == rest;
      }
      i := i + 1;
    }
    return Err(NotFoundMessage(name));
  }

  // ---------------------------------------------------------------------
  // Save

  /** A `workspace` child carrying a `name` attribute equal to `name`. */
  predicate NamedWorkspace(e: Element, name: string)
  {
    e.tag == "workspace"
      && exists k :: 0 <= k < |e.attributes| && e.attributes[k].key == "name" && e.attributes[k].value == name
  }

  /** Some `workspaces` root already holds a workspace of this name. */
  predicate Duplicate(roots: seq<Element>, name: string)
  {
    exists i, j :: 0 <= i < |roots| && roots[i].tag == "workspaces"
      && 0 <= j < |roots[i].subElements| && NamedWorkspace(roots[i].subElements[j], name)
  }

  function AppendIfWorkspaces(root: Element, e: Element): Element
  {
    if root.tag == "workspaces" then root.(subElements := root.subElements + [e]) else root
  }

  /** `e` appended to every `workspaces` root; the other roots unchanged. */
  function Appended(roots: seq<Element>, e: Element): (r: seq<Element>)
    ensures |r| == |roots|
    ensures forall k :: 0 <= k < |roots| ==> r[k] == AppendIfWorkspaces(roots[k], e)
  {
    if roots == [] then []
    else [AppendIfWorkspaces(roots[0], e)] + Appended(roots[1..], e)
  }

  /** The document `save` writes, or why it writes nothing. */
  function SaveTree(tree: XmlTree, w: Workspace): Result<XmlTree, SaveError>
  {
    if Duplicate(tree.Roots(), w.name) then Err(AlreadyExists)
    else Ok(XmlTree(tree.root.(subElements := Appended(tree.Roots(), AsXmlElement(w)))))
  }

  /** `save`: refuse a duplicate name, else append to each `workspaces` root. */
  method Save(w: Workspace, tree: XmlTree) returns (r: Result<XmlTree, SaveError>)
    ensures r == SaveTree(tree, w)
  {
    var original := tree.Roots();
    var roots := original;
    var i := 0;
    while i < |roots|
      invariant 0 <= i <= |roots| == |original|
      invariant forall k :: 0 <= k < i ==> roots[k] == AppendIfWorkspaces(original[k], AsXmlElement(w))
      invariant forall k :: i <= k < |roots| ==> roots[k] == original[k]
      invariant forall k, j :: 0 <= k < i && original[k].tag == "workspaces" && 0 <= j < |original[k].subElements|
                  ==> !NamedWorkspace(original[k].subElements[j], w.name)
    {
      var root := roots[i];
      if root.tag == "workspaces" {
        var j := 0;
        while j < |root.subElements|
          invariant 0 <= j <= |root.subElements|
          invariant forall jj :: 0 <= jj < j ==> !NamedWorkspace(root.subElements[jj], w.name)
        {
          var elem := root.subElements[j];
          if elem.tag == "workspace" {
            var k := 0;
            while k < |elem.attributes|
              invariant 0 <= k <= |elem.attributes|
              invariant forall kk :: 0 <= kk < k ==> !(elem.attributes[kk].key == "name" && elem.attributes[kk].value == w.name)
            {
              if elem.attributes[k].key == "name" && elem.attributes[k].value == w.name {
                assert NamedWorkspace(original[i].subElements[j], w.name);
                return Err(AlreadyExists);
              }
              k := k + 1;
            }
          }
          j := j + 1;
        }
        var node := new XmlElement(root.tag, root.text, root.attributes, root.subElements);
        node.AddElement(AsXmlElement(w));
        roots := roots[i := node.Value()];
      }
      i := i + 1;
    }
    assert roots == Appended(original, AsXmlElement(w));
    return Ok(XmlTree(tree.root.(subElements := roots)));
  }

  lemma {:induction false} FindSkip(a: seq<Element>, b: seq<Element>, name: string)
    requires forall k :: 0 <= k < |a| ==> !ParsesWithName(a[k], name)
    ensures FindWorkspace(a + b, name) == FindWorkspace(b, name)
  {
    if a != [] {
      assert (a + b)[1..] == a[1..] + b;
      FindSkip(a[1..], b, name);
    } else {
      assert a + b == b;
    }
  }

  /** After a successful save, looking the name up finds the saved workspace. */
  lemma {:induction false} SaveThenLookup(tree: XmlTree, w: Workspace)
    requires exists i :: 0 <= i < |tree.Roots()| && tree.Roots()[i].tag == "workspaces"
    requires SaveTree(tree, w).Ok?
    ensures LookupIn(SaveTree(tree, w).value, w.name) == Ok(w)
  {
    AppendedThenFind(tree.Roots(), w);
  }

  lemma {:induction false} AppendedThenFind(roots: seq<Element>, w: Workspace)
    requires exists i :: 0 <= i < |roots| && roots[i].tag == "workspaces"
    requires !Duplicate(roots, w.name)
    ensures FindWorkspace(WorkspaceElements(Appended(roots, AsXmlElement(w))), w.name) == Ok(w)
  {
    var e := AsXmlElement(w);
    NotDuplicateSplit(roots, w.name);
    if roots[0].tag == "workspaces" {
      AppendedStep(roots[0], e, Appended(roots[1..], e));
      AppendedFirstFind(roots[0].subElements, w, WorkspaceElements(Appended(roots[1..], e)));
    } else {
      AppendedSkip(roots[0], e, Appended(roots[1..], e));
      var i :| 0 <= i < |roots| && roots[i].tag == "workspaces";
      assert roots[1..][i - 1] == roots[i];
      AppendedThenFind(roots[1..], w);
    }
  }

  /** The workspace children once `e` is appended to a `workspaces` root. */
  lemma AppendedStep(root: Element, e: Element, tail: seq<Element>)
    requires root.tag == "workspaces"
    ensures WorkspaceElements([AppendIfWorkspaces(root, e)] + tail) == root.subElements + ([e] + WorkspaceElements(tail))
  {
    WorkspaceElementsCons(AppendIfWorkspaces(root, e), tail);
    var rest := WorkspaceElements(tail);
    assert (root.subElements + [e]) + rest == root.subElements + ([e] + rest);
  }

  /** Any other root adds no workspace children. */
  lemma AppendedSkip(root: Element, e: Element, tail: seq<Element>)
    requires root.tag != "workspaces"
    ensures WorkspaceElements([AppendIfWorkspaces(root, e)] + tail) == WorkspaceElements(tail)
  {
    WorkspaceElementsCons(root, tail);
    assert [] + WorkspaceElements(tail) == WorkspaceElements(tail);
  }

  lemma WorkspaceElementsCons(head: Element, tail: seq<Element>)
    ensures WorkspaceElements([head] + tail)
      == (if head.tag == "workspaces" then head.subElements else []) + WorkspaceElements(tail)
  {
    assert ([head] + tail)[1..] == tail;
  }

  /** No name in the registry: none in its first root, none in the others. */
  lemma NotDuplicateSplit(roots: seq<Element>, name: string)
    requires roots != [] && !Duplicate(roots, name)
    ensures roots[0].tag == "workspaces" ==>
      forall k :: 0 <= k < |roots[0].subElements| ==> !NamedWorkspace(roots[0].subElements[k], name)
    ensures !Duplicate(roots[1..], name)
  {
    forall i, j | 0 <= i < |roots[1..]| && roots[1..][i].tag == "workspaces" && 0 <= j < |roots[1..][i].subElements|
      ensures !NamedWorkspace(roots[1..][i].subElements[j], name)
    {
      assert roots[1..][i] == roots[i + 1];
    }
  }

  /** The appended element is the first that parses with its name. */
  lemma AppendedFirstFind(subs: seq<Element>, w: Workspace, rest: seq<Element>)
    requires forall k :: 0 <= k < |subs| ==> !NamedWorkspace(subs[k], w.name)
    ensures FindWorkspace(subs + ([AsXmlElement(w)] + rest), w.name) == Ok(w)
  {
    ParseAsXmlElement(w);
    assert forall k :: 0 <= k < |subs| ==> !ParsesWithName(subs[k], w.name);
    FindSkip(subs, [AsXmlElement(w)] + rest, w.name);
  }

  /** The registry `save` starts from when the file does not exist yet: the
      events of the default document, one empty `workspaces` root. */
  function DefaultEvents(): seq<Event>
  {
    [Start("workspaces", []), End("workspaces"), Eof]
  }

  function DefaultTree(): XmlTree
  {
    XmlTree(Element("", "", [], [Element("workspaces", "", [], [])]))
  }

  /** The default document decodes to the default registry. */
  lemma DefaultTreeDecodes()
    ensures Decode(DefaultEvents()) == Ok(DefaultTree())
  {
    var tree := DefaultTree();
    assert EncodeAll(tree.Roots()) == [Start("workspaces", []), End("workspaces")] by {
      assert tree.Roots()[1..] == [];
    }
    assert AsString(tree) + [Eof] == DefaultEvents();
    DecodeAsStringTextFree(tree);
  }

  function DuplicateMessage(): string
  {
    "Workspace with that name already exists"
  }

  /** `Workspace::new`: the name comes from the path, the stored path is
      the absolute one, and the registry (the default one when there is
      none yet) gains the workspace unless the name is taken. */
  function NewWorkspace(path: string, mainSeparator: char, absolutePath: string, stored: Option<XmlTree>)
    : (r: Result<(Workspace, XmlTree), string>)
    ensures r.Err? <==> Duplicate((if stored.Some? then stored.value else DefaultTree()).Roots(), TrailingName(path))
    ensures r.Err? ==> r.error == DuplicateMessage()
    ensures r.Ok? ==> r.value.0 == Workspace(TrailingName(path), absolutePath)
    ensures r.Ok? ==> forall k :: 0 <= k < |r.value.0.name| ==> !IsSeparator(r.value.0.name[k])
  {
    var w := Workspace(NameFromPath(path, mainSeparator), absolutePath);
    var tree := if stored.Some? then stored.value else DefaultTree();
    match SaveTree(tree, w)
    case Ok(saved) => Ok((w, saved))
    case Err(_) => Err(DuplicateMessage())
  }

  /** A workspace created in a fresh registry is found under its name, and
      that name is the last component of the path. */
  lemma NewThenLookup(path: string, mainSeparator: char, absolutePath: string)
    ensures var r := NewWorkspace(path, mainSeparator, absolutePath, None);
      && r.Ok?
      && r.value.0 == Workspace(NameFromPath(path, mainSeparator), absolutePath)
      && LookupIn(r.value.1, r.value.0.name) == Ok(r.value.0)
  {
    FreshSave(Workspace(NameFromPath(path, mainSeparator), absolutePath));
  }

  lemma FreshSave(w: Workspace)
    ensures SaveTree(DefaultTree(), w).Ok?
    ensures LookupIn(SaveTree(DefaultTree(), w).value, w.name) == Ok(w)
  {
    var tree := DefaultTree();
    assert tree.Roots()[0].tag == "workspaces";
    assert tree.Roots()[0].subElements == [];
    assert !Duplicate(tree.Roots(), w.name);
    SaveThenLookup(tree, w);
  }

  /** Creating a workspace whose name is already registered fails with
      the duplicate message and changes nothing. */
  lemma NewDuplicate(path: string, mainSeparator: char, absolutePath: string, stored: XmlTree)
    requires Duplicate(stored.Roots(), NameFromPath(path, mainSeparator))
    ensures NewWorkspace(path, mainSeparator, absolutePath, Some(stored)) == Err(DuplicateMessage())
  {
  }

  // ---------------------------------------------------------------------
  // Remove

  function IsNamed(name: string): Element -> bool
  {
    (e: Element) => NamedWorkspace(e, name)
  }

  /** A `workspaces` root holding a workspace of this name. */
  function HoldsNamed(name: string): Element -> bool
  {
    (root: Element) => root.tag == "workspaces"
      && exists j :: 0 <= j < |root.subElements| && NamedWorkspace(root.subElements[j], name)
  }

  function RemoveMissingMessage(name: string): string
  {
    "No workspace with the name '" + name + "'"
  }

  /** The document `remove` writes: the first named workspace taken out of
      the first `workspaces` root holding one, or an error when none does. */
  function RemoveTree(tree: XmlTree, name: string): (r: Result<XmlTree, string>)
    ensures r.Err? <==> forall k :: 0 <= k < |tree.Roots()| ==> !HoldsNamed(name)(tree.Roots()[k])
    ensures r.Err? ==> r.error == RemoveMissingMessage(name)
    ensures r.Ok? ==> |r.value.Roots()| == |tree.Roots()| && r.value.root.tag == tree.root.tag
  {
    var roots := tree.Roots();
    var f := FirstIndex(roots, HoldsNamed(name));
    if f == |roots| then Err(RemoveMissingMessage(name))
    else
      var root := roots[f].(subElements := RemoveFirst(roots[f].subElements, IsNamed(name)).0);
      Ok(XmlTree(tree.root.(subElements := roots[f := root])))
  }

  /** `remove`: try each `workspaces` root in turn, stop at the first removal. */
  method Remove(name: string, tree: XmlTree) returns (r: Result<XmlTree, string>)
    ensures r == RemoveTree(tree, name)
  {
    var roots := tree.Roots();
    var i := 0;
    while i < |roots|
      invariant 0 <= i <= |roots|
      invariant forall k :: 0 <= k < i ==> !HoldsNamed(name)(roots[k])
    {
      var root := roots[i];
      if root.tag == "workspaces" {
        var node := new XmlElement(root.tag, root.text, root.attributes, root.subElements);
        var removed := node.Remove(IsNamed(name));
        if removed.Some? {
          assert HoldsNamed(name)(roots[i]);
          assert FirstIndex(roots, HoldsNamed(name)) == i;
          return Ok(XmlTree(tree.root.(subElements := roots[i := node.Value()])));
        }
        assert !HoldsNamed(name)(roots[i]);
      }
      i := i + 1;
    }
    return Err(RemoveMissingMessage(name));
  }

  /** With a single `workspaces` root, removing a workspace right after
      saving it gives back the document as it was. */
  lemma SaveThenRemove(tree: XmlTree, w: Workspace, f: nat)
    requires f < |tree.Roots()| && tree.Roots()[f].tag == "workspaces"
    requires forall k :: 0 <= k < |tree.Roots()| && k != f ==> tree.Roots()[k].tag != "workspaces"
    requires SaveTree(tree, w).Ok?
    ensures RemoveTree(SaveTree(tree, w).value, w.name) == Ok(tree)
  {
    var roots := tree.Roots();
    var e := AsXmlElement(w);
    var saved := Appended(roots, e);
    var subs := roots[f].subElements;
    assert saved[f].subElements == subs + [e];
    assert e.attributes[0].key == "name" && e.attributes[0].value == w.name;
    forall j | 0 <= j < |subs|
      ensures !NamedWorkspace(subs[j], w.name)
    {
    }
    RemoveAfterAppend(subs, e, w.name);
    assert HoldsNamed(w.name)(saved[f]) by {
      assert saved[f].subElements[|subs|] == e;
    }
    assert FirstIndex(saved, HoldsNamed(w.name)) == f;
    assert saved[f := roots[f]] == roots;
  }

  /** Removing by name right after appending the only element of that name
      takes exactly that element back out. */
  lemma RemoveAfterAppend(subs: seq<Element>, e: Element, name: string)
    requires NamedWorkspace(e, name)
    requires forall j :: 0 <= j < |subs| ==> !NamedWorkspace(subs[j], name)
    ensures RemoveFirst(subs + [e], IsNamed(name)) == (subs, Some(e))
  {
    var all := subs + [e];
    assert forall j :: 0 <= j < |subs| ==> !IsNamed(name)(all[j]) by {
      assert forall j :: 0 <= j < |subs| ==> all[j] == subs[j];
    }
    assert all[|subs|] == e && IsNamed(name)(e);
    assert FirstIndex(all, IsNamed(name)) == |subs|;
    assert all[..|subs|] + all[|subs| + 1..] == subs;
  }

  // ---------------------------------------------------------------------
  // The active workspace

  function NoCurrentMessage(): string
  {
    "No workspace currently selected!"
  }

  function IsNameKey(): XmlAttribute -> bool
  {
    (a: XmlAttribute) => a.key == "name"
  }

  /** A `current` element carrying a `name` attribute. */
  predicate NamesCurrent(e: Element)
  {
    e.tag == "current" && FirstIndex(e.attributes, IsNameKey()) < |e.attributes|
  }

  /** The first `name` value of the first `current` element that has one. */
  function FindCurrent(es: seq<Element>): Option<string>
  {
    if es == [] then None
    else if NamesCurrent(es[0]) then Some(es[0].attributes[FirstIndex(es[0].attributes, IsNameKey())].value)
    else FindCurrent(es[1..])
  }

  /** No active name exactly when no element names one; otherwise it is the
      first `name` value of the first element that does. */
  lemma {:induction false} FindCurrentMeaning(es: seq<Element>)
    ensures FindCurrent(es).None? <==> forall k :: 0 <= k < |es| ==> !NamesCurrent(es[k])
    ensures FindCurrent(es).Some? ==>
      exists k :: 0 <= k < |es| && NamesCurrent(es[k])
        && FindCurrent(es).value == es[k].attributes[FirstIndex(es[k].attributes, IsNameKey())].value
        && forall j :: 0 <= j < k ==> !NamesCurrent(es[j])
  {
    if es == [] {
    } else if NamesCurrent(es[0]) {
      assert FindCurrent(es).value == es[0].attributes[FirstIndex(es[0].attributes, IsNameKey())].value;
    } else {
      var tail := es[1..];
      assert FindCurrent(es) == FindCurrent(tail);
      FindCurrentMeaning(tail);
      assert forall k :: 1 <= k < |es| ==> tail[k - 1] == es[k];
      if FindCurrent(tail).Some? {
        var k :| 0 <= k < |tail| && NamesCurrent(tail[k])
          && FindCurrent(tail).value == tail[k].attributes[FirstIndex(tail[k].attributes, IsNameKey())].value
          && forall j :: 0 <= j < k ==> !NamesCurrent(tail[j]);
        assert es[k + 1] == tail[k];
      }
    }
  }

  function CurrentName(tree: XmlTree): Option<string>
  {
    FindCurrent(WorkspaceElements(tree.Roots()))
  }

  /** What `current` returns: the lookup of the active name, if one is set. */
  function CurrentIn(tree: XmlTree): Result<Workspace, string>
  {
    match CurrentName(tree)
    case Some(name) => LookupIn(tree, name)
    case None => Err(NoCurrentMessage())
  }

  /** `current`: the first `name` attribute of the first `current` element
      of any `workspaces` root, looked up among the workspaces. */
  method Current(tree: XmlTree) returns (r: Result<Workspace, string>)
    ensures r == CurrentIn(tree)
  {
    var roots := tree.Roots();
    var i := 0;
    assert roots[0..] == roots;
    while i < |roots|
      invariant 0 <= i <= |roots|
      invariant FindCurrent(WorkspaceElements(roots[i..])) == CurrentName(tree)
    {
      var root := roots[i];
      var rest := WorkspaceElements(roots[i + 1..]);
      WorkspaceElementsStep(roots, i);
      if root.tag == "workspaces" {
        var j := 0;
        assert root.subElements[0..] + rest == WorkspaceElements(roots[i..]);
        while j < |root.subElements|
          invariant 0 <= j <= |root.subElements|
          invariant FindCurrent(root.subElements[j..] + rest) == CurrentName(tree)
        {
          var elem := root.subElements[j];
          FindCurrentStep(root.subElements, j, rest);
          if elem.tag == "current" {
            var k := 0;
            while k < |elem.attributes|
              invariant 0 <= k <= |elem.attributes|
              invariant forall kk :: 0 <= kk < k ==> elem.attributes[kk].key != "name"
            {
              if elem.attributes[k].key == "name" {
                assert FirstIndex(elem.attributes, IsNameKey()) == k;
                r := Lookup(elem.attributes[k].value, tree);
                return;
              }
              k := k + 1;
            }
            assert FirstIndex(elem.attributes, IsNameKey()) == |elem.attributes|;
          }
          j := j + 1;
        }
        assert root.subElements[j..] + rest == rest;
      } else {
        assert [] + rest == rest;
      }
      i := i + 1;
    }
    return Err(NoCurrentMessage());
  }

  lemma FindCurrentStep(subs: seq<Element>, j: nat, rest: seq<Element>)
    requires j < |subs|
    ensures FindCurrent(subs[j..] + rest)
      == if NamesCurrent(subs[j]) then Some(subs[j].attributes[FirstIndex(subs[j].attributes, IsNameKey())].value)
         else FindCurrent(subs[j + 1..] + rest)
  {
    assert (subs[j..] + rest)[0] == subs[j];
    assert (subs[j..] + rest)[1..] == subs[j + 1..] + rest;
  }

  function IsWorkspaces(): Element -> bool
  {
    (root: Element) => root.tag == "workspaces"
  }

  /** The new `current` element `set_active` adds when there is none. */
  function CurrentElement(name: string): Element
  {
    Element("current", "", [XmlAttribute("name", name)], [])
  }

  /** The root `set_active` edits: the first `name` value of the first
      `current` child that has one is overwritten, or else a `current`
      child is appended. */
  function ActivateIn(root: Element, name: string): Element
  {
    var subs := root.subElements;
    var j := FirstIndex(subs, NamesCurrent);
    if j < |subs| then
      var k := FirstIndex(subs[j].attributes, IsNameKey());
      root.(subElements := subs[j := subs[j].(attributes := subs[j].attributes[k := XmlAttribute("name", name)])])
    else
      root.(subElements := subs + [CurrentElement(name)])
  }

  /** The document `set_active` writes: only the first `workspaces` root
      changes; without one, nothing does. */
  function SetActiveTree(tree: XmlTree, name: string): (r: XmlTree)
    ensures |r.Roots()| == |tree.Roots()| && r.root.tag == tree.root.tag
    ensures forall k :: 0 <= k < |tree.Roots()| && k != FirstIndex(tree.Roots(), IsWorkspaces())
              ==> r.Roots()[k] == tree.Roots()[k]
  {
    var roots := tree.Roots();
    var f := FirstIndex(roots, IsWorkspaces());
    if f == |roots| then tree
    else XmlTree(tree.root.(subElements := roots[f := ActivateIn(roots[f], name)]))
  }

  /** `set_active`. */
  method SetActive(w: Workspace, tree: XmlTree) returns (r: XmlTree)
    ensures r == SetActiveTree(tree, w.name)
  {
    var roots := tree.Roots();
    var i := 0;
    while i < |roots|
      invariant 0 <= i <= |roots|
      invariant forall k :: 0 <= k < i ==> roots[k].tag != "workspaces"
    {
      var root := roots[i];
      if root.tag == "workspaces" {
        assert FirstIndex(roots, IsWorkspaces()) == i;
        var subs := root.subElements;
        var j := 0;
        while j < |subs|
          invariant 0 <= j <= |subs|
          invariant forall jj :: 0 <= jj < j ==> !NamesCurrent(subs[jj])
        {
          var elem := subs[j];
          if elem.tag == "current" {
            var k := 0;
            while k < |elem.attributes|
              invariant 0 <= k <= |elem.attributes|
              invariant forall kk :: 0 <= kk < k ==> elem.attributes[kk].key != "name"
            {
              if elem.attributes[k].key == "name" {
                assert FirstIndex(elem.attributes, IsNameKey()) == k;
                assert FirstIndex(subs, NamesCurrent) == j;
                var updated := elem.(attributes := elem.attributes[k := XmlAttribute("name", w.name)]);
                return XmlTree(tree.root.(subElements := roots[i := root.(subElements := subs[j := updated])]));
              }
              k := k + 1;
            }
            assert FirstIndex(elem.attributes, IsNameKey()) == |elem.attributes|;
          }
          j := j + 1;
        }
        var node := new XmlElement(root.tag, root.text, root.attributes, root.subElements);
        node.AddElement(CurrentElement(w.name));
        return XmlTree(tree.root.(subElements := roots[i := node.Value()]));
      }
      i := i + 1;
    }
    return tree;
  }

  lemma {:induction false} FindCurrentSkip(a: seq<Element>, b: seq<Element>)
    requires forall k :: 0 <= k < |a| ==> !NamesCurrent(a[k])
    ensures FindCurrent(a + b) == FindCurrent(b)
  {
    if a != [] {
      assert (a + b)[1..] == a[1..] + b;
      FindCurrentSkip(a[1..], b);
    } else {
      assert a + b == b;
    }
  }

  lemma {:induction false} WorkspaceElementsFrom(roots: seq<Element>, f: nat)
    requires f < |roots| && roots[f].tag == "workspaces"
    requires forall k :: 0 <= k < f ==> roots[k].tag != "workspaces"
    ensures WorkspaceElements(roots) == roots[f].subElements + WorkspaceElements(roots[f + 1..])
  {
    if f > 0 {
      WorkspaceElementsFrom(roots[1..], f - 1);
      assert roots[1..][f..] == roots[f + 1..];
    } else {
      assert roots[1..] == roots[f + 1..];
    }
  }

  /** After `set_active` in a document with a `workspaces` root, the active
      name is the one just set. */
  lemma SetActiveThenCurrent(tree: XmlTree, name: string)
    requires exists i :: 0 <= i < |tree.Roots()| && tree.Roots()[i].tag == "workspaces"
    ensures CurrentName(SetActiveTree(tree, name)) == Some(name)
  {
    var roots := tree.Roots();
    var f := FirstIndex(roots, IsWorkspaces());
    var roots' := SetActiveTree(tree, name).Roots();
    assert roots' == roots[f := ActivateIn(roots[f], name)];
    assert roots'[f + 1..] == roots[f + 1..];
    WorkspaceElementsFrom(roots', f);
    ActivateInNames(roots[f], name, WorkspaceElements(roots[f + 1..]));
  }

  /** The edited root names `name` ahead of whatever follows it. */
  lemma ActivateInNames(root: Element, name: string, rest: seq<Element>)
    ensures FindCurrent(ActivateIn(root, name).subElements + rest) == Some(name)
  {
    var subs := root.subElements;
    var j := FirstIndex(subs, NamesCurrent);
    if j < |subs| {
      ActivateOverwrites(subs, j, name, rest);
    } else {
      assert FirstIndex(CurrentElement(name).attributes, IsNameKey()) == 0;
      assert ActivateIn(root, name).subElements + rest == subs + ([CurrentElement(name)] + rest);
      FindCurrentSkip(subs, [CurrentElement(name)] + rest);
    }
  }

  /** Overwriting the `name` value of the first `current` child. */
  lemma ActivateOverwrites(subs: seq<Element>, j: nat, name: string, rest: seq<Element>)
    requires j < |subs| && NamesCurrent(subs[j])
    requires forall jj :: 0 <= jj < j ==> !NamesCurrent(subs[jj])
    ensures var k := FirstIndex(subs[j].attributes, IsNameKey());
      FindCurrent(subs[j := subs[j].(attributes := subs[j].attributes[k := XmlAttribute("name", name)])] + rest) == Some(name)
  {
    var k := FirstIndex(subs[j].attributes, IsNameKey());
    var updated := subs[j].(attributes := subs[j].attributes[k := XmlAttribute("name", name)]);
    assert IsNameKey()(updated.attributes[k]);
    assert forall kk :: 0 <= kk < k ==> updated.attributes[kk] == subs[j].attributes[kk];
    assert FirstIndex(updated.attributes, IsNameKey()) == k;
    assert FindCurrent([updated] + (subs[j + 1..] + rest)) == Some(name);
    assert subs[j := updated] + rest == subs[..j] + ([updated] + (subs[j + 1..] + rest));
    FindCurrentSkip(subs[..j], [updated] + (subs[j + 1..] + rest));
  }
}
