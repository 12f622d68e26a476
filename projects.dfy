/** Colon-separated project paths: `a:b:c` names project `a` holding
    sub-project `b` holding sub-project `c`. */
module Projects {

  datatype Project = Project(name: string, projects: seq<Project>)

  /** The number of `:` in `s`. */
  function ColonCount(s: string): nat
  {
    if s == [] then 0 else (if s[0] == ':' then 1 else 0) + ColonCount(s[1..])
  }

  /** Where `splitn(2, ":")` cuts: the first `:`, or `|s|` when there is none. */
  function FirstColon(s: string): (i: nat)
    ensures i <= |s|
    ensures forall j :: 0 <= j < i ==> s[j] != ':'
    ensures i < |s| ==> s[i] == ':'
  {
    if s == [] || s[0] == ':' then 0 else 1 + FirstColon(s[1..])
  }

  lemma {:induction false} ColonCountSplit(s: string, i: nat)
    requires i < |s| && s[i] == ':'
    requires forall j :: 0 <= j < i ==> s[j] != ':'
    ensures ColonCount(s) == 1 + ColonCount(s[i + 1..])
  {
    if i > 0 {
      ColonCountSplit(s[1..], i - 1);
      assert s[1..][i..] == s[i + 1..];
    }
  }

  lemma {:induction false} ColonCountNone(s: string)
    requires forall j :: 0 <= j < |s| ==> s[j] != ':'
    ensures ColonCount(s) == 0
  {
    if s != [] {
      ColonCountNone(s[1..]);
    }
  }

  /** Every project has at most one sub-project. */
  ghost predicate Chain(p: Project)
  {
    |p.projects| <= 1 && forall k :: 0 <= k < |p.projects| ==> Chain(p.projects[k])
  }

  /** No name in the project tree contains `:`. */
  ghost predicate ColonFree(p: Project)
  {
    (forall j :: 0 <= j < |p.name| ==> p.name[j] != ':')
      && forall k :: 0 <= k < |p.projects| ==> ColonFree(p.projects[k])
  }

  function NodeCount(p: Project): nat
  {
    1 + NodeCountAll(p.projects)
  }

  function NodeCountAll(ps: seq<Project>): nat
  {
    if ps == [] then 0 else NodeCount(ps[0]) + NodeCountAll(ps[1..])
  }

  /** The names along the first-child path, joined by `:`. */
  function Join(p: Project): string
  {
    if p.projects == [] then p.name else p.name + ":" + Join(p.projects[0])
  }

  /** `Project::from_str`: the text up to the first `:` names this project,
      and the text after it, if there is a `:`, is parsed into its only
      sub-project. */
  function FromStr(text: string): (p: Project)
    ensures Chain(p) && ColonFree(p)
    ensures Join(p) == text
    ensures NodeCount(p) == ColonCount(text) + 1
    decreases |text|
  {
    var i := FirstColon(text);
    if i == |text| then
      ColonCountNone(text);
      Project(text, [])
    else
      var sub := FromStr(text[i + 1..]);
      SplitStep(text, i, sub);
      Project(text[..i], [sub])
  }

  /** The parent built at the first colon keeps the results' properties. */
  lemma SplitStep(text: string, i: nat, sub: Project)
    requires i < |text| && text[i] == ':'
    requires forall j :: 0 <= j < i ==> text[j] != ':'
    requires Chain(sub) && ColonFree(sub) && Join(sub) == text[i + 1..]
    requires NodeCount(sub) == ColonCount(text[i + 1..]) + 1
    ensures var p := Project(text[..i], [sub]);
      Chain(p) && ColonFree(p) && Join(p) == text && NodeCount(p) == ColonCount(text) + 1
  {
    ColonCountSplit(text, i);
    assert text == text[..i] + ":" + text[i + 1..];
    assert NodeCountAll([sub]) == NodeCount(sub);
  }

  /** Parsing the joined names of a colon-free chain gives the chain back. */
  lemma {:induction false} FromStrJoin(p: Project)
    requires Chain(p) && ColonFree(p)
    ensures FromStr(Join(p)) == p
  {
    if p.projects == [] {
      assert FirstColon(p.name) == |p.name|;
    } else {
      var s := Join(p);
      assert s == p.name + ":" + Join(p.projects[0]);
      assert s[|p.name|] == ':';
      assert FirstColon(s) == |p.name|;
      assert s[..|p.name|] == p.name;
      assert s[|p.name| + 1..] == Join(p.projects[0]);
      FromStrJoin(p.projects[0]);
      assert p.projects == [p.projects[0]];
    }
  }

  lemma FromStrEmpty()
    ensures FromStr("") == Project("", [])
  {
  }

  lemma FromStrTrailingColon()
    ensures FromStr("a:") == Project("a", [Project("", [])])
  {
    assert FirstColon("a:") == 1;
    assert "a:"[..1] == "a";
    assert "a:"[2..] == "";
  }
}
