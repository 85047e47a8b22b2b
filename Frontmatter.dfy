/**
 * The front-matter adder of local-instances/add_mcp_frontmatter.py: it
 * decides whether a markdown document already opens with YAML front matter
 * and, if not, derives a header (type, project, tags, category, status,
 * priority) from the file's path, name and content and prepends it.
 * A path is given by its components, as `Path.parts` lists them.
 */
module Frontmatter {
  import opened Wrappers
  import opened Strings
  import opened Sorting

  /** The document already has front matter: its stripped text starts with `---`. */
  predicate HasFrontmatter(content: string) {
    StartsWith(Strip(content), "---")
  }

  /**
   * Only the leading whitespace matters to the front-matter test: the
   * trailing strip cannot reach a fence at the front.
   */
  lemma HasFrontmatterLeading(content: string)
    ensures HasFrontmatter(content) <==> StartsWith(LStrip(content), "---")
  {
    var t := LStrip(content);
    var r := RStrip(t);
    RStripSpec(t);
    if |r| >= 3 {
      assert r[..3] == t[..|r|][..3];
    }
    if StartsWith(t, "---") {
      assert !IsSpace(t[2]) by { assert t[2] == t[..3][2]; }
      assert |r| >= 3;
      assert r[..3] == t[..|r|][..3];
    }
  }

  /** `Path.name`: the last component. */
  function FileName(path: seq<string>): string {
    if |path| == 0 then "" else path[|path| - 1]
  }

  /** The component right after the first `mcp-servers`, else `local-instances`. */
  function DetectProject(path: seq<string>): (r: string)
    ensures "mcp-servers" !in path ==> r == "local-instances"
    ensures forall i :: 0 <= i < |path| && path[i] == "mcp-servers" && "mcp-servers" !in path[..i] ==>
              r == if i + 1 < |path| then path[i + 1] else "local-instances"
  {
    match IndexOf(path, "mcp-servers")
    case None => "local-instances"
    case Some(i) =>
      assert forall j :: 0 <= j < i ==> path[j] == path[..i][j];
      if i + 1 < |path| then path[i + 1] else "local-instances"
  }

  const DocTypes: set<string> := {"readme", "guide", "specification", "template", "reference"}

  /** The document type: the first file-name rule that applies wins. */
  function InferType(filename: string, content: string): (r: string)
    ensures r in DocTypes
    ensures r == "readme" <==> Lower(filename) == "readme.md"
    ensures Lower(filename) != "readme.md" && Contains(Lower(filename), "guide") ==> r == "guide"
    ensures Lower(filename) != "readme.md" && !Contains(Lower(filename), "guide") && Contains(Lower(filename), "spec") ==>
              r == "specification"
  {
    var name := Lower(filename);
    if name == "readme.md" then "readme"
    else if Contains(name, "guide") then "guide"
    else if Contains(name, "spec") || Contains(name, "specification") then "specification"
    else if Contains(name, "template") then "template"
    else if Contains(name, "workflow") then "guide"
    else if Contains(name, "troubleshooting") then "reference"
    else if Contains(name, "installation") || Contains(name, "setup") then "guide"
    else if Contains(name, "test") then "specification"
    else "reference"
  }

  /** The content argument plays no part in the document type. */
  lemma InferTypeIgnoresContent(filename: string, c1: string, c2: string)
    ensures InferType(filename, c1) == InferType(filename, c2)
  {
  }

  /** Tag patterns matched against the lowercased file name, in the source's order. */
  const FilenameTagPatterns: seq<(string, seq<string>)> := [
    ("installation", ["installation", "setup"]),
    ("workflow", ["workflow", "process"]),
    ("guide", ["guide", "tutorial"]),
    ("specification", ["specification", "spec"]),
    ("troubleshooting", ["troubleshooting", "debugging"]),
    ("template", ["template", "pattern"]),
    ("test", ["testing", "validation"]),
    ("integration", ["integration", "cross-server"]),
    ("verification", ["verification", "validation"]),
    ("quick", ["quick-start", "getting-started"])
  ]

  /** Tag patterns matched against the lowercased first 500 characters of the content. */
  const ContentTagPatterns: seq<(string, seq<string>)> := [
    ("automation", ["automat", "script"]),
    ("configuration", ["config", "settings"]),
    ("deployment", ["deploy", "production"]),
    ("documentation", ["document", "readme"]),
    ("API", ["api", "endpoint"]),
    ("workflow", ["workflow", "process"])
  ]

  predicate AnyKeyword(keywords: seq<string>, text: string) {
    exists k :: k in keywords && Contains(text, k)
  }

  /** The tags of the patterns one of whose keywords occurs in `text`. */
  function MatchedTags(patterns: seq<(string, seq<string>)>, text: string): set<string> {
    set i | 0 <= i < |patterns| && AnyKeyword(patterns[i].1, text) :: patterns[i].0
  }

  lemma MatchedTagsSnoc(patterns: seq<(string, seq<string>)>, i: nat, text: string)
    requires i < |patterns|
    ensures MatchedTags(patterns[..i + 1], text)
         == MatchedTags(patterns[..i], text) + (if AnyKeyword(patterns[i].1, text) then {patterns[i].0} else {})
  {
    var p := patterns[..i + 1];
    assert p[..i] == patterns[..i];
  }

  /** The first 500 characters, `content[:500]`. */
  function Sample(content: string): string {
    if |content| <= 500 then content else content[..500]
  }

  /**
   * The tag made from the project name: drop `-mcp-server`, turn `-` into a
   * space, title-case, lowercase, turn spaces into `-`. `title()` is left out:
   * the lowercasing right after it undoes it.
   *
   * Net effect: lowercase, drop `-mcp-server`, and map spaces to `-` (the
   * hyphens that went to spaces come back), so the tag holds no upper-case
   * letter and no space.
   */
  function ProjectTag(project: string): (r: string)
    ensures r == MapChar(Lower(Replace(project, "-mcp-server", "")), ' ', '-')
    ensures forall i :: 0 <= i < |r| ==> !IsUpper(r[i]) && r[i] != ' '
  {
    var x := Replace(project, "-mcp-server", "");
    ReplaceOneChar(x, '-', ' ');
    var y := Lower(MapChar(x, '-', ' '));
    ReplaceOneChar(y, ' ', '-');
    assert MapChar(y, ' ', '-') == MapChar(Lower(x), ' ', '-');
    var cleaned := Replace(x, "-", " ");
    Replace(Lower(cleaned), " ", "-")
  }

  /** The tags contributed by the project name alone. */
  function ProjectNameTags(project: string): set<string> {
    var lp := Lower(project);
    (if Contains(lp, "mcp") then {"MCP"} else {}) + (if Contains(lp, "server") then {"mcp-server"} else {})
  }

  /** The set of tags before sorting and truncation. */
  function TagSet(filename: string, project: string, content: string): set<string> {
    ProjectNameTags(project)
    + MatchedTags(FilenameTagPatterns, Lower(filename))
    + MatchedTags(ContentTagPatterns, Lower(Sample(content)))
    + {ProjectTag(project)}
  }

  /** `sorted(list(tags))[:8]`. */
  ghost function Tags(filename: string, project: string, content: string): seq<string> {
    SmallestOf(TagSet(filename, project, content), 8)
  }

  /**
   * The tags are strictly ascending (so free of repeats), at most eight, all
   * drawn from the tag set, all of it when it has at most eight members, and
   * otherwise its eight smallest; the project tag is always a candidate.
   */
  lemma TagsSpec(filename: string, project: string, content: string)
    ensures var tags := Tags(filename, project, content);
      && StrictlySorted(tags)
      && |tags| == (if |TagSet(filename, project, content)| <= 8 then |TagSet(filename, project, content)| else 8)
      && (forall t :: t in tags ==> t in TagSet(filename, project, content))
      && (|TagSet(filename, project, content)| <= 8 ==> forall t :: t in TagSet(filename, project, content) ==> t in tags)
      && (forall t, u :: t in TagSet(filename, project, content) && t !in tags && u in tags ==> Less(u, t))
      && ProjectTag(project) in TagSet(filename, project, content)
  {
    SmallestOfSpec(TagSet(filename, project, content), 8);
  }

  /** `MCP` is among the candidate tags exactly when the lowercased project mentions `mcp`. */
  lemma McpTag(filename: string, project: string, content: string)
    ensures "MCP" in TagSet(filename, project, content) <==> Contains(Lower(project), "mcp")
  {
    assert |ProjectTag(project)| > 0 ==> !IsUpper(ProjectTag(project)[0]);
    assert forall i :: 0 <= i < |FilenameTagPatterns| ==> FilenameTagPatterns[i].0 != "MCP";
    assert forall i :: 0 <= i < |ContentTagPatterns| ==> ContentTagPatterns[i].0 != "MCP";
  }

  /** One pass over a pattern table: adds the tag of every pattern with a keyword in `text`. */
  method AddMatchedTags(found: seq<string>, patterns: seq<(string, seq<string>)>, text: string)
    returns (r: seq<string>)
    requires StrictlySorted(found)
    ensures StrictlySorted(r)
    ensures Elems(r) == Elems(found) + MatchedTags(patterns, text)
  {
    r := found;
    for i := 0 to |patterns|
      invariant StrictlySorted(r)
      invariant Elems(r) == Elems(found) + MatchedTags(patterns[..i], text)
    {
      MatchedTagsSnoc(patterns, i, text);
      if AnyKeyword(patterns[i].1, text) {
        InsertElems(r, patterns[i].0);
        r := Insert(r, patterns[i].0);
      }
    }
    assert patterns[..|patterns|] == patterns;
  }

  /** The first two checks of `extract_tags`, on the lowercased project name. */
  method AddProjectNameTags(project: string) returns (found: seq<string>)
    ensures StrictlySorted(found)
    ensures Elems(found) == ProjectNameTags(project)
  {
    found := [];
    var lp := Lower(project);
    if Contains(lp, "mcp") {
      InsertElems(found, "MCP");
      found := Insert(found, "MCP");
    }
    if Contains(lp, "server") {
      InsertElems(found, "mcp-server");
      found := Insert(found, "mcp-server");
    }
  }

  /** Cutting the sorted listing of the tag set to eight gives the tags. */
  lemma TruncatedListing(found: seq<string>, filename: string, project: string, content: string)
    requires StrictlySorted(found)
    requires Elems(found) == TagSet(filename, project, content)
    ensures (if |found| <= 8 then found else found[..8]) == Tags(filename, project, content)
  {
    var all := TagSet(filename, project, content);
    assert forall y :: y in found <==> y in Elems(found);
    SortedUnique(found, SortedOf(all));
  }

  /**
   * The tag list: the set is kept as its strictly sorted listing (inserting
   * an element already there changes nothing, as `set.add` does), filled by
   * one loop per pattern table, then cut to eight.
   */
  method ExtractTags(filename: string, project: string, content: string) returns (tags: seq<string>)
    ensures tags == Tags(filename, project, content)
    ensures StrictlySorted(tags) && |tags| <= 8
  {
    var found := AddProjectNameTags(project);
    found := AddMatchedTags(found, FilenameTagPatterns, Lower(filename));
    found := AddMatchedTags(found, ContentTagPatterns, Lower(Sample(content)));
    InsertElems(found, ProjectTag(project));
    found := Insert(found, ProjectTag(project));
    assert Elems(found) == TagSet(filename, project, content);
    TruncatedListing(found, filename, project, content);
    tags := if |found| <= 8 then found else found[..8];
    SmallestOfSpec(TagSet(filename, project, content), 8);
  }

  const Statuses: set<string> := {"draft", "completed", "in-progress"}

  /** The document status from its name first, then its content. */
  function DetermineStatus(content: string, filename: string): (r: string)
    ensures r in Statuses
    ensures r == "draft" <==> Contains(Lower(filename), "wip") || Contains(Lower(filename), "draft")
    ensures r == "in-progress" <==>
              && !Contains(Lower(filename), "wip") && !Contains(Lower(filename), "draft")
              && (Contains(Lower(filename), "template") || Contains(Lower(filename), "test"))
              && !Contains(Lower(content), "complete") && !Contains(Lower(content), "production ready")
  {
    MissingCharNotContained("readme.md", "template", 't');
    MissingCharNotContained("readme.md", "test", 't');
    if Contains(Lower(filename), "wip") || Contains(Lower(filename), "draft") then "draft"
    else
      var text := Lower(content);
      if Contains(text, "complete") || Contains(text, "production ready") then "completed"
      else if Lower(filename) == "readme.md" then "completed"
      else if Contains(Lower(filename), "template") || Contains(Lower(filename), "test") then "in-progress"
      else "completed"
  }

  /** The priority: `high` for READMEs, set-up and troubleshooting files, guides and specifications. */
  function DeterminePriority(filename: string, docType: string): (r: string)
    ensures r in {"high", "medium"}
    ensures r == "high" <==>
              || Lower(filename) == "readme.md"
              || Contains(Lower(filename), "installation") || Contains(Lower(filename), "setup")
              || Contains(Lower(filename), "troubleshooting")
              || docType in {"guide", "specification"}
  {
    var name := Lower(filename);
    if name == "readme.md" then "high"
    else if Contains(name, "installation") || Contains(name, "setup") then "high"
    else if Contains(name, "troubleshooting") then "high"
    else if docType in {"guide", "specification"} then "high"
    else if Contains(name, "template") || Contains(name, "example") then "medium"
    else "medium"
  }

  datatype Header = Header(docType: string, project: string, tags: seq<string>, category: string, status: string, priority: string)

  /**
   * The front-matter text: `---`, seven `key: value` lines, `---` and a blank
   * line. It opens with the fence line and closes with the fence and the
   * blank line.
   */
  function Render(h: Header): (r: string)
    ensures |r| >= 10 && r[..4] == "---\n" && r[|r| - 6..] == "\n---\n\n"
  {
    "---" + "\ntype: " + h.docType
    + "\nphase: stable\nproject: " + h.project
    + "\ntags: [" + Join(h.tags, ", ")
    + "]\ncategory: " + h.category
    + "\nstatus: " + h.status
    + "\npriority: " + h.priority
    + "\n---\n\n"
  }

  /** The header `generate_frontmatter` derives for a file. */
  ghost function HeaderFor(path: seq<string>, content: string): (h: Header)
    ensures h.docType in DocTypes && h.status in Statuses && h.priority in {"high", "medium"}
    ensures h.category in {"mcp-servers", "tools"}
    ensures h.category == "mcp-servers" <==> Contains(h.project, "mcp-server")
    ensures StrictlySorted(h.tags) && |h.tags| <= 8
  {
    var name := FileName(path);
    var project := DetectProject(path);
    var docType := InferType(name, content);
    TagsSpec(name, project, content);
    Header(docType, project, Tags(name, project, content),
           if Contains(project, "mcp-server") then "mcp-servers" else "tools",
           DetermineStatus(content, name), DeterminePriority(name, docType))
  }

  ghost function Frontmatter(path: seq<string>, content: string): string {
    Render(HeaderFor(path, content))
  }

  /** Prepending the generated front matter always makes the front-matter test succeed. */
  lemma FrontmatterDetected(path: seq<string>, content: string)
    ensures HasFrontmatter(Frontmatter(path, content) + content)
  {
    FenceOpens(Frontmatter(path, content), content);
  }

  /** Text that opens with the fence line has front matter, whatever follows. */
  lemma FenceOpens(fm: string, content: string)
    requires |fm| >= 4 && fm[..4] == "---\n"
    ensures HasFrontmatter(fm + content)
  {
    var s := fm + content;
    assert s[..3] == fm[..4][..3];
    FenceSurvivesStrip(s);
  }

  method GenerateFrontmatter(path: seq<string>, content: string) returns (fm: string)
    ensures fm == Frontmatter(path, content)
    ensures HasFrontmatter(fm + content)
  {
    var name := FileName(path);
    var project := DetectProject(path);
    var docType := InferType(name, content);
    var tags := ExtractTags(name, project, content);
    var status := DetermineStatus(content, name);
    var priority := DeterminePriority(name, docType);
    var category := if Contains(project, "mcp-server") then "mcp-servers" else "tools";
    fm := Render(Header(docType, project, tags, category, status, priority));
    FrontmatterDetected(path, content);
  }

  /** What processing does to a file's content: None when it is skipped, else the new content. */
  ghost function Processed(path: seq<string>, content: string): Option<string> {
    if HasFrontmatter(content) then None else Some(Frontmatter(path, content) + content)
  }

  /** Processing is idempotent: content written once is skipped the next time, under any path. */
  lemma ProcessedIdempotent(path: seq<string>, content: string, path': seq<string>)
    ensures Processed(path, content).Some? ==> Processed(path', Processed(path, content).value).None?
  {
    FrontmatterDetected(path, content);
  }

  /** The adder with its three counters. */
  class FrontmatterAdder {
    var processed: nat
    var skipped: nat
    var errors: nat

    constructor ()
      ensures processed == 0 && skipped == 0 && errors == 0
    {
      processed, skipped, errors := 0, 0, 0;
    }

    function Total(): nat
      reads this
    {
      processed + skipped + errors
    }

    /**
     * Processes one file whose read gave `read` (None when reading raised).
     * Exactly one counter goes up; skipped files are not written; processed
     * files get the front matter followed by their unchanged content.
     */
    method ProcessFile(path: seq<string>, read: Option<string>) returns (changed: bool, written: Option<string>)
      modifies this
      ensures Total() == old(Total()) + 1
      ensures read.None? ==> errors == old(errors) + 1 && processed == old(processed) && skipped == old(skipped)
                             && !changed && written.None?
      ensures read.Some? && HasFrontmatter(read.value) ==>
                skipped == old(skipped) + 1 && processed == old(processed) && errors == old(errors)
                && !changed && written.None?
      ensures read.Some? && !HasFrontmatter(read.value) ==>
                processed == old(processed) + 1 && skipped == old(skipped) && errors == old(errors)
                && changed && written == Some(Frontmatter(path, read.value) + read.value)
      ensures read.Some? ==> written == Processed(path, read.value)
    {
      if read.None? {
        errors := errors + 1;
        return false, None;
      }
      var content := read.value;
      if HasFrontmatter(content) {
        skipped := skipped + 1;
        return false, None;
      }
      var fm := GenerateFrontmatter(path, content);
      processed := processed + 1;
      return true, Some(fm + content);
    }
  }
}
