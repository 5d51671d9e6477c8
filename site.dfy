/**
 * main.go's two directory walks, taken apart from their I/O. Each file is
 * dispatched on its extension; what the gather walk does to the metadata
 * stack and the global index, and what the transform walk writes, is
 * recorded as a trace of events in walk order.
 */
module Site {
  import opened Wrappers
  import opened Search
  import opened PathSyntax
  import opened FrontMatter

  /** The file kinds the two walks tell apart by extension. */
  datatype Kind =
    | JsonMetadata      // ".json": a directory-wide metadata fragment
    | HtmlPage          // ".html": a template page with optional front matter
    | MarkdownPage      // ".md": a Markdown page with optional front matter
    | SourceOrTemplate  // ".source", ".template": never output
    | Other             // anything else: copied verbatim

  /** The case of both walks' `switch filepath.Ext(path)` that an extension selects. */
  function KindOf(ext: string): (k: Kind)
    ensures k.JsonMetadata? <==> ext == ".json"
    ensures k.HtmlPage? <==> ext == ".html"
    ensures k.MarkdownPage? <==> ext == ".md"
    ensures k.SourceOrTemplate? <==> ext == ".source" || ext == ".template"
  {
    if ext == ".json" then JsonMetadata
    else if ext == ".html" then HtmlPage
    else if ext == ".md" then MarkdownPage
    else if ext == ".source" || ext == ".template" then SourceOrTemplate
    else Other
  }

  /** Whether the gather walk treats the extension as content (a page for the global index). */
  function IsContent(ext: string): (r: bool)
    ensures r <==> ext == ".html" || ext == ".md"
  {
    KindOf(ext).HtmlPage? || KindOf(ext).MarkdownPage?
  }

  /**
   * The extension the transform walk writes the file under, or None when it
   * writes nothing.
   */
  function OutputExtension(ext: string): (r: Option<string>)
    ensures r.None? <==> ext == ".json" || ext == ".source" || ext == ".template"
    ensures r.Some? ==> r.value == if ext == ".md" then ".html" else ext
  {
    match KindOf(ext)
    case JsonMetadata => None
    case SourceOrTemplate => None
    case MarkdownPage => Some(".html")
    case _ => Some(ext)
  }

  /** A regular file met by the walks (directories only descend and do nothing). */
  datatype SourceFile = SourceFile(path: string, contents: seq<byte>)

  datatype Event =
    /** `s.Add(scope, mustJSON(raw))`: a metadata fragment decoded from `raw`. */
    | AddFragment(scope: string, raw: seq<byte>)
    /** `splatInto(m, ...)`: the page's merged metadata recorded in the global index. */
    | Indexed(source: string, targetExt: string)
    /** `s.Add("", {key: m})`: the global index, at the root scope. */
    | AddGlobalIndex(scope: string, key: string)
    /** The page body rendered as a template, written under `targetExt`. */
    | RenderTemplate(source: string, template: seq<byte>, targetExt: string)
    /** The body rendered from Markdown into the page's template, written under `targetExt`. */
    | RenderMarkdown(source: string, markdown: seq<byte>, targetExt: string)
    /** The file copied byte for byte, under its own extension. */
    | CopyVerbatim(source: string, targetExt: string)
  {
    predicate IsGather() { AddFragment? || Indexed? }
    predicate IsOutput() { RenderTemplate? || RenderMarkdown? || CopyVerbatim? }
    predicate WritesStore() { AddFragment? || AddGlobalIndex? }
  }

  /**
   * The gather walk's work on a file, from its path, directory, extension,
   * contents and the contents split at the front-matter separator.
   */
  function GatherEvents(path: string, dir: string, ext: string, contents: seq<byte>, front: Parts): (es: seq<Event>)
    ensures forall i :: 0 <= i < |es| ==> es[i].IsGather()
    ensures IsContent(ext) <==> |es| > 0 && es[|es| - 1].Indexed?
    ensures IsContent(ext) ==> es[|es| - 1] == Indexed(path, OutputExtension(ext).value)
    ensures forall i :: 0 <= i < |es| && es[i].Indexed? ==> i == |es| - 1
    ensures forall i :: 0 <= i < |es| && es[i].AddFragment? ==> es[i].scope == if ext == ".json" then dir else path
    ensures !IsContent(ext) && ext != ".json" ==> es == []
  {
    match KindOf(ext)
    case JsonMetadata => [AddFragment(dir, contents)]
    case HtmlPage =>
      (if |front.metadata| > 0 then [AddFragment(path, front.metadata)] else []) + [Indexed(path, ext)]
    case MarkdownPage =>
      (if |front.metadata| > 0 then [AddFragment(path, front.metadata)] else []) + [Indexed(path, ".html")]
    case _ => []
  }

  /** The transform walk's work on a file, from its path, extension and split contents. */
  function TransformEvents(path: string, ext: string, front: Parts): (es: seq<Event>)
    ensures es == [] <==> OutputExtension(ext).None?
    ensures es != [] ==>
      |es| == 1 && es[0].IsOutput() && es[0].source == path && es[0].targetExt == OutputExtension(ext).value
    ensures es != [] ==> (es[0].CopyVerbatim? <==> !IsContent(ext))
  {
    match KindOf(ext)
    case JsonMetadata => []
    case HtmlPage => [RenderTemplate(path, front.body, ext)]
    case MarkdownPage => [RenderMarkdown(path, front.body, ".html")]
    case SourceOrTemplate => []
    case Other => [CopyVerbatim(path, ext)]
  }

  /** The gather walk's work on one file. */
  function GatherFile(f: SourceFile): seq<Event>
  {
    GatherEvents(f.path, Dir(f.path), Ext(f.path), f.contents, SplitMetadata(f.contents))
  }

  /** The transform walk's work on one file. */
  function TransformFile(f: SourceFile): seq<Event>
  {
    TransformEvents(f.path, Ext(f.path), SplitMetadata(f.contents))
  }

  /** The gather walk over files in walk order. */
  function GatherAll(files: seq<SourceFile>): seq<Event>
  {
    if files == [] then []
    else GatherAll(files[..|files| - 1]) + GatherFile(files[|files| - 1])
  }

  /** The transform walk over files in walk order. */
  function TransformAll(files: seq<SourceFile>): seq<Event>
  {
    if files == [] then []
    else TransformAll(files[..|files| - 1]) + TransformFile(files[|files| - 1])
  }

  /** `filepath.Walk(sourceDir, gather(s, m))`: the gather walk's events, in walk order. */
  method Gather(files: seq<SourceFile>) returns (trace: seq<Event>)
    ensures trace == GatherAll(files)
    ensures forall i :: 0 <= i < |trace| ==> trace[i].IsGather()
  {
    trace := [];
    for i := 0 to |files|
      invariant trace == GatherAll(files[..i])
    {
      WalkStep(files, i);
      trace := trace + GatherFile(files[i]);
    }
    assert files[..|files|] == files;
    GatherOnlyGathers(files);
  }

  /** `filepath.Walk(sourceDir, transform(s))`: the transform walk's events, in walk order. */
  method Transform(files: seq<SourceFile>) returns (trace: seq<Event>)
    ensures trace == TransformAll(files)
    ensures forall i :: 0 <= i < |trace| ==> trace[i].IsOutput()
  {
    trace := [];
    for i := 0 to |files|
      invariant trace == TransformAll(files[..i])
    {
      WalkStep(files, i);
      trace := trace + TransformFile(files[i]);
    }
    assert files[..|files|] == files;
    TransformOnlyOutputs(files);
  }

  /**
   * `main`: the gather walk, then the global index added at the root scope
   * under `globalKey`, then the transform walk. `files` are the regular
   * files under the source directory in walk order.
   */
  method Build(files: seq<SourceFile>, globalKey: string) returns (trace: seq<Event>)
    ensures trace == GatherAll(files) + [AddGlobalIndex("", globalKey)] + TransformAll(files)
    ensures var g := |GatherAll(files)|;
      g < |trace| && trace[g] == AddGlobalIndex("", globalKey)
      && (forall i :: 0 <= i < g ==> trace[i].IsGather())
      && (forall i :: g < i < |trace| ==> trace[i].IsOutput())
    ensures forall i, j :: 0 <= i < j < |trace| && trace[i].IsOutput() ==> !trace[j].WritesStore()
  {
    var gathered := Gather(files);
    var global := AddGlobalIndex("", globalKey);
    var transformed := Transform(files);
    trace := gathered + [global] + transformed;
    PhasesSeparated(gathered, global, transformed);
  }

  /** Walking one more file appends that file's events. */
  lemma WalkStep(files: seq<SourceFile>, i: int)
    requires 0 <= i < |files|
    ensures GatherAll(files[..i + 1]) == GatherAll(files[..i]) + GatherFile(files[i])
    ensures TransformAll(files[..i + 1]) == TransformAll(files[..i]) + TransformFile(files[i])
  {
    assert files[..i + 1][..i] == files[..i];
  }

  /** Gather events, then the global index, then outputs: no store write follows an output. */
  lemma PhasesSeparated(gs: seq<Event>, global: Event, ts: seq<Event>)
    requires global.AddGlobalIndex?
    requires forall i :: 0 <= i < |gs| ==> gs[i].IsGather()
    requires forall i :: 0 <= i < |ts| ==> ts[i].IsOutput()
    ensures var trace := gs + [global] + ts;
      |gs| < |trace| && trace[|gs|] == global
      && (forall i :: 0 <= i < |gs| ==> trace[i].IsGather())
      && (forall i :: |gs| < i < |trace| ==> trace[i].IsOutput())
    ensures var trace := gs + [global] + ts;
      forall i, j :: 0 <= i < j < |trace| && trace[i].IsOutput() ==> !trace[j].WritesStore()
  {
    var trace := gs + [global] + ts;
    assert forall i :: |gs| < i < |trace| ==> trace[i] == ts[i - |gs| - 1];
    assert forall i :: 0 <= i < |gs| ==> trace[i] == gs[i];
  }

  lemma {:induction false} GatherOnlyGathers(files: seq<SourceFile>)
    ensures forall i :: 0 <= i < |GatherAll(files)| ==> GatherAll(files)[i].IsGather()
  {
    if files != [] {
      var init := files[..|files| - 1];
      GatherOnlyGathers(init);
      var f := files[|files| - 1];
      FileGathers(f);
      ConcatKeeps(GatherAll(init), GatherFile(f), true);
    }
  }

  lemma {:induction false} TransformOnlyOutputs(files: seq<SourceFile>)
    ensures forall i :: 0 <= i < |TransformAll(files)| ==> TransformAll(files)[i].IsOutput()
  {
    if files != [] {
      var init := files[..|files| - 1];
      TransformOnlyOutputs(init);
      var f := files[|files| - 1];
      FileOutputs(f);
      ConcatKeeps(TransformAll(init), TransformFile(f), false);
    }
  }

  lemma FileGathers(f: SourceFile)
    ensures forall i :: 0 <= i < |GatherFile(f)| ==> GatherFile(f)[i].IsGather()
  {
    var es := GatherEvents(f.path, Dir(f.path), Ext(f.path), f.contents, SplitMetadata(f.contents));
    assert GatherFile(f) == es;
  }

  lemma FileOutputs(f: SourceFile)
    ensures forall i :: 0 <= i < |TransformFile(f)| ==> TransformFile(f)[i].IsOutput()
  {
    var es := TransformEvents(f.path, Ext(f.path), SplitMetadata(f.contents));
    assert TransformFile(f) == es;
  }

  /** Gather (or output) events concatenated stay gather (or output) events. */
  lemma ConcatKeeps(xs: seq<Event>, ys: seq<Event>, gather: bool)
    requires forall i :: 0 <= i < |xs| ==> (if gather then xs[i].IsGather() else xs[i].IsOutput())
    requires forall i :: 0 <= i < |ys| ==> (if gather then ys[i].IsGather() else ys[i].IsOutput())
    ensures forall i :: 0 <= i < |xs + ys| ==> (if gather then (xs + ys)[i].IsGather() else (xs + ys)[i].IsOutput())
  {
    forall i | 0 <= i < |xs + ys|
      ensures if gather then (xs + ys)[i].IsGather() else (xs + ys)[i].IsOutput()
    {
      if i < |xs| {
        assert (xs + ys)[i] == xs[i];
      } else {
        assert (xs + ys)[i] == ys[i - |xs|];
      }
    }
  }

  /**
   * The two walks agree on pages: a file enters the global index exactly
   * when the transform walk renders it, and under the extension the render
   * is written with.
   */
  lemma PagesAgree(path: string, dir: string, ext: string, contents: seq<byte>, front: Parts)
    ensures var es, ts := GatherEvents(path, dir, ext, contents, front), TransformEvents(path, ext, front);
      (IsContent(ext) <==> exists e :: e in es && e.Indexed?)
      && (IsContent(ext) <==> |ts| == 1 && !ts[0].CopyVerbatim?)
      && (IsContent(ext) ==> es[|es| - 1] == Indexed(path, ts[0].targetExt))
  {
    var es := GatherEvents(path, dir, ext, contents, front);
    if IsContent(ext) {
      assert es[|es| - 1] in es;
    }
  }

  /** A .json file adds one fragment, scoped to its directory, and is never output. */
  lemma JsonIsDirectoryMetadata(f: SourceFile)
    requires Ext(f.path) == ".json"
    ensures GatherFile(f) == [AddFragment(Dir(f.path), f.contents)]
    ensures TransformFile(f) == []
  {
  }

  /**
   * A page that opens with the separator has empty metadata: no per-file
   * fragment is added, only its index entry.
   */
  lemma LeadingSeparatorAddsNoFragment(path: string, body: seq<byte>)
    requires IsContent(Ext(path))
    ensures OutputExtension(Ext(path)).Some?
    ensures GatherFile(SourceFile(path, FrontSeparator + body)) == [Indexed(path, OutputExtension(Ext(path)).value)]
  {
    LeadingSeparator(body);
  }

  /**
   * A page with front matter adds that front matter as a fragment scoped to
   * the page, then its index entry, and the transform walk renders the body
   * after the separator: as Markdown for .md, as a template for .html.
   */
  lemma PageWithFrontMatter(path: string, m: seq<byte>, b: seq<byte>)
    requires IsContent(Ext(path)) && m != [] && !Contains(m, FrontSeparator)
    ensures OutputExtension(Ext(path)).Some?
    ensures GatherFile(SourceFile(path, m + FrontSeparator + b))
      == [AddFragment(path, m), Indexed(path, OutputExtension(Ext(path)).value)]
    ensures TransformFile(SourceFile(path, m + FrontSeparator + b))
      == [if Ext(path) == ".md" then RenderMarkdown(path, b, ".html") else RenderTemplate(path, b, Ext(path))]
  {
    SplitOfJoin(m, b);
  }

  /**
   * A page without a separator has no front matter: it adds only its index
   * entry, and the whole file is rendered.
   */
  lemma PageWithoutFrontMatter(path: string, c: seq<byte>)
    requires IsContent(Ext(path)) && !Contains(c, FrontSeparator)
    ensures OutputExtension(Ext(path)).Some?
    ensures GatherFile(SourceFile(path, c)) == [Indexed(path, OutputExtension(Ext(path)).value)]
    ensures TransformFile(SourceFile(path, c))
      == [if Ext(path) == ".md" then RenderMarkdown(path, c, ".html") else RenderTemplate(path, c, Ext(path))]
  {
  }

  /** Only .json files and pages add anything in the gather walk; every other file is copied or skipped. */
  lemma OthersGatherNothing(f: SourceFile)
    requires Ext(f.path) != ".json" && !IsContent(Ext(f.path))
    ensures GatherFile(f) == []
    ensures OutputExtension(Ext(f.path)).Some? ==> TransformFile(f) == [CopyVerbatim(f.path, Ext(f.path))]
  {
  }
}
