/**
 * parse.go's ParseSourceFile: compose the file name, split the buffer at
 * the first delimiter, seed the context with the rendered content, decode
 * the metadata as YAML into it, demand the template key and default the
 * output key. Reading the file, YAML decoding, Markdown rendering and
 * Basename are collaborators passed in as functions.
 */
module Parse {
  import opened Wrappers
  import opened Search
  import opened PathSyntax
  import opened FrontMatter

  /** A decoded metadata value. */
  datatype Value =
    | Str(s: string)
    | Num(n: int)
    | Bool(b: bool)
    | Null
    | List(items: seq<Value>)
    | Dict(entries: map<string, Value>)

  type Context = map<string, Value>

  /** What `goyaml.Unmarshal(buf, ctx)` leaves in the context, and whether it succeeded. */
  datatype Decoded = Decoded(ctx: Context, ok: bool)

  /** The collaborators ParseSourceFile reaches through the file system and libraries. */
  datatype Services = Services(
    readFile: string -> Option<seq<byte>>,       // os.Open and ioutil.ReadAll; None when either fails
    renderMarkdown: seq<byte> -> string,         // RenderMarkdown, then strings.TrimSpace
    unmarshal: (seq<byte>, Context) -> Decoded,  // goyaml.Unmarshal into the context
    basename: (string, string) -> string)        // Basename(parentDir, filename)

  datatype ParseError =
    | ReadFailed(path: string)
    | CutoffOutOfRange         // buf[delimiterCutoff:] past the end: a run-time panic
    | YamlInvalid
    | NotProvided(message: string)

  /** How the buffer divides at the delimiter. */
  datatype SourceSplit =
    | Delimited(metadata: seq<byte>, content: seq<byte>)
    | Undelimited
    | CutoffPastEnd

  /**
   * The metadata is everything before the first delimiter; the content
   * starts one byte after it (the newline the delimiter is expected to end
   * with). A delimiter that ends the buffer leaves that cutoff past the end.
   */
  function SplitSource(buf: seq<byte>, delim: seq<byte>): (r: SourceSplit)
    ensures r.Undelimited? <==> !Contains(buf, delim)
    ensures r.CutoffPastEnd? <==> Contains(buf, delim) && forall j :: OccursAt(buf, delim, j) ==> j + |delim| == |buf|
    ensures r.Delimited? ==>
      var idx := |r.metadata|;
      idx + |delim| < |buf| && OccursAt(buf, delim, idx)
      && (forall j :: OccursAt(buf, delim, j) ==> idx <= j)
      && buf == r.metadata + delim + [buf[idx + |delim|]] + r.content
  {
    var idx := IndexOf(buf, delim);
    if idx < 0 then Undelimited
    else if idx + |delim| + 1 > |buf| then CutoffPastEnd
    else
      assert buf == buf[..idx] + delim + [buf[idx + |delim|]] + buf[idx + |delim| + 1..];
      Delimited(buf[..idx], buf[idx + |delim| + 1..])
  }

  /** The bytes handed to the YAML decoder: the metadata part, or the whole buffer. */
  function YamlInput(buf: seq<byte>, split: SourceSplit): seq<byte>
  {
    if split.Delimited? then split.metadata else buf
  }

  /** The context before decoding: the content key holds the rendered content, or "". */
  function Seeded(split: SourceSplit, ckey: string, svc: Services): Context
  {
    if split.Delimited? then map[ckey := Str(svc.renderMarkdown(split.content))] else map[ckey := Str("")]
  }

  /** The decoder never drops a key it was given. */
  ghost predicate KeepsKeys(unmarshal: (seq<byte>, Context) -> Decoded)
  {
    forall b, c :: unmarshal(b, c).ok ==> c.Keys <= unmarshal(b, c).ctx.Keys
  }

  /** The error reported when the template key is missing. */
  function NotProvidedMessage(filename: string, tkey: string): string
  {
    filename + ": '" + tkey + "' not provided"
  }

  /**
   * `ParseSourceFile`: on success the context holds the template key and
   * the output key, and the content key unless the decoder dropped it.
   */
  method ParseSourceFile(
    svc: Services,
    parentDir: string,
    filename: string,
    delim: seq<byte>,
    ckey: string,
    tkey: string,
    okey: string)
    returns (ctx: Context, err: Option<ParseError>)
    ensures var full := WithSlash(parentDir) + filename;
      svc.readFile(full).None? ==> ctx == map[] && err == Some(ReadFailed(full))
    ensures var full := WithSlash(parentDir) + filename;
      svc.readFile(full).Some? && SplitSource(svc.readFile(full).value, delim).CutoffPastEnd? ==>
        ctx == map[] && err == Some(CutoffOutOfRange)
    ensures var full := WithSlash(parentDir) + filename;
      svc.readFile(full).Some? && !SplitSource(svc.readFile(full).value, delim).CutoffPastEnd? ==>
        var buf := svc.readFile(full).value;
        var split := SplitSource(buf, delim);
        var d := svc.unmarshal(YamlInput(buf, split), Seeded(split, ckey, svc));
        (!d.ok ==> ctx == d.ctx && err == Some(YamlInvalid))
        && (d.ok && tkey !in d.ctx ==> ctx == d.ctx && err == Some(NotProvided(NotProvidedMessage(filename, tkey))))
        && (d.ok && tkey in d.ctx ==>
              (err == None && ctx.Keys == d.ctx.Keys + {okey}
               && (forall k :: k in d.ctx ==> ctx[k] == d.ctx[k])
               && (okey !in d.ctx ==> ctx[okey] == Str(svc.basename(WithSlash(parentDir), filename)))))
    ensures err.None? ==> tkey in ctx && okey in ctx
    ensures err.None? && KeepsKeys(svc.unmarshal) ==> ckey in ctx
  {
    ctx := map[];

    var dir := parentDir;
    if !(|dir| > 0 && dir[|dir| - 1] == '/') {
      dir := dir + "/";
    }
    var absFilename := dir + filename;

    var read := svc.readFile(absFilename);
    if read.None? {
      err := Some(ReadFailed(absFilename));
      return;
    }
    var buf := read.value;
    ghost var whole := buf;
    ghost var split := SplitSource(whole, delim);

    var idx := IndexOf(buf, delim);
    if idx >= 0 {
      var delimiterCutoff := idx + |delim| + 1;
      if delimiterCutoff > |buf| {
        assert split == CutoffPastEnd;
        err := Some(CutoffOutOfRange);
        return;
      }
      assert split == Delimited(buf[..idx], buf[delimiterCutoff..]);
      ctx := ctx[ckey := Str(svc.renderMarkdown(buf[delimiterCutoff..]))];
      buf := buf[..idx];
    } else {
      assert split == Undelimited;
      ctx := ctx[ckey := Str("")];
    }
    assert buf == YamlInput(whole, split);
    assert ctx == Seeded(split, ckey, svc);

    var decoded := svc.unmarshal(buf, ctx);
    ctx := decoded.ctx;
    if !decoded.ok {
      err := Some(YamlInvalid);
      return;
    }

    if tkey !in ctx {
      err := Some(NotProvided(NotProvidedMessage(filename, tkey)));
      return;
    }

    if okey !in ctx {
      ctx := ctx[okey := Str(svc.basename(dir, filename))];
    }
    err := None;
  }

  /**
   * Without a delimiter the two splitters disagree on purpose: main.go's
   * treats the whole buffer as body, this one treats it as metadata.
   */
  lemma NoDelimiterConventions(buf: seq<byte>, ckey: string, svc: Services)
    requires !Contains(buf, FrontSeparator)
    ensures SplitMetadata(buf) == Parts([], buf)
    ensures YamlInput(buf, SplitSource(buf, FrontSeparator)) == buf
    ensures Seeded(SplitSource(buf, FrontSeparator), ckey, svc) == map[ckey := Str("")]
  {
  }
}
