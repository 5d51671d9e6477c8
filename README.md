# grender core, modelled in Dafny

grender is a static-site builder. It makes two walks over a source tree.
The gather walk turns every `.json` file into a metadata fragment scoped to
its directory. It turns the front matter of every `.html` and `.md` page
into a fragment scoped to the page, and records each page in a global index.
The global index is then added at the root scope. The transform walk renders
pages, skips metadata and `.source`/`.template` files, and copies everything
else verbatim.

This project models the logic around those walks:

- the front-matter splitter of main.go;
- the extension dispatch of both walks and the order of their effects, as
  a trace of events;
- the path helpers of util.go;
- the context construction of parse.go's `ParseSourceFile`.

Modules:

- `Search`: Go's `strings.Index`/`bytes.SplitN` search (`IndexOf`), and the
  `byte` type of buffers.
- `PathSyntax`: Go's `path.Dir`, `path.Base` and `path.Ext` on clean
  slash-separated paths, the token list of a path, and its inverse `Join`.
- `Util`: util.go (`TokenizePath`, `Reverse`, `Equal`, `ShouldDescend`,
  `SplitAtExtension`, `StripExtension`, `Subpath`).
- `FrontMatter`: `splitMetadata` and `FrontSeparator` (`"---\n"`).
- `Site`: the dispatch of `gather` and `transform`, and `main`'s two walks
  (`Gather`, `Transform`, `Build`) as event traces.
- `Parse`: `ParseSourceFile`. Reading the file, YAML decoding, Markdown
  rendering and `Basename` are passed in as functions (`Services`).

The model follows the code in three places a reader might not expect:

- only `.json` files are directory metadata (YAML manifests are not
  recognised);
- a page adds a per-file fragment only when its metadata part is non-empty;
- `.source` and `.template` files are neither gathered nor output.

The two splitters are kept apart on purpose. main.go's splitter treats a
buffer without a separator as all body. parse.go's splitter treats it as all
metadata, with empty content (`Parse.NoDelimiterConventions`).

In parse.go, the content starts one byte past the delimiter. When the
delimiter ends the buffer, that cutoff is past the end and Go panics. The
model returns this as the `CutoffOutOfRange` error.

## Model

| member | source | states |
|---|---|---|
| Search.IndexOf | parse.go:50 | the result is -1 exactly when the pattern does not occur; otherwise the pattern occurs there and at no earlier position |
| FrontMatter.SplitMetadata | main.go:49-55 | without a separator the metadata is empty and the body is the whole buffer; with one, metadata ++ "---\n" ++ body is the buffer and the cut is at the first separator |
| FrontMatter.MetadataHasNoSeparator | main.go:50 | the metadata part never contains the separator |
| FrontMatter.SplitOfJoin | main.go:50-52 | splitting m ++ "---\n" ++ b gives back (m, b) whenever m holds no separator, even if b does: split inverts join |
| FrontMatter.LeadingSeparator | main.go:74-78 | a buffer that opens with the separator has empty metadata and the rest as body |
| FrontMatter.BodyKeepsLaterSeparator | main.go:50 | SplitN with limit 2 cuts once: for any separator-free metadata, a second separator stays at the head of the body |
| Site.KindOf | main.go:62-147 | each extension selects exactly one case of the two switches: .json, .html, .md, .source/.template, or the default |
| Site.GatherEvents | main.go:62-99 | the gather walk adds only fragments and index entries; a file is indexed exactly when it is a page, once and last, under its output extension; a fragment is scoped to the directory for .json and to the file for a page; any other file adds nothing |
| Site.TransformEvents | main.go:111-147 | the transform walk writes nothing exactly when OutputExtension gives none; otherwise it writes one output for this file under OutputExtension's extension, a render for a page and a verbatim copy otherwise |
| Site.IsContent | main.go:62-99 | the gather walk treats a file as a page exactly when its extension is .html or .md |
| Site.OutputExtension | main.go:111-147 | nothing is output exactly for .json, .source and .template; .md is output as .html; any other extension is kept |
| Site.JsonIsDirectoryMetadata | main.go:63-66 | a .json file adds one fragment scoped to its containing directory, and the transform walk outputs nothing for it |
| Site.PageWithFrontMatter | main.go:68-138 | a page whose metadata part m is non-empty adds the fragment m scoped to the page, then its index entry; the transform walk renders the body after the separator, as Markdown into .html for .md and as a template for .html |
| Site.PageWithoutFrontMatter | main.go:68-138 | a page without a separator adds only its index entry, and the whole file is rendered, as Markdown for .md and as a template for .html |
| Site.LeadingSeparatorAddsNoFragment | main.go:74-78 | a page opening with the separator adds no per-file fragment, only its index entry |
| Site.OthersGatherNothing | main.go:98-146 | a file that is neither .json nor a page adds nothing in the gather walk and, unless .source/.template, is copied verbatim |
| Site.PagesAgree | main.go:68-138 | a file is recorded in the global index exactly when the transform walk renders it, and the index entry's target extension is the one the render is written under |
| Site.Gather | main.go:57-104 | the gather walk yields each file's gather events in walk order, and only stack additions and index entries |
| Site.Transform | main.go:106-150 | the transform walk yields each file's outputs in walk order, and only renders and copies |
| Site.Build | main.go:37-44 | main runs the whole gather walk, then adds the global index at scope "" under the configured key, then the transform walk; no stack write follows any output |
| Site.PhasesSeparated | main.go:40-43 | gather events, then the global index, then outputs: the index sits between the walks and no store write follows an output |
| PathSyntax.Dir | util.go:61 | `path.Dir`: "." when there is no slash, "/" when the last slash is the root, otherwise everything before the last slash |
| PathSyntax.Base | util.go:61 | `path.Base`: on any path but "/", everything after the last slash, a suffix holding no slash |
| PathSyntax.Ext | util.go:73 | the extension is empty or starts with '.', is a suffix of the name, holds no other '.' or '/', and is empty only when the last element has no '.' |
| PathSyntax.BaseAtRoot | util.go:62-64 | the loop's exit test (Base is "." or "/") holds exactly when the path is "." or "/" |
| PathSyntax.DirBase | util.go:60-66 | one step of the loop: Base is a real element, Dir is clean and keeps the root, and the path's tokens are Dir's tokens plus Base |
| PathSyntax.JoinTokens | util.go:57-70 | the tokens, joined by slashes, give back the path without its leading slash |
| PathSyntax.TokensInjective | util.go:28-37 | two absolute clean paths have the same tokens exactly when they are the same path |
| PathSyntax.WithSlash | parse.go:31-34 | a '/' is appended exactly when the directory does not already end in one; the directory is kept as a prefix |
| Util.TokenizePath | util.go:57-70 | the result is the path's token list, root first; it joins back to the path, and no token is "", ".", ".." or "/" |
| Util.TokenizeTurn | util.go:59-67 | one turn of the loop: when Base is "." or "/" every element has been collected; otherwise the invariant is kept and the token list shrinks |
| Util.TokenizeStep | util.go:59-67 | each turn keeps "tokens(s) = tokens(p) ++ reversed(collected)" and shortens p's token list, so the loop ends |
| Util.TokensAreElements | util.go:62-65 | no token is "", ".", "..", or contains '/' |
| Util.ReverseCopy | util.go:68 | the collected elements come back in reverse order, as `reverse(a)` leaves the slice |
| Util.Reverse | util.go:95-99 | the array afterwards holds the reversal of its old contents |
| Util.ReversedAt | util.go:95-99 | position i of the reversal holds the old element at len-1-i, and the length is unchanged |
| Util.ReversedTwice | util.go:95-99 | reversing twice restores the original |
| Util.Equal | util.go:83-93 | true exactly when the lengths match and every position holds equal strings |
| Util.ShouldDescend | util.go:28-37 | true exactly when the directory's token list is a strict prefix of the file's; false when they are equal or the directory's is longer |
| Util.SplitAtExtension | util.go:72-76 | base ++ ext is the name, and ext is the path extension: empty or starting with '.' and holding no '/' |
| Util.StripExtension | util.go:78-81 | the result is the base part of SplitAtExtension, so result ++ extension is the name |
| Util.Subpath | util.go:50-54 | not-under exactly when the directory is not a string prefix of the file; out of range exactly when they are equal; otherwise the file is dir ++ one character ++ result |
| Util.SubpathAcceptsSibling | util.go:50-54 | "/a/bc/x" is accepted under "/a/b" (giving "/x"), and under "/" the file "/x" gives "" |
| Util.SubpathUnder | util.go:39-55 | corrected: defined exactly when dir plus '/' is a strict prefix of the file; then dir plus '/' ++ result is the file and the result is non-empty |
| Util.DescendIffUnder | util.go:28-54 | for absolute clean paths, the corrected Subpath is defined exactly when ShouldDescend holds |
| Parse.SplitSource | parse.go:50-58 | undelimited exactly when the delimiter is absent; cutoff past the end exactly when the delimiter ends the buffer; otherwise metadata is the text before the first delimiter and content starts one byte after it |
| Parse.ParseSourceFile | parse.go:20-77 | the name is dir-with-slash ++ filename; read failures, the out-of-range cutoff, YAML failures and a missing template key are errors (the last naming the file and key); on success the template and output keys are present, an existing output key is unchanged, a missing one gets Basename, and the content key is present when the decoder keeps keys |
| Parse.NoDelimiterConventions | parse.go:56-58 | without a delimiter, main.go's splitter yields all body, while this one hands the whole buffer to YAML and sets the content to "" |

## Left out

- File system access is not modelled: the walks, `mustRead`, `mustWrite`, `mustCopy`, `os.Open`/`ReadAll` and `RecursiveCopy` (which runs `cp`). A walk is given as the list of its regular files in walk order. Directories only descend, so they produce nothing.
- Site: each `SourceFile` carries its contents, so a failing `mustRead`, which ends the run, is not modelled. Only `Parse` models a read that fails (`Services.readFile`).
- The metadata stack (`NewStack`, `Add`, `Get`) and `mergemap.Merge` are defined outside the modelled files. The model records each `Add` as an event carrying the scope and the raw bytes to decode. It does not model what `Get` or `Merge` return.
- `mustJSON`, `splatInto`, `diffPath`, `targetFor`, `mustTemplate` and `Basename` are defined outside the modelled files or are library wrappers. Events carry the source path and the target extension in place of target paths and decoded maps. A JSON decoding failure, which aborts the run, is not modelled.
- Template execution (`renderTemplate`, the import helpers, render.go) and Markdown rendering (blackfriday) are library code. The model only records that a page is rendered, and with what body.
- Logging and CLI flag parsing are not modelled. The global key (the flag's default is `"files"`) is a parameter of `Site.Build`.
- Site: the walk's paths are taken as `filepath.Walk` yields them, which are clean. `PathSyntax.Dir` and `PathSyntax.Base` compute Go's `path.Dir` and `path.Base` only on clean paths, and the model does not promise them elsewhere.
- Util.Subpath: `filepath.Abs` depends on the working directory, and it also cleans its result. Both paths are therefore taken as already absolute and clean (`requires IsAbsClean`); what Go does with other inputs is not modelled.
- Util.Subpath: paths are sequences of characters, so the one byte dropped after the directory is one character. After a multi-byte UTF-8 character, Go drops only its first byte.
- Util.TokenizePath: requires an already clean path (no `.` or `..` element, no doubled or trailing slash), on which `path.Clean` is the identity. The general `path.Clean` rules are not modelled.
- Util.ShouldDescend: requires clean paths, like Util.TokenizePath.
- Parse.ParseSourceFile: `goyaml.Unmarshal` is an opaque function of the buffer and the seeded context. So the content key is promised only for a decoder that keeps the keys it was given. `RenderMarkdown` followed by `strings.TrimSpace` is one opaque function.

## Findings

| source | as written | input that shows it | evidently intended | confidence | as-written member | corrected member |
|---|---|---|---|---|---|---|
| util.go:50-54 | the directory is tested as a string prefix, then one more character is dropped | `Subpath("/a/b", "/a/bc/x")` returns `"/x"`; `Subpath("/", "/x")` returns `""` | a file outside the directory is reported as not under it; a file under `/` keeps its first character | medium, not executed | Util.SubpathAcceptsSibling | Util.SubpathUnder |
