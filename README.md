# PaperEnhance in Dafny

PaperEnhance is a command-line tool: `PaperEnhance <input_file> <output_file> [key=value ...]`.
It runs a photographed document through CoreImage's document-enhancement filter. On request it
inverts the colours (`invert=true`). With `mask=true`, which forces PNG output with alpha, it
blends through a red mask: the mask is always the enhanced image, and the background is the
inverted image when `invert` is set and the enhanced image otherwise. It then writes a PNG or a
JPEG. This project
models the deterministic logic around the imaging calls and proves what that logic does:

- **Segments** (`segments.dfy`): Swift's `split(separator:)`, which omits empty pieces, and
  `joined(separator:)`. `Split` is a scan over the string. It is proved equal to the lossless
  split `Fields` with the empty pieces dropped, and `Fields` is proved lossless and invertible.
- **OutputFormat** (`output_format.dfy`): `isPNG_Out` and `reformatToPNG`. `reformatToPNG` keeps
  the non-empty `.`-segments and replaces the last one by `png`. So `"./out.jpg"` becomes
  `"/out.png"`, `"a..b.jpg"` becomes `"a.b.png"` and `"out"` becomes `"png"`. A name with no
  non-dot character would make `removeLast` trap, which is its precondition.
- **Arguments** (`arguments.dfy`): the `reduce(into:)` that folds the arguments after the first
  three into a dictionary (a loop method proved against the fold `Options`), Swift's
  `Bool(String)`, and the `amount` fallback to 10.0.
- **Pipeline** (`pipeline.dfy`): the top-level script as the method `Run`. It checks the argument
  count, resolves the options and builds the filter chain (`ApplyFilters`). Then it chooses the
  output path and encoding and asks the host to rasterise, encode and write (`Save`). Filters are
  uninterpreted constructors over image terms (`Load`, `Enhance`, `Invert`, `Blend`). The imaging
  library and the file system are a `Host` value, given as a parameter. It says which input
  loads, which named filter exists, which filter output, rasterisation, encoding and write
  succeeds, and what `Double(String)` returns.

The model follows the code in these points, some of which a reader might not expect:

- The code has no grayscale and no colour-controls stage. The blend's mask is the enhanced image.
- An unmasked `"x.PNG"` is PNG by its extension. It is therefore rewritten to `"x.png"`, not left
  as it is.
- A masked run whose output name has no extension gets the name `"png"` (`"out"` becomes
  `"png"`). If the name is empty or made only of dots, a masked run whose load and filter steps
  all succeed traps in `removeLast` instead of exiting with status 1. A failing load or filter
  step still exits with status 1 first.
- The rewrite works on the whole output path, not only the file name, so `"./out.jpg"` is written
  as `"/out.png"`. A dot in a directory name is kept when the file name has a dot of its own
  (`"my.dir/out.jpg"` becomes `"my.dir/out.png"`). When it does not, the path is cut after that
  dot (masked, `"v1.2/scan"` becomes `"v1.png"`). This is the code's behaviour, and the model
  keeps it.

## Model

| member | source | states |
|---|---|---|
| `Segments.Split` | PaperEnhance/main.swift:27 | every piece of Swift's `split(separator:)` is non-empty and free of the separator |
| `Segments.SplitFrom` | PaperEnhance/main.swift:32 | the scan behind `split` yields only non-empty, separator-free pieces |
| `Segments.Fields` | PaperEnhance/main.swift:32 | the lossless split (empty pieces kept) has at least one piece, none with the separator |
| `Segments.Join` | PaperEnhance/main.swift:35 | `joined(separator:)`; its contract states only that the result starts with the first part (the separator count is `JoinSeparators`, the inverse `FieldsJoin` and `SplitJoin`) |
| `Segments.JoinSeparators` | PaperEnhance/main.swift:35 | a join of separator-free parts holds exactly one separator fewer than there are parts |
| `Segments.SplitIsNonEmptyFields` | PaperEnhance/main.swift:32 | `split` equals the lossless split with its empty pieces omitted |
| `Segments.JoinFields` | PaperEnhance/main.swift:35 | joining the lossless split with the separator gives back the original string |
| `Segments.FieldsJoin` | PaperEnhance/main.swift:35 | the lossless split of a join of separator-free parts gives back the parts |
| `Segments.SplitEmptyIff` | PaperEnhance/main.swift:32-33 | `split` yields no piece (so `removeLast` traps) exactly when every character is a separator |
| `Segments.SplitAtSep` | PaperEnhance/main.swift:32 | `split(a + sep + b)` is `split(a)` followed by `split(b)` |
| `Segments.SplitTrailing` | PaperEnhance/main.swift:27 | trailing separators add no piece |
| `Segments.SplitOfRun` | PaperEnhance/main.swift:27 | a non-empty separator-free string splits to itself alone |
| `Segments.SplitJoin` | PaperEnhance/main.swift:35 | splitting a join of non-empty separator-free parts gives back the parts |
| `Segments.LastPiece` | PaperEnhance/main.swift:27 | the last piece is the final separator-free run before any trailing separators |
| `OutputFormat.LowerChar` | PaperEnhance/main.swift:27 | `lowercased()` on one character turns a capital into the small letter at the same place in the alphabet and changes nothing else |
| `OutputFormat.FoldsTo` | PaperEnhance/main.swift:27 | a character lowercases to a given small letter exactly when it is that letter or its capital |
| `OutputFormat.LowerIsPNG` | PaperEnhance/main.swift:27-28 | a string lowercases to `png` exactly when it is p, n, g, each letter in either case |
| `OutputFormat.Lower` | PaperEnhance/main.swift:27 | `lowercased()` has the same length and folds each character independently |
| `OutputFormat.Extension` | PaperEnhance/main.swift:27 | `split(separator: ".").last` exists exactly when the name has a non-dot character, and is then a non-empty dot-free piece of the split |
| `OutputFormat.IsPNGOut` | PaperEnhance/main.swift:22-29 | masked output is always PNG; an unmasked name chosen as PNG has a non-dot character, so its rewrite cannot trap |
| `OutputFormat.ReformatToPNG` | PaperEnhance/main.swift:31-35 | the result is the input's non-empty segments with the last one replaced by `png`, joined by single dots: its lossless split is exactly those segments |
| `OutputFormat.IsPNGOutAll` | PaperEnhance/main.swift:22-29 | for every name, unmasked: PNG exactly when there is a last segment and it spells `png` in any mix of cases |
| `OutputFormat.ExtensionOf` | PaperEnhance/main.swift:22-29 | unmasked, a name ending in run `x` (then only dots) is PNG exactly when `x` lowercased is `png`, that is, exactly when `x` is p, n, g in any mix of cases |
| `OutputFormat.NoExtension` | PaperEnhance/main.swift:22-29 | a name of only dots, or an empty one, has no extension and is PNG exactly when masked |
| `OutputFormat.ReformatIsPNG` | PaperEnhance/main.swift:31-35 | the rewritten name's extension is `png`, so it is PNG without masking |
| `OutputFormat.ReformatIdempotent` | PaperEnhance/main.swift:31-35 | rewriting a rewritten name changes nothing |
| `OutputFormat.ReformatBySegments` | PaperEnhance/main.swift:31-35 | a step for the examples, not a property of its own: `ReformatToPNG` written out for a name whose segments are known |
| `OutputFormat.SplitLeadingDot` | PaperEnhance/main.swift:32 | `"./out.jpg"` splits to `"/out"` and `"jpg"` |
| `OutputFormat.ExampleLeadingDot` | PaperEnhance/main.swift:31-35 | `"./out.jpg"` is rewritten to `"/out.png"` |
| `OutputFormat.SplitDoubleDot` | PaperEnhance/main.swift:32 | `"a..b.jpg"` splits to `"a"`, `"b"` and `"jpg"` |
| `OutputFormat.ExampleDoubleDot` | PaperEnhance/main.swift:31-35 | `"a..b.jpg"` is rewritten to `"a.b.png"` |
| `OutputFormat.JoinDoubleDot` | PaperEnhance/main.swift:35 | `["a", "b", "png"]` joins to `"a.b.png"` |
| `OutputFormat.ExampleNoDot` | PaperEnhance/main.swift:31-35 | `"out"` is rewritten to `"png"` |
| `OutputFormat.ExampleUpperCase` | PaperEnhance/main.swift:22-35 | `"x.PNG"` is PNG unmasked and is rewritten to `"x.png"` |
| `OutputFormat.ExampleJPEG` | PaperEnhance/main.swift:22-29 | `"x.jpg"` is not PNG when unmasked |
| `OutputFormat.ExampleOnlyDots` | PaperEnhance/main.swift:22-29 | `""` and `"..."` are not PNG when unmasked |
| `Arguments.DropFirst` | PaperEnhance/main.swift:50 | `dropFirst(3)`: the arguments after the first three, in order, or none when there are at most three |
| `Arguments.Lookup` | PaperEnhance/main.swift:60-62 | `filterParams[key] ?? default`: the key's value when present, the default otherwise (a definition; no contract of its own) |
| `Wrappers.Option.GetOr` | PaperEnhance/main.swift:60-62 | the outer `?? 10.0` and `?? false`: the parsed value, or the fallback when parsing gave nothing (a definition; no contract of its own) |
| `Arguments.Entry` | PaperEnhance/main.swift:51-55 | a token contributes the first two `=`-pieces when there are at least two; key and value are then non-empty and free of `=` |
| `Arguments.Insert` | PaperEnhance/main.swift:52-55 | one step of the fold adds or overwrites the token's key with its value and keeps every other key and value |
| `Arguments.Options` | PaperEnhance/main.swift:50-58 | the fold from the empty dictionary, left to right; every key and value in it is non-empty and free of `=` |
| `Arguments.CollectOptions` | PaperEnhance/main.swift:50-58 | the in-place fold over the arguments after the first three builds exactly `Options` of them |
| `Arguments.OptionsKeys` | PaperEnhance/main.swift:50-58 | a key is in the dictionary exactly when some token splits on `=` into at least two pieces with that key first |
| `Arguments.OptionsLastWins` | PaperEnhance/main.swift:55 | a key's value is the second piece of the last token that assigns it |
| `Arguments.OptionsOtherKeys` | PaperEnhance/main.swift:50-58 | later tokens that do not assign a key leave its presence and its value unchanged |
| `Arguments.EntryWithoutEquals` | PaperEnhance/main.swift:51-52 | `"flag"` adds nothing |
| `Arguments.EntryEmptyKey` | PaperEnhance/main.swift:51-52 | `"=x"` adds nothing, because the empty key piece is omitted |
| `Arguments.EntryExtraPieces` | PaperEnhance/main.swift:51-55 | `"a=b=c"` assigns `b` to `a`; pieces after the second are ignored |
| `Arguments.EntryRepeatedEquals` | PaperEnhance/main.swift:51-55 | `"amount==5"` assigns `5` to `amount` |
| `Arguments.ParseBool` | PaperEnhance/main.swift:61-62 | `Bool(String)` accepts exactly `"true"` and `"false"`, and what it accepts reads back as the same text |
| `Arguments.ParseBoolRoundTrip` | PaperEnhance/main.swift:61-62 | `Bool(String)` reads back `true` and `false` |
| `Arguments.Flag` | PaperEnhance/main.swift:61-62 | `mask` and `invert` are true exactly when their value is the string `true` |
| `Arguments.Amount` | PaperEnhance/main.swift:60 | the amount is the parsed value if it parses, 10.0 if it does not, and 10.0 when absent for a `Double(String)` that reads `"10.0"` as 10.0 |
| `Arguments.Resolve` | PaperEnhance/main.swift:47-62 | the input and output paths are the second and third arguments; the flags are set exactly when their option is `true`, and the amount is `Amount` of the options after the paths (10.0 when absent, for a `Double(String)` that reads `"10.0"` as 10.0) |
| `Pipeline.Enhanced` | PaperEnhance/main.swift:73-82 | the enhance filter's image: the loaded input with the resolved amount (a definition; no contract of its own) |
| `Pipeline.FiltersSucceed` | PaperEnhance/main.swift:67-116 | every guard of the load and filter stage passes: the input loads, and each filter of the chain exists and outputs its image (a definition; its meaning is given by `NoFailureWhenSucceeds`) |
| `Pipeline.Final` | PaperEnhance/main.swift:87-122 | the image the chain ends with for each pair of flags (the enhanced image, its inversion, or a red-mask blend with the enhanced image as mask) |
| `Pipeline.Chain` | PaperEnhance/main.swift:73-103 | the filters looked up, in order, for each pair of flags |
| `Pipeline.StopsWith` | PaperEnhance/main.swift:67-116 | the filter stage exits with a given failure when the step it names is the first whose check fails |
| `Pipeline.ApplyFilters` | PaperEnhance/main.swift:67-122 | the chain ends with `Final` of the flags exactly when every load and filter step succeeds; otherwise it stops with exactly the failure of the first failing step, having looked filters up in `Chain` order up to that step |
| `Pipeline.FirstFailureUnique` | PaperEnhance/main.swift:67-116 | at most one failure describes where the filter stage stops |
| `Pipeline.NoFailureWhenSucceeds` | PaperEnhance/main.swift:67-122 | the filter stage has no failure exactly when every step succeeds |
| `Pipeline.OnlyFailure` | PaperEnhance/main.swift:67-116 | once a failure describes the stop, no other failure does |
| `Pipeline.Traps` | PaperEnhance/main.swift:129-133 | `removeLast` traps exactly for a masked run whose output name has no non-dot character |
| `Pipeline.Destination` | PaperEnhance/main.swift:129-134 | the path written to: when PNG is chosen, the name's segments with the last replaced by `png` and joined by single dots (so its extension is `png`); the given name otherwise |
| `Pipeline.FormatOf` | PaperEnhance/main.swift:138 | the encoding is PNG when `isPNG_Out` holds and JPEG otherwise |
| `Pipeline.SaveStopsWith` | PaperEnhance/main.swift:135-147 | the save stage exits with a given failure when rasterising, encoding or writing is the first step to fail |
| `Pipeline.Save` | PaperEnhance/main.swift:129-151 | traps exactly for a masked name with no segment; fails with exactly the first failing save step; saves exactly when all succeed, to the rewritten path and in PNG exactly when `isPNG_Out` holds |
| `Pipeline.RunStopsWith` | PaperEnhance/main.swift:67-151 | a run exits with status 1 for a given failure of the filter stage, or of the save stage after every filter succeeded |
| `Pipeline.Run` | PaperEnhance/main.swift:41-151 | fewer than three arguments is a usage error; otherwise the run fails with exactly the first failing step's failure, traps or saves as the resolved options and the host decide, with the image, path, format and filters looked up that they determine |
| `Pipeline.RunFailureUnique` | PaperEnhance/main.swift:67-151 | a failed run has one failure only |
| `Pipeline.ChainMembers` | PaperEnhance/main.swift:88-103 | the invert filter is looked up exactly when `invert` or `mask` is set, the blend exactly when `mask` is set |
| `Pipeline.FinalShape` | PaperEnhance/main.swift:87-122 | the final image contains the inverted enhanced image exactly when `invert` is set, is a blend exactly when `mask` is set, and the blend's mask is the enhanced image |
| `Pipeline.UnmaskedJPEGUnchanged` | PaperEnhance/main.swift:129-138 | an unmasked name that is not PNG by extension is written as JPEG under its own name |

## Left out

- The CoreImage filters, `CIImage(contentsOf:)`, `CIContext.createCGImage`, the `NSBitmapImageRep` encoders and `data.write`: opaque library calls and file I/O. They are only `Host` predicates saying whether each step succeeds. A filter's success depends only on the image term it is asked to build. Whether `data.write` succeeds depends only on the path, not on the bytes written (a full disk, say, is not told apart).
- The numeric content of `Double(String)`: floating point. It is the `Host.parseDouble` parameter, with the amount as a `real`. The default amount is stated under `KeepsDefault`, the property of Swift's parser that `"10.0"` reads as 10.0.
- `lowercased()` is ASCII case folding only, not Unicode case mapping.
- Swift compares `String`s by Unicode canonical equivalence. The model compares code-point sequences (dictionary keys, `"png"`, `"true"`).
- Swift's `split` works on `Character`s, which are grapheme clusters. `Split` works on code points. A separator followed by a combining mark is one `Character` in Swift and so no separator: a masked `"a.\u{301}b"` gives Swift one piece and the name `"png"`, but the model gives `"a.png"`; `"k=\u{301}v"` gives Swift no entry, but the model gives the key `"k"`.
- The text of `printUsage` and the error messages. Only the outcome is modelled: usage error, a named failure (exit status 1), a trap, or a saved file.
- `URL(fileURLWithPath:)`: paths are handed to the host as strings.
- The `value != nil` test in the option parser is always true, because an array element is not optional. The model has no such test.
