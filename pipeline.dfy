/**
 * The top-level script: the argument-count guard, option resolution, the
 * filter chain over an abstract image, and the choice of output path and
 * encoding.
 *
 * Filters are uninterpreted constructors over image terms. What the imaging
 * library and the file system do is given by a `Host`: which input loads,
 * which named filters exist, which filter outputs, rasterisations, encodings
 * and writes succeed, and what `Double(String)` returns.
 */
module Pipeline {
  import opened Wrappers
  import opened Segments
  import opened OutputFormat
  import opened Arguments

  /** Image terms: what each filter is applied to, not what it computes. */
  datatype Image =
    | Load(path: string)
    | Enhance(source: Image, amount: real)
    | Invert(source: Image)
    | Blend(mask: Image, background: Image)

  /** The filters the script looks up by name. */
  datatype FilterName = DocumentEnhancer | ColorInvert | BlendWithRedMask

  datatype Host = Host(
    loads: string -> bool,
    hasFilter: FilterName -> bool,
    outputs: Image -> bool,
    rasterizes: Image -> bool,
    encodes: (Image, Format) -> bool,
    writes: string -> bool,
    parseDouble: string -> Option<real>)

  /** Why a run that got past the argument-count guard exited with status 1. */
  datatype Failure =
    | UnreadableInput
    | MissingFilter(name: FilterName)
    | NoOutput(name: FilterName)
    | RasterizeFailed
    | EncodeFailed
    | WriteFailed

  datatype Outcome =
    | UsageError                 // fewer than three arguments; exit status 1
    | Failed(failure: Failure)   // exit status 1
    | Trapped                    // `removeLast` on an empty array
    | Saved(path: string, format: Format, image: Image)

  /** The image the enhance filter is built to produce. */
  function Enhanced(c: Config): Image {
    Enhance(Load(c.input), c.amount)
  }

  /** The final image for each combination of the two flags. */
  function Final(invert: bool, mask: bool, e: Image): Image {
    match (invert, mask)
    case (false, false) => e
    case (true, false) => Invert(e)
    case (false, true) => Blend(e, e)
    case (true, true) => Blend(e, Invert(e))
  }

  /** The filters looked up, in order, when none is missing. */
  function Chain(invert: bool, mask: bool): seq<FilterName> {
    [DocumentEnhancer]
    + (if invert || mask then [ColorInvert] else [])
    + (if mask then [BlendWithRedMask] else [])
  }

  /** Loading and every filter of the chain succeed. */
  predicate FiltersSucceed(host: Host, c: Config) {
    var e := Enhanced(c);
    && host.loads(c.input)
    && host.hasFilter(DocumentEnhancer) && host.outputs(e)
    && ((c.invert || c.mask) ==> host.hasFilter(ColorInvert) && host.outputs(Invert(e)))
    && (c.mask ==> host.hasFilter(BlendWithRedMask) && host.outputs(Final(c.invert, c.mask, e)))
  }

  /**
   * The output name would be rewritten but has no segment, so `removeLast`
   * traps. Only a masked run can get there.
   */
  function Traps(output: string, masked: bool): (r: bool)
    ensures r <==> masked && !HasNonSep(output, '.')
  {
    IsPNGOut(output, masked) && !HasNonSep(output, '.')
  }

  /**
   * The path written to: when PNG is chosen, the name's segments with the last
   * replaced by `png`, joined by single dots, so its extension is then `png`;
   * otherwise the name as given.
   */
  function Destination(output: string, masked: bool): (r: string)
    requires !Traps(output, masked)
    ensures IsPNGOut(output, masked) ==> Extension(r) == Some("png") && IsPNGOut(r, false)
    ensures IsPNGOut(output, masked) ==> var parts := Split(output, '.');
      parts != [] && Fields(r, '.') == parts[..|parts| - 1] + ["png"]
    ensures !IsPNGOut(output, masked) ==> r == output
  {
    if IsPNGOut(output, masked) then
      ReformatIsPNG(output);
      ReformatToPNG(output)
    else output
  }

  /** The encoding used: PNG exactly when `isPNG_Out` holds. */
  function FormatOf(output: string, masked: bool): Format {
    if IsPNGOut(output, masked) then PNG else JPEG
  }

  /** The image the filter named `n` is asked to produce for `c`. */
  function Product(n: FilterName, c: Config): Image {
    match n
    case DocumentEnhancer => Enhanced(c)
    case ColorInvert => Invert(Enhanced(c))
    case BlendWithRedMask => Final(c.invert, c.mask, Enhanced(c))
  }

  /** The filter `n` is looked up: it is in the chain and every step before it succeeded. */
  predicate Reaches(host: Host, c: Config, n: FilterName) {
    var e := Enhanced(c);
    match n
    case DocumentEnhancer => host.loads(c.input)
    case ColorInvert =>
      && (c.invert || c.mask)
      && host.loads(c.input) && host.hasFilter(DocumentEnhancer) && host.outputs(e)
    case BlendWithRedMask =>
      && c.mask
      && host.loads(c.input) && host.hasFilter(DocumentEnhancer) && host.outputs(e)
      && host.hasFilter(ColorInvert) && host.outputs(Invert(e))
  }

  /** The filter stage stops with `f`: the step `f` names is the first that fails. */
  predicate StopsWith(host: Host, c: Config, f: Failure) {
    match f
    case UnreadableInput => !host.loads(c.input)
    case MissingFilter(n) => Reaches(host, c, n) && !host.hasFilter(n)
    case NoOutput(n) => Reaches(host, c, n) && host.hasFilter(n) && !host.outputs(Product(n, c))
    case _ => false
  }

  /** The filters looked up by the time the filter stage stops with `f`. */
  function LookedUpBy(f: Failure): seq<FilterName> {
    match f
    case MissingFilter(n) => UpTo(n)
    case NoOutput(n) => UpTo(n)
    case _ => []
  }

  /** The chain's filters up to and including `n`. */
  function UpTo(n: FilterName): seq<FilterName> {
    match n
    case DocumentEnhancer => [DocumentEnhancer]
    case ColorInvert => [DocumentEnhancer, ColorInvert]
    case BlendWithRedMask => [DocumentEnhancer, ColorInvert, BlendWithRedMask]
  }

  /** Saving `image` stops with `f`: the step `f` names is the first that fails. */
  predicate SaveStopsWith(host: Host, image: Image, output: string, masked: bool, f: Failure) {
    && !Traps(output, masked)
    && match f
       case RasterizeFailed => !host.rasterizes(image)
       case EncodeFailed => host.rasterizes(image) && !host.encodes(image, FormatOf(output, masked))
       case WriteFailed =>
         && host.rasterizes(image) && host.encodes(image, FormatOf(output, masked))
         && !host.writes(Destination(output, masked))
       case _ => false
  }

  /** A run with configuration `c` exits with status 1 because of `f`. */
  predicate RunStopsWith(host: Host, c: Config, f: Failure) {
    || StopsWith(host, c, f)
    || (FiltersSucceed(host, c) && SaveStopsWith(host, Final(c.invert, c.mask, Enhanced(c)), c.output, c.mask, f))
  }

  /** What the filter chain ends with: its final image, or why the run stopped. */
  datatype Filtered = Built(image: Image) | Stopped(failure: Failure)

  /** Loading the input and building the filter chain for `c`. */
  method ApplyFilters(host: Host, c: Config) returns (r: Filtered, looked: seq<FilterName>)
    ensures looked <= Chain(c.invert, c.mask)
    ensures r.Built? <==> FiltersSucceed(host, c)
    ensures r.Built? ==> r.image == Final(c.invert, c.mask, Enhanced(c)) && looked == Chain(c.invert, c.mask)
    ensures forall f :: r == Stopped(f) <==> StopsWith(host, c, f)
    ensures r.Stopped? ==> looked == LookedUpBy(r.failure)
  {
    looked := [];
    if !host.loads(c.input) {
      OnlyFailure(host, c, UnreadableInput);
      return Stopped(UnreadableInput), looked;
    }
    var inputImage := Load(c.input);

    looked := looked + [DocumentEnhancer];
    if !host.hasFilter(DocumentEnhancer) {
      OnlyFailure(host, c, MissingFilter(DocumentEnhancer));
      return Stopped(MissingFilter(DocumentEnhancer)), looked;
    }
    var enhancedImage := Enhance(inputImage, c.amount);
    if !host.outputs(enhancedImage) {
      OnlyFailure(host, c, NoOutput(DocumentEnhancer));
      return Stopped(NoOutput(DocumentEnhancer)), looked;
    }

    var outputImage: Image;
    if c.invert || c.mask {
      looked := looked + [ColorInvert];
      if !host.hasFilter(ColorInvert) {
        OnlyFailure(host, c, MissingFilter(ColorInvert));
        return Stopped(MissingFilter(ColorInvert)), looked;
      }
      var invertedImage := Invert(enhancedImage);
      if !host.outputs(invertedImage) {
        OnlyFailure(host, c, NoOutput(ColorInvert));
        return Stopped(NoOutput(ColorInvert)), looked;
      }
      if !c.mask {
        outputImage := invertedImage;
      } else {
        looked := looked + [BlendWithRedMask];
        if !host.hasFilter(BlendWithRedMask) {
          OnlyFailure(host, c, MissingFilter(BlendWithRedMask));
          return Stopped(MissingFilter(BlendWithRedMask)), looked;
        }
        var background: Image;
        if c.invert {
          background := invertedImage;
        } else {
          background := enhancedImage;
        }
        var maskedImage := Blend(enhancedImage, background);
        if !host.outputs(maskedImage) {
          OnlyFailure(host, c, NoOutput(BlendWithRedMask));
          return Stopped(NoOutput(BlendWithRedMask)), looked;
        }
        outputImage := maskedImage;
      }
    } else {
      outputImage := enhancedImage;
    }
    NoFailureWhenSucceeds(host, c);
    r := Built(outputImage);
  }

  /** Two failures of the filter stage are the same failure: the stage stops at its first. */
  lemma FirstFailureUnique(host: Host, c: Config, f: Failure, g: Failure)
    requires StopsWith(host, c, f) && StopsWith(host, c, g)
    ensures f == g
  {
  }

  /** The filter stage stops with no failure exactly when every step succeeds. */
  lemma NoFailureWhenSucceeds(host: Host, c: Config)
    ensures FiltersSucceed(host, c) <==> forall f :: !StopsWith(host, c, f)
  {
    if !FiltersSucceed(host, c) {
      var e := Enhanced(c);
      if !host.loads(c.input) {
        assert StopsWith(host, c, UnreadableInput);
      } else if !host.hasFilter(DocumentEnhancer) {
        assert StopsWith(host, c, MissingFilter(DocumentEnhancer));
      } else if !host.outputs(e) {
        assert StopsWith(host, c, NoOutput(DocumentEnhancer));
      } else if !host.hasFilter(ColorInvert) {
        assert StopsWith(host, c, MissingFilter(ColorInvert));
      } else if !host.outputs(Invert(e)) {
        assert StopsWith(host, c, NoOutput(ColorInvert));
      } else if !host.hasFilter(BlendWithRedMask) {
        assert StopsWith(host, c, MissingFilter(BlendWithRedMask));
      } else {
        assert StopsWith(host, c, NoOutput(BlendWithRedMask));
      }
    } else {
      forall f ensures !StopsWith(host, c, f) {
        if f.MissingFilter? || f.NoOutput? {
          match f.name
          case DocumentEnhancer =>
          case ColorInvert =>
          case BlendWithRedMask =>
        }
      }
    }
  }

  /**
   * A run that exits with status 1 does so for one reason only: a filter-stage
   * failure rules out reaching the save stage, and save failures exclude each other.
   */
  lemma RunFailureUnique(host: Host, c: Config, f: Failure, g: Failure)
    requires RunStopsWith(host, c, f) && RunStopsWith(host, c, g)
    ensures f == g
  {
    if StopsWith(host, c, f) || StopsWith(host, c, g) {
      NoFailureWhenSucceeds(host, c);
      if StopsWith(host, c, f) && StopsWith(host, c, g) {
        FirstFailureUnique(host, c, f, g);
      }
    }
  }

  /** When the filter stage stops with `f`, no other failure describes it. */
  lemma OnlyFailure(host: Host, c: Config, f: Failure)
    requires StopsWith(host, c, f)
    ensures forall g :: StopsWith(host, c, g) <==> g == f
  {
  }

  /** Choosing the path and encoding, then rasterising, encoding and writing `image`. */
  method Save(host: Host, image: Image, outputPath: string, masked: bool) returns (o: Outcome)
    ensures !o.UsageError?
    ensures o.Trapped? <==> masked && !HasNonSep(outputPath, '.')
    ensures forall f :: o == Failed(f) <==> SaveStopsWith(host, image, outputPath, masked, f)
    ensures o.Saved? <==>
      && !Traps(outputPath, masked) && host.rasterizes(image) && host.encodes(image, FormatOf(outputPath, masked))
      && host.writes(Destination(outputPath, masked))
    ensures o.Saved? ==>
      && o.image == image
      && o.path == Destination(outputPath, masked)
      && (o.format == PNG <==> IsPNGOut(outputPath, masked))
      && (masked ==> o.format == PNG && Extension(o.path) == Some("png"))
  {
    var path := outputPath;
    var isPng := IsPNGOut(path, masked);
    if isPng {
      if !HasNonSep(path, '.') {
        return Trapped;
      }
      ReformatIsPNG(path);
      path := ReformatToPNG(path);
    }
    var format := if isPng then PNG else JPEG;

    if !host.rasterizes(image) {
      return Failed(RasterizeFailed);
    }
    if !host.encodes(image, format) {
      return Failed(EncodeFailed);
    }
    if !host.writes(path) {
      return Failed(WriteFailed);
    }
    o := Saved(path, format, image);
  }

  /** A run of the program on `args` against `host`, and the filters it looked up. */
  method Run(args: seq<string>, host: Host) returns (o: Outcome, looked: seq<FilterName>)
    ensures |args| < 3 <==> o == UsageError
    ensures |args| < 3 ==> looked == []
    ensures |args| >= 3 ==> var c := Resolve(args, host.parseDouble);
      && looked <= Chain(c.invert, c.mask)
      && (forall f :: o == Failed(f) <==> RunStopsWith(host, c, f))
      && (!FiltersSucceed(host, c) ==> o.Failed? && looked == LookedUpBy(o.failure))
      && (FiltersSucceed(host, c) ==> looked == Chain(c.invert, c.mask))
      && (o.Trapped? <==> FiltersSucceed(host, c) && c.mask && !HasNonSep(c.output, '.'))
      && (o.Saved? <==>
            && FiltersSucceed(host, c)
            && !Traps(c.output, c.mask)
            && host.rasterizes(Final(c.invert, c.mask, Enhanced(c)))
            && host.encodes(Final(c.invert, c.mask, Enhanced(c)), FormatOf(c.output, c.mask))
            && host.writes(Destination(c.output, c.mask)))
      && (o.Saved? ==>
            && o.image == Final(c.invert, c.mask, Enhanced(c))
            && o.path == Destination(c.output, c.mask)
            && (o.format == PNG <==> IsPNGOut(c.output, c.mask))
            && (c.mask ==> o.format == PNG && Extension(o.path) == Some("png")))
  {
    looked := [];
    if |args| < 3 {
      return UsageError, looked;
    }
    var inputPath := args[1];
    var outputPath := args[2];
    var params := CollectOptions(args);
    var enhanceAmount := Amount(params, host.parseDouble);
    var maskImage := Flag(params, "mask");
    var invertImage := Flag(params, "invert");
    var c := Config(inputPath, outputPath, enhanceAmount, maskImage, invertImage);
    assert c == Resolve(args, host.parseDouble);

    var filtered;
    filtered, looked := ApplyFilters(host, c);
    if filtered.Stopped? {
      return Failed(filtered.failure), looked;
    }
    o := Save(host, filtered.image, outputPath, maskImage);
  }

  // ---------------------------------------------------------------------
  // The decision table

  /** Which filters are looked up depends on the flags as the script's branches say. */
  lemma ChainMembers(invert: bool, mask: bool)
    ensures Chain(invert, mask)[0] == DocumentEnhancer
    ensures ColorInvert in Chain(invert, mask) <==> invert || mask
    ensures BlendWithRedMask in Chain(invert, mask) <==> mask
    ensures |Chain(invert, mask)| == 1 + (if invert || mask then 1 else 0) + (if mask then 1 else 0)
  {
  }

  /** True when `x` occurs in image term `t`. */
  predicate Contains(t: Image, x: Image) {
    t == x ||
    match t
    case Load(_) => false
    case Enhance(s, _) => Contains(s, x)
    case Invert(s) => Contains(s, x)
    case Blend(m, b) => Contains(m, x) || Contains(b, x)
  }

  /**
   * The final image is built on the enhanced image; it is inverted somewhere
   * exactly when `invert` is set and blended exactly when `mask` is set, and
   * the blend's mask is always the enhanced image.
   */
  lemma FinalShape(invert: bool, mask: bool, e: Image)
    requires e.Enhance?
    ensures Contains(Final(invert, mask, e), e)
    ensures Contains(Final(invert, mask, e), Invert(e)) <==> invert
    ensures Final(invert, mask, e).Blend? <==> mask
    ensures mask ==> Final(invert, mask, e).mask == e
    ensures !mask ==> Final(invert, mask, e) == if invert then Invert(e) else e
  {
    assert Contains(e, e);
    assert Contains(Invert(e), Invert(e));
    if !invert {
      NotContainsLarger(e, Invert(e));
    }
  }

  function Size(t: Image): nat {
    match t
    case Load(_) => 1
    case Enhance(s, _) => 1 + Size(s)
    case Invert(s) => 1 + Size(s)
    case Blend(m, b) => 1 + Size(m) + Size(b)
  }

  /** A term does not contain a strictly larger term. */
  lemma {:induction false} NotContainsLarger(t: Image, x: Image)
    requires Size(t) < Size(x)
    ensures !Contains(t, x)
  {
    match t
    case Load(_) =>
    case Enhance(s, _) => NotContainsLarger(s, x);
    case Invert(s) => NotContainsLarger(s, x);
    case Blend(m, b) => NotContainsLarger(m, x); NotContainsLarger(b, x);
  }

  /** Unmasked, a name that is not PNG by extension stays as it is and is written as JPEG. */
  lemma UnmaskedJPEGUnchanged(output: string)
    requires !IsPNGOut(output, false)
    ensures !Traps(output, false)
    ensures Destination(output, false) == output && FormatOf(output, false) == JPEG
  {
  }
}
