/**
 * The output-format helpers `isPNG_Out` and `reformatToPNG`: choosing PNG or
 * JPEG from the output file name, and rewriting the name's extension to `png`.
 */
module OutputFormat {
  import opened Wrappers
  import opened Segments

  datatype Format = PNG | JPEG

  /**
   * ASCII case folding of one character (the model of `lowercased()`): a
   * capital becomes the small letter at the same place in the alphabet, and
   * every other character stays as it is.
   */
  function LowerChar(c: char): (r: char)
    ensures !('A' <= r <= 'Z')
    ensures 'A' <= c <= 'Z' ==> 'a' <= r <= 'z' && r as int - 'a' as int == c as int - 'A' as int
    ensures !('A' <= c <= 'Z') ==> r == c
  {
    if 'A' <= c <= 'Z' then (c as int - 'A' as int + 'a' as int) as char else c
  }

  /** ASCII case folding of a string, character by character. */
  function Lower(s: string): (r: string)
    ensures |r| == |s|
    ensures forall i :: 0 <= i < |s| ==> r[i] == LowerChar(s[i])
  {
    if s == [] then [] else [LowerChar(s[0])] + Lower(s[1..])
  }

  /**
   * The last non-empty `.`-separated segment of `name`. There is one exactly
   * when `name` has a character other than a dot.
   */
  function Extension(name: string): (r: Option<string>)
    ensures r.Some? <==> HasNonSep(name, '.')
    ensures r.Some? ==> r.value != [] && '.' !in r.value && r.value in Split(name, '.')
  {
    SplitEmptyIff(name, '.');
    var parts := Split(name, '.');
    if parts == [] then None else Some(parts[|parts| - 1])
  }

  /**
   * `isPNG_Out`: masked output is always PNG; otherwise the extension decides,
   * ignoring case. A name chosen as PNG without masking has a segment, so
   * rewriting it cannot trap.
   */
  function IsPNGOut(name: string, masked: bool): (r: bool)
    ensures masked ==> r
    ensures r && !masked ==> HasNonSep(name, '.')
  {
    masked || (Extension(name).Some? && Lower(Extension(name).value) == "png")
  }

  /**
   * `reformatToPNG`: the non-empty `.`-segments of `name` with the last one
   * replaced by `png`, joined by single dots. Swift's `removeLast` traps on an
   * empty array, hence the precondition. The lossless split of the result is
   * exactly those segments, so there is no stray, leading or doubled dot.
   */
  function ReformatToPNG(name: string): (r: string)
    requires HasNonSep(name, '.')
    ensures var parts := Split(name, '.');
      parts != [] && Split(r, '.') == parts[..|parts| - 1] + ["png"]
    ensures var parts := Split(name, '.');
      parts != [] && Fields(r, '.') == parts[..|parts| - 1] + ["png"]
  {
    SplitEmptyIff(name, '.');
    var parts := Split(name, '.');
    var kept := parts[..|parts| - 1] + ["png"];
    assert forall i :: 0 <= i < |kept| ==> kept[i] != [] && '.' !in kept[i] by {
      forall i | 0 <= i < |kept| ensures kept[i] != [] && '.' !in kept[i] {
        if i < |parts| - 1 {
          assert kept[i] == parts[i];
        }
      }
    }
    SplitJoin(kept, '.');
    FieldsJoin(kept, '.');
    Join(kept, '.')
  }

  // ---------------------------------------------------------------------
  // What the extension is

  /**
   * The extension is the separator-free run `x` that ends the name before any
   * trailing dots, when `x` starts the name or follows a dot.
   */
  lemma ExtensionOf(p: string, x: string, d: string)
    requires p == [] || p[|p| - 1] == '.'
    requires x != [] && '.' !in x
    requires !HasNonSep(d, '.')
    ensures Extension(p + x + d) == Some(x)
    ensures IsPNGOut(p + x + d, false) <==> Lower(x) == "png"
    ensures IsPNGOut(p + x + d, false) <==> SpellsPNG(x)
  {
    LastPiece(p, x, d, '.');
    LowerIsPNG(x);
  }

  /** A character folds to the small letter `small` exactly when it is that letter or its capital `big`. */
  lemma FoldsTo(c: char, small: char, big: char)
    requires 'a' <= small <= 'z' && big as int == small as int - 32
    ensures LowerChar(c) == small <==> c == small || c == big
  {
  }

  /** `x` is the letters p, n, g, each in either case. */
  predicate SpellsPNG(x: string) {
    && |x| == 3
    && (x[0] == 'p' || x[0] == 'P')
    && (x[1] == 'n' || x[1] == 'N')
    && (x[2] == 'g' || x[2] == 'G')
  }

  /** A string lowercases to `png` exactly when it spells p, n, g in either case. */
  lemma LowerIsPNG(x: string)
    ensures Lower(x) == "png" <==> SpellsPNG(x)
  {
    if |x| == 3 {
      var l := Lower(x);
      assert l[0] == LowerChar(x[0]) && l[1] == LowerChar(x[1]) && l[2] == LowerChar(x[2]);
      FoldsTo(x[0], 'p', 'P');
      FoldsTo(x[1], 'n', 'N');
      FoldsTo(x[2], 'g', 'G');
      assert l == "png" <==> l[0] == 'p' && l[1] == 'n' && l[2] == 'g';
    }
  }

  /** For every name, unmasked: PNG exactly when the last segment spells png in any case. */
  lemma IsPNGOutAll(name: string)
    ensures IsPNGOut(name, false) <==> Extension(name).Some? && SpellsPNG(Extension(name).value)
  {
    if Extension(name).Some? {
      LowerIsPNG(Extension(name).value);
    }
  }

  /** A name made only of dots (or empty) has no extension and is PNG only when masked. */
  lemma NoExtension(name: string, masked: bool)
    requires !HasNonSep(name, '.')
    ensures Extension(name) == None
    ensures IsPNGOut(name, masked) == masked
  {
  }

  // ---------------------------------------------------------------------
  // What the rewrite does

  /** The rewritten name is PNG by its own extension. */
  lemma ReformatIsPNG(name: string)
    requires HasNonSep(name, '.')
    ensures Extension(ReformatToPNG(name)) == Some("png")
    ensures IsPNGOut(ReformatToPNG(name), false)
  {
  }

  /** Rewriting an already rewritten name changes nothing. */
  lemma ReformatIdempotent(name: string)
    requires HasNonSep(name, '.')
    ensures HasNonSep(ReformatToPNG(name), '.')
    ensures ReformatToPNG(ReformatToPNG(name)) == ReformatToPNG(name)
  {
  }

  // ---------------------------------------------------------------------
  // Examples from the behaviour of Swift's split

  /**
   * The rewrite of a name whose segments are known, in terms of those
   * segments. A step for the examples below rather than a property of its own.
   */
  lemma ReformatBySegments(name: string, front: seq<string>, last: string)
    requires Split(name, '.') == front + [last]
    ensures HasNonSep(name, '.')
    ensures ReformatToPNG(name) == Join(front + ["png"], '.')
  {
    SplitEmptyIff(name, '.');
    assert (front + [last])[..|front|] == front;
  }

  /** A leading `./` loses its dot: the empty first segment is omitted. */
  lemma SplitLeadingDot()
    ensures Split("./out.jpg", '.') == ["/out", "jpg"]
  {
    assert "/out.jpg" == "/out" + ['.'] + "jpg";
    SplitAtSep("/out", "jpg", '.');
    SplitOfRun("/out", '.');
    SplitOfRun("jpg", '.');
    assert "./out.jpg" == [] + ['.'] + "/out.jpg";
    SplitAtSep([], "/out.jpg", '.');
  }

  lemma ExampleLeadingDot()
    ensures HasNonSep("./out.jpg", '.')
    ensures ReformatToPNG("./out.jpg") == "/out.png"
  {
    SplitLeadingDot();
    ReformatBySegments("./out.jpg", ["/out"], "jpg");
    assert ["/out", "png"][1..] == ["png"];
  }

  /** Two dots in a row give one segment boundary. */
  lemma SplitDoubleDot()
    ensures Split("a..b.jpg", '.') == ["a", "b", "jpg"]
  {
    assert "b.jpg" == "b" + ['.'] + "jpg";
    SplitAtSep("b", "jpg", '.');
    SplitOfRun("b", '.');
    SplitOfRun("jpg", '.');
    assert ".b.jpg" == [] + ['.'] + "b.jpg";
    SplitAtSep([], "b.jpg", '.');
    assert "a..b.jpg" == "a" + ['.'] + ".b.jpg";
    SplitAtSep("a", ".b.jpg", '.');
    SplitOfRun("a", '.');
  }

  lemma ExampleDoubleDot()
    ensures HasNonSep("a..b.jpg", '.')
    ensures ReformatToPNG("a..b.jpg") == "a.b.png"
  {
    SplitDoubleDot();
    ReformatBySegments("a..b.jpg", ["a", "b"], "jpg");
    assert ["a", "b"] + ["png"] == ["a", "b", "png"];
    JoinDoubleDot();
  }

  lemma JoinDoubleDot()
    ensures Join(["a", "b", "png"], '.') == "a.b.png"
  {
    var parts := ["a", "b", "png"];
    assert parts[1..] == ["b", "png"] && parts[1..][1..] == ["png"];
    assert Join(["b", "png"], '.') == "b.png";
    assert Join(parts, '.') == "a" + ['.'] + "b.png";
  }

  lemma ExampleNoDot()
    ensures HasNonSep("out", '.')
    ensures ReformatToPNG("out") == "png"
  {
    assert "out"[0] != '.';
    SplitOfRun("out", '.');
  }

  lemma ExampleUpperCase()
    ensures HasNonSep("x.PNG", '.')
    ensures IsPNGOut("x.PNG", false)
    ensures ReformatToPNG("x.PNG") == "x.png"
  {
    assert "x.PNG"[0] != '.';
    assert "x.PNG" == "x" + ['.'] + "PNG";
    SplitAtSep("x", "PNG", '.');
    SplitOfRun("x", '.');
    SplitOfRun("PNG", '.');
    assert Split("x.PNG", '.') == ["x", "PNG"];
    LowerIsPNG("PNG");
    assert Split("x.PNG", '.')[..1] + ["png"] == ["x", "png"];
    assert ["x", "png"][1..] == ["png"];
    assert Join(["x", "png"], '.') == "x.png";
  }

  lemma ExampleJPEG()
    ensures !IsPNGOut("x.jpg", false)
  {
    assert "x.jpg" == "x" + ['.'] + "jpg";
    SplitAtSep("x", "jpg", '.');
    SplitOfRun("x", '.');
    SplitOfRun("jpg", '.');
    assert Split("x.jpg", '.') == ["x", "jpg"];
    assert Lower("jpg") == "jpg";
  }

  lemma ExampleOnlyDots()
    ensures !IsPNGOut("", false) && !IsPNGOut("...", false)
  {
  }
}
