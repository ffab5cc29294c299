/** MPOrama (`MPOrama.0-5-4.exif+xmp.not.py` and `MPOrama.0-4-1.no-meta.py`):
    each `.mpo` file found is opened, its first two frames become the left and
    right images, and every selected output format is rendered and saved under
    a name and folder chosen by the "separate to format folders" and "no
    filename change" options.

    The formats are visited in the order of the `formats` dictionary
    (anaglyph, crossview, parallel, lrl, left, right). An exception, from a
    file with fewer than two frames or from an anaglyph whose right image does
    not broadcast onto the left, abandons the rest of that file. Version 0.5.4
    advances the progress counter once per saved output and expects
    files × formats outputs; version 0.4.1 advances it once per file that went
    through every format. Saving writes the image to disk; the model records
    the list of (path, image) saved. */
module MPOrama {
  import opened Common
  import opened Raster
  import Compositor
  import opened Paths

  datatype Format = Anaglyph | Crossview | Parallel | Lrl | Left | Right

  /** The keys of `self.formats`, in dictionary order. */
  const Formats: seq<Format> := [Anaglyph, Crossview, Parallel, Lrl, Left, Right]

  /** `format_dirs[fmt]`. */
  function FormatDir(f: Format): string {
    match f
    case Anaglyph => "rc"
    case Crossview => "xi"
    case Parallel => "ii"
    case Lrl => "lrl"
    case Left => "l"
    case Right => "r"
  }

  /** `format_prefixes[fmt]`: put before the name for the four composed
      formats, after it for the two single frames. */
  function Affix(f: Format): string {
    match f
    case Anaglyph => "rc_"
    case Crossview => "xi_"
    case Parallel => "ii_"
    case Lrl => "lrl_"
    case Left => "_l"
    case Right => "_r"
  }

  predicate IsPrefixed(f: Format) {
    f.Anaglyph? || f.Crossview? || f.Parallel? || f.Lrl?
  }

  /** The two naming options. */
  datatype Naming = Naming(separate: bool, noFilenameChange: bool)

  /** `output_filename` for the file whose name without extension is `stem`. */
  function OutputFilename(stem: string, f: Format, n: Naming): string {
    if n.separate && n.noFilenameChange then stem + ".jpg"
    else if IsPrefixed(f) then Affix(f) + stem + ".jpg"
    else stem + Affix(f) + ".jpg"
  }

  /** `output_path`: in the output folder, or in its format sub-folder. */
  function OutputPath(dir: Path, stem: string, f: Format, n: Naming): Path {
    if n.separate then dir + [FormatDir(f), OutputFilename(stem, f, n)]
    else dir + [OutputFilename(stem, f, n)]
  }

  /** The output path of every format for one file. */
  function OutputPaths(dir: Path, stem: string, n: Naming): Format -> Path {
    f => OutputPath(dir, stem, f, n)
  }

  /** The source name is kept exactly when both options are set. */
  lemma FilenameKeptIff(stem: string, f: Format, n: Naming)
    ensures OutputFilename(stem, f, n) == stem + ".jpg" <==> n.separate && n.noFilenameChange
  {
    if !(n.separate && n.noFilenameChange) {
      assert |OutputFilename(stem, f, n)| == |stem| + 4 + |Affix(f)|;
    }
  }

  /** Two different formats of one file never share an output path, so no
      output overwrites another. */
  lemma FormatsNeverCollide(dir: Path, stem: string, f: Format, g: Format, n: Naming)
    requires f != g
    ensures OutputPath(dir, stem, f, n) != OutputPath(dir, stem, g, n)
  {
    var pf := OutputPath(dir, stem, f, n);
    var pg := OutputPath(dir, stem, g, n);
    if n.separate {
      assert pf[|dir|] == FormatDir(f) && pg[|dir|] == FormatDir(g);
      assert FormatDir(f) != FormatDir(g) by {
        assert FormatDir(f)[0] != FormatDir(g)[0] || |FormatDir(f)| != |FormatDir(g)|;
      }
    } else {
      var a := OutputFilename(stem, f, n);
      var b := OutputFilename(stem, g, n);
      assert pf[|dir|] == a && pg[|dir|] == b;
      if IsPrefixed(f) && IsPrefixed(g) {
        assert a[0] == Affix(f)[0] && b[0] == Affix(g)[0];
      } else if !IsPrefixed(f) && !IsPrefixed(g) {
        assert a[|stem| + 1] == Affix(f)[1] && b[|stem| + 1] == Affix(g)[1];
      } else {
        assert |a| != |b|;
      }
    }
  }

  // ---------------------------------------------------------------------------
  // Rendering.

  /** The image saved for one format: a composition, or a frame as it is;
      `None` when the anaglyph raises. */
  function Render(f: Format, left: Image, right: Image): Option<Image>
    requires left.Valid() && right.Valid()
  {
    match f
    case Anaglyph => Compositor.Anaglyph(left, right)
    case Crossview => Some(Compositor.Crossview(left, right))
    case Parallel => Some(Compositor.Parallel(left, right))
    case Lrl => Some(Compositor.Lrl(left, right))
    case Left => Some(left)
    case Right => Some(right)
  }

  /** Only the anaglyph can fail, and it fails exactly when the right image
      does not broadcast onto the left; the two frame formats save the frames
      unchanged. */
  lemma RenderOutcome(f: Format, left: Image, right: Image)
    requires left.Valid() && right.Valid()
    ensures Render(f, left, right).None? <==> f == Anaglyph && !BroadcastsTo(right, left.w, left.h)
    ensures f == Left ==> Render(f, left, right) == Some(left)
    ensures f == Right ==> Render(f, left, right) == Some(right)
  {
  }

  /** The outcome of every format for one pair of frames. */
  function Outcomes(left: Image, right: Image): Format -> Option<Image>
    requires left.Valid() && right.Valid()
  {
    f => Render(f, left, right)
  }

  /** The outputs of the formats `fmts` for one file, up to the first one that
      raises; `out` gives each format's outcome. */
  function Rendered(fmts: seq<Format>, out: Format -> Option<Image>, pathOf: Format -> Path): (r: seq<(Path, Image)>)
    ensures |r| <= |fmts|
  {
    if fmts == [] then []
    else if out(fmts[0]).None? then []
    else [(pathOf(fmts[0]), out(fmts[0]).value)] + Rendered(fmts[1..], out, pathOf)
  }

  /** What is saved is the longest run of formats that render, each under its
      own path, and the format after that run is the one that raised. */
  lemma {:induction false} RenderedShape(fmts: seq<Format>, out: Format -> Option<Image>, pathOf: Format -> Path)
    ensures var r := Rendered(fmts, out, pathOf);
      && (forall k :: 0 <= k < |r| ==> out(fmts[k]).Some? && r[k] == (pathOf(fmts[k]), out(fmts[k]).value))
      && (|r| < |fmts| ==> out(fmts[|r|]).None?)
  {
    if fmts != [] && out(fmts[0]).Some? {
      var r := Rendered(fmts, out, pathOf);
      var r' := Rendered(fmts[1..], out, pathOf);
      RenderedShape(fmts[1..], out, pathOf);
      assert r == [(pathOf(fmts[0]), out(fmts[0]).value)] + r';
      forall k | 1 <= k < |r| ensures out(fmts[k]).Some? && r[k] == (pathOf(fmts[k]), out(fmts[k]).value) {
        assert r[k] == r'[k - 1] && fmts[k] == fmts[1..][k - 1];
      }
      if |r| < |fmts| {
        assert fmts[|r|] == fmts[1..][|r'|];
      }
    }
  }

  lemma {:induction false} RenderedAppend(a: seq<Format>, b: seq<Format>, out: Format -> Option<Image>, pathOf: Format -> Path)
    requires |Rendered(a, out, pathOf)| == |a|
    ensures Rendered(a + b, out, pathOf) == Rendered(a, out, pathOf) + Rendered(b, out, pathOf)
  {
    if a == [] {
      assert a + b == b;
    } else {
      assert (a + b)[0] == a[0];
      assert (a + b)[1..] == a[1..] + b;
      RenderedAppend(a[1..], b, out, pathOf);
      var head := [(pathOf(a[0]), out(a[0]).value)];
      SeqAssoc(head, Rendered(a[1..], out, pathOf), Rendered(b, out, pathOf));
    }
  }

  /** `for fmt, var in self.formats.items(): if not var.get(): continue`. */
  function Select(fmts: seq<Format>, chosen: Format -> bool): seq<Format>
  {
    if fmts == [] then [] else (if chosen(fmts[0]) then [fmts[0]] else []) + Select(fmts[1..], chosen)
  }

  lemma {:induction false} SelectAppend(a: seq<Format>, b: seq<Format>, chosen: Format -> bool)
    ensures Select(a + b, chosen) == Select(a, chosen) + Select(b, chosen)
  {
    if a != [] {
      assert (a + b)[0] == a[0];
      assert (a + b)[1..] == a[1..] + b;
      SelectAppend(a[1..], b, chosen);
      var head := if chosen(a[0]) then [a[0]] else [];
      calc {
        Select(a + b, chosen);
        head + Select(a[1..] + b, chosen);
        head + (Select(a[1..], chosen) + Select(b, chosen));
        (head + Select(a[1..], chosen)) + Select(b, chosen);
        Select(a, chosen) + Select(b, chosen);
      }
    } else {
      assert a + b == b;
    }
  }

  lemma SelectSingle(f: Format, chosen: Format -> bool)
    ensures Select([f], chosen) == if chosen(f) then [f] else []
  {
    assert [f][1..] == [];
  }

  /** Visiting one more key selects it or not. */
  lemma SelectStep(keys: seq<Format>, k: nat, chosen: Format -> bool)
    requires k < |keys|
    ensures chosen(keys[k]) ==> Select(keys[..k + 1], chosen) == Select(keys[..k], chosen) + [keys[k]]
    ensures !chosen(keys[k]) ==> Select(keys[..k + 1], chosen) == Select(keys[..k], chosen)
  {
    assert keys[..k + 1] == keys[..k] + [keys[k]];
    SelectAppend(keys[..k], [keys[k]], chosen);
    SelectSingle(keys[k], chosen);
    if !chosen(keys[k]) {
      assert Select(keys[..k], chosen) + [] == Select(keys[..k], chosen);
    }
  }

  /** A format that renders adds its output after the ones before it. */
  lemma RenderedSnoc(done: seq<Format>, fmt: Format, out: Format -> Option<Image>, pathOf: Format -> Path)
    requires |Rendered(done, out, pathOf)| == |done| && out(fmt).Some?
    ensures Rendered(done + [fmt], out, pathOf) == Rendered(done, out, pathOf) + [(pathOf(fmt), out(fmt).value)]
    ensures |Rendered(done + [fmt], out, pathOf)| == |done + [fmt]|
  {
    RenderedAppend(done, [fmt], out, pathOf);
    assert [fmt][1..] == [];
  }

  /** A selected key that raises ends the outputs of the file there. */
  lemma RenderedStops(keys: seq<Format>, k: nat, chosen: Format -> bool, out: Format -> Option<Image>, pathOf: Format -> Path)
    requires k < |keys| && chosen(keys[k]) && out(keys[k]).None?
    requires |Rendered(Select(keys[..k], chosen), out, pathOf)| == |Select(keys[..k], chosen)|
    ensures Rendered(Select(keys, chosen), out, pathOf) == Rendered(Select(keys[..k], chosen), out, pathOf)
    ensures !(forall f :: f in keys && chosen(f) ==> out(f).Some?)
  {
    var fmt := keys[k];
    var done := Select(keys[..k], chosen);
    var rest := Select(keys[k + 1..], chosen);
    SelectStep(keys, k, chosen);
    assert keys[..k + 1] + keys[k + 1..] == keys;
    SelectAppend(keys[..k + 1], keys[k + 1..], chosen);
    SeqAssoc(done, [fmt], rest);
    RenderedAppend(done, [fmt] + rest, out, pathOf);
    assert ([fmt] + rest)[0] == fmt;
    assert Rendered([fmt] + rest, out, pathOf) == [];
    assert fmt in keys;
  }

  /** When every selected key renders, every selected format has an image. */
  lemma RenderedAll(keys: seq<Format>, chosen: Format -> bool, out: Format -> Option<Image>, pathOf: Format -> Path)
    requires |Rendered(Select(keys, chosen), out, pathOf)| == |Select(keys, chosen)|
    ensures forall f :: f in keys && chosen(f) ==> out(f).Some?
  {
    var sel := Select(keys, chosen);
    RenderedShape(sel, out, pathOf);
    forall f | f in keys && chosen(f) ensures out(f).Some? {
      SelectMember(keys, chosen, f);
      var i :| 0 <= i < |sel| && sel[i] == f;
    }
  }

  /** What is selected is what is visited. */
  lemma {:induction false} SelectMember(fmts: seq<Format>, chosen: Format -> bool, f: Format)
    ensures f in Select(fmts, chosen) <==> f in fmts && chosen(f)
  {
    if fmts != [] {
      SelectMember(fmts[1..], chosen, f);
      assert fmts == [fmts[0]] + fmts[1..];
    }
  }

  /** `sum(1 for var in self.formats.values() if var.get())`. */
  function NumFormats(keys: seq<Format>, chosen: Format -> bool): nat {
    if keys == [] then 0 else (if chosen(keys[0]) then 1 else 0) + NumFormats(keys[1..], chosen)
  }

  /** The formats visited are as many as the count of selected formats. */
  lemma {:induction false} SelectCount(keys: seq<Format>, chosen: Format -> bool)
    ensures |Select(keys, chosen)| == NumFormats(keys, chosen)
  {
    if keys != [] {
      SelectCount(keys[1..], chosen);
    }
  }

  /** The facts about the dictionary order that the outcome of a file depends
      on: the anaglyph is visited, and visited first. */
  predicate AnaglyphFirst(keys: seq<Format>) {
    |keys| > 0 && keys[0] == Anaglyph
  }

  lemma FormatsAnaglyphFirst()
    ensures AnaglyphFirst(Formats)
  {
  }

  // ---------------------------------------------------------------------------
  // One `.mpo` file.

  /** A file found by the walk: its folder below the input folder, its name,
      and the frames `Image.open` decodes from it (none when it cannot be
      opened). */
  datatype MpoFile = MpoFile(sub: Path, name: string, frames: seq<Image>)

  predicate WellFormed(file: MpoFile) {
    forall k :: 0 <= k < |file.frames| ==> file.frames[k].Valid()
  }

  /** `os.path.splitext(name)[0]`: up to the last dot, unless only dots come
      before it. */
  function Stem(name: string): string {
    match LastDot(name, |name|)
    case Some(d) => if exists k :: 0 <= k < d && name[k] != '.' then name[..d] else name
    case None => name
  }

  /** The last `'.'` in `name[..end]`. */
  function LastDot(name: string, end: nat): (r: Option<nat>)
    requires end <= |name|
    ensures r.Some? ==> r.value < end && name[r.value] == '.' && forall k :: r.value < k < end ==> name[k] != '.'
    ensures r.None? ==> forall k :: 0 <= k < end ==> name[k] != '.'
  {
    if end == 0 then None
    else if name[end - 1] == '.' then Some(end - 1)
    else LastDot(name, end - 1)
  }

  /** For `photo.mpo` the stem is `photo`. */
  lemma StemDropsExtension(stem: string, ext: string)
    requires '.' !in ext
    requires exists k :: 0 <= k < |stem| && stem[k] != '.'
    ensures Stem(stem + "." + ext) == stem
  {
    var name := stem + "." + ext;
    var d := LastDot(name, |name|);
    assert name[|stem|] == '.';
    assert d == Some(|stem|) by {
      forall k | |stem| < k < |name| ensures name[k] != '.' {
        assert name[k] == ext[k - |stem| - 1];
      }
    }
    var k :| 0 <= k < |stem| && stem[k] != '.';
    assert name[k] == stem[k];
    assert name[..|stem|] == stem;
  }

  /** The outputs of one file, the formats visited in the order `keys`. */
  function FileOutputs(file: MpoFile, dir: Path, keys: seq<Format>, chosen: Format -> bool, n: Naming): seq<(Path, Image)>
    requires WellFormed(file)
  {
    if |file.frames| < 2 then []
    else Rendered(Select(keys, chosen), Outcomes(file.frames[0], file.frames[1]), OutputPaths(dir, Stem(file.name), n))
  }

  /** The file goes through every selected format. */
  predicate Completes(file: MpoFile, keys: seq<Format>, chosen: Format -> bool) {
    && |file.frames| >= 2
    && (Anaglyph in keys && chosen(Anaglyph) ==> BroadcastsTo(file.frames[1], file.frames[0].w, file.frames[0].h))
  }

  /** A file with two frames completes exactly when every selected format
      renders. */
  lemma CompletesIff(file: MpoFile, keys: seq<Format>, chosen: Format -> bool)
    requires WellFormed(file) && |file.frames| >= 2
    ensures Completes(file, keys, chosen) <==>
      forall f :: f in keys && chosen(f) ==> Outcomes(file.frames[0], file.frames[1])(f).Some?
  {
    forall f | f in keys {
      RenderOutcome(f, file.frames[0], file.frames[1]);
    }
  }

  /** A file yields all its outputs or none, because the anaglyph, the only
      format that can fail, comes first. */
  lemma AllOrNothing(file: MpoFile, dir: Path, keys: seq<Format>, chosen: Format -> bool, n: Naming)
    requires WellFormed(file) && AnaglyphFirst(keys)
    ensures Completes(file, keys, chosen) ==> |FileOutputs(file, dir, keys, chosen, n)| == NumFormats(keys, chosen)
    ensures !Completes(file, keys, chosen) ==> FileOutputs(file, dir, keys, chosen, n) == []
  {
    var sel := Select(keys, chosen);
    SelectCount(keys, chosen);
    if |file.frames| >= 2 {
      var left, right := file.frames[0], file.frames[1];
      var r := Rendered(sel, Outcomes(left, right), OutputPaths(dir, Stem(file.name), n));
      if Completes(file, keys, chosen) {
        RenderedShape(sel, Outcomes(left, right), OutputPaths(dir, Stem(file.name), n));
        if |r| < |sel| {
          SelectMember(keys, chosen, sel[|r|]);
          RenderOutcome(sel[|r|], left, right);
        }
      } else {
        assert keys == [Anaglyph] + keys[1..];
        assert sel == [Anaglyph] + Select(keys[1..], chosen);
        RenderOutcome(Anaglyph, left, right);
      }
    }
  }

  predicate AllWellFormed(files: seq<MpoFile>) {
    forall k :: 0 <= k < |files| ==> WellFormed(files[k])
  }

  /** Where the file's outputs go: below the output folder at the file's own
      sub-folder when sub-folders are walked and not saved in the root. */
  function TargetDir(outputDir: Path, file: MpoFile, includeSubdirs: bool, saveInRoot: bool): Path {
    if includeSubdirs && !saveInRoot then (if file.sub == [] then outputDir else outputDir + file.sub)
    else outputDir
  }

  /** `f.lower().endswith(".mpo")`, with ASCII case folding. */
  predicate IsMpoName(name: string) {
    |name| >= 4 && name[|name| - 4] == '.'
    && (name[|name| - 3] == 'm' || name[|name| - 3] == 'M')
    && (name[|name| - 2] == 'p' || name[|name| - 2] == 'P')
    && (name[|name| - 1] == 'o' || name[|name| - 1] == 'O')
  }

  /** The `.mpo` files of a listing, in listing order. */
  function MpoFiles(listing: seq<MpoFile>): (r: seq<MpoFile>)
    ensures |r| <= |listing|
    ensures forall k :: 0 <= k < |r| ==> r[k] in listing && IsMpoName(r[k].name)
    ensures forall file :: file in listing && IsMpoName(file.name) ==> file in r
  {
    if listing == [] then []
    else (if IsMpoName(listing[0].name) then [listing[0]] else []) + MpoFiles(listing[1..])
  }

  lemma {:induction false} MpoFilesWellFormed(listing: seq<MpoFile>)
    requires AllWellFormed(listing)
    ensures AllWellFormed(MpoFiles(listing))
  {
    if listing != [] {
      MpoFilesWellFormed(listing[1..]);
      assert AllWellFormed(listing[1..]) by {
        forall k | 0 <= k < |listing| - 1 ensures WellFormed(listing[1..][k]) {
          assert listing[1..][k] == listing[k + 1];
        }
      }
    }
  }

  /** The outputs of a whole run, file after file. */
  function AllOutputs(files: seq<MpoFile>, outputDir: Path, includeSubdirs: bool, saveInRoot: bool, keys: seq<Format>, chosen: Format -> bool, n: Naming): seq<(Path, Image)>
    requires AllWellFormed(files)
  {
    if files == [] then []
    else AllOutputs(files[..|files| - 1], outputDir, includeSubdirs, saveInRoot, keys, chosen, n)
         + FileOutputs(files[|files| - 1], TargetDir(outputDir, files[|files| - 1], includeSubdirs, saveInRoot), keys, chosen, n)
  }

  lemma AllOutputsStep(files: seq<MpoFile>, k: nat, outputDir: Path, includeSubdirs: bool, saveInRoot: bool, keys: seq<Format>, chosen: Format -> bool, n: Naming)
    requires AllWellFormed(files) && k < |files|
    ensures AllWellFormed(files[..k]) && AllWellFormed(files[..k + 1])
    ensures AllOutputs(files[..k + 1], outputDir, includeSubdirs, saveInRoot, keys, chosen, n)
      == AllOutputs(files[..k], outputDir, includeSubdirs, saveInRoot, keys, chosen, n)
         + FileOutputs(files[k], TargetDir(outputDir, files[k], includeSubdirs, saveInRoot), keys, chosen, n)
  {
    assert files[..k + 1][..k] == files[..k];
  }

  /** The number of files that go through every selected format. */
  function CompletedFiles(files: seq<MpoFile>, keys: seq<Format>, chosen: Format -> bool): nat {
    if files == [] then 0
    else CompletedFiles(files[..|files| - 1], keys, chosen) + (if Completes(files[|files| - 1], keys, chosen) then 1 else 0)
  }

  lemma CompletedFilesStep(files: seq<MpoFile>, k: nat, keys: seq<Format>, chosen: Format -> bool)
    requires k < |files|
    ensures CompletedFiles(files[..k + 1], keys, chosen)
      == CompletedFiles(files[..k], keys, chosen) + if Completes(files[k], keys, chosen) then 1 else 0
  {
    assert files[..k + 1][..k] == files[..k];
  }

  /** Version 0.5.4: the outputs of a run number the selected formats times
      the files that complete. */
  lemma {:induction false} OutputCount(files: seq<MpoFile>, outputDir: Path, includeSubdirs: bool, saveInRoot: bool, keys: seq<Format>, chosen: Format -> bool, n: Naming)
    requires AllWellFormed(files)
    requires AnaglyphFirst(keys)
    ensures |AllOutputs(files, outputDir, includeSubdirs, saveInRoot, keys, chosen, n)| == CompletedFiles(files, keys, chosen) * NumFormats(keys, chosen)
    ensures CompletedFiles(files, keys, chosen) <= |files|
  {
    if files != [] {
      var init, last := files[..|files| - 1], files[|files| - 1];
      var dir := TargetDir(outputDir, last, includeSubdirs, saveInRoot);
      OutputCount(init, outputDir, includeSubdirs, saveInRoot, keys, chosen, n);
      AllOrNothing(last, dir, keys, chosen, n);
      AllOutputsLast(files, outputDir, includeSubdirs, saveInRoot, keys, chosen, n);
      CountStep(|AllOutputs(files, outputDir, includeSubdirs, saveInRoot, keys, chosen, n)|,
        |AllOutputs(init, outputDir, includeSubdirs, saveInRoot, keys, chosen, n)|, |FileOutputs(last, dir, keys, chosen, n)|,
        CompletedFiles(files, keys, chosen), CompletedFiles(init, keys, chosen), NumFormats(keys, chosen), Completes(last, keys, chosen));
    }
  }

  lemma AllOutputsLast(files: seq<MpoFile>, outputDir: Path, includeSubdirs: bool, saveInRoot: bool, keys: seq<Format>, chosen: Format -> bool, n: Naming)
    requires AllWellFormed(files) && files != []
    ensures AllWellFormed(files[..|files| - 1])
    ensures |AllOutputs(files, outputDir, includeSubdirs, saveInRoot, keys, chosen, n)|
      == |AllOutputs(files[..|files| - 1], outputDir, includeSubdirs, saveInRoot, keys, chosen, n)|
         + |FileOutputs(files[|files| - 1], TargetDir(outputDir, files[|files| - 1], includeSubdirs, saveInRoot), keys, chosen, n)|
    ensures CompletedFiles(files, keys, chosen)
      == CompletedFiles(files[..|files| - 1], keys, chosen) + if Completes(files[|files| - 1], keys, chosen) then 1 else 0
  {
  }

  /** A file adds `m` outputs and one completed file, or neither. */
  lemma CountStep(total: nat, before: nat, added: nat, after: nat, c: nat, m: nat, completes: bool)
    requires total == before + added && before == c * m
    requires added == (if completes then m else 0) && after == c + if completes then 1 else 0
    ensures total == after * m && after <= c + 1
  {
    if completes {
      MulSucc(c, m);
    }
  }

  /** A helper for the counting proofs: `(c + 1) * m`, expanded. */
  lemma MulSucc(c: nat, m: nat)
    ensures (c + 1) * m == c * m + m
  {
  }

  /** `total_files` of version 0.5.4. */
  function ExpectedOutputs(files: seq<MpoFile>, keys: seq<Format>, chosen: Format -> bool): nat {
    if NumFormats(keys, chosen) > 0 then |files| * NumFormats(keys, chosen) else 0
  }

  /** Version 0.5.4's counter never passes the expected total, and reaches it
      exactly when every file completes (or when nothing is selected). */
  lemma ReachesTotalIff(files: seq<MpoFile>, outputDir: Path, includeSubdirs: bool, saveInRoot: bool, keys: seq<Format>, chosen: Format -> bool, n: Naming)
    requires AllWellFormed(files)
    requires AnaglyphFirst(keys)
    ensures |AllOutputs(files, outputDir, includeSubdirs, saveInRoot, keys, chosen, n)| <= ExpectedOutputs(files, keys, chosen)
    ensures |AllOutputs(files, outputDir, includeSubdirs, saveInRoot, keys, chosen, n)| == ExpectedOutputs(files, keys, chosen)
      <==> NumFormats(keys, chosen) == 0 || CompletedFiles(files, keys, chosen) == |files|
  {
    OutputCount(files, outputDir, includeSubdirs, saveInRoot, keys, chosen, n);
    CountAgainstTotal(|AllOutputs(files, outputDir, includeSubdirs, saveInRoot, keys, chosen, n)|,
      CompletedFiles(files, keys, chosen), |files|, NumFormats(keys, chosen));
  }

  /** `c` of `t` files complete, each giving `m` outputs. */
  lemma CountAgainstTotal(count: nat, c: nat, t: nat, m: nat)
    requires count == c * m && c <= t
    ensures count <= (if m > 0 then t * m else 0)
    ensures count == (if m > 0 then t * m else 0) <==> m == 0 || c == t
  {
    if c < t {
      assert t * m == c * m + (t - c) * m;
    }
  }

  /** Why processing does not start: no folder chosen, or no format. */
  function StartError(inputDir: string, outputDir: string, keys: seq<Format>, chosen: Format -> bool): (r: Option<string>)
    ensures r.None? <==> inputDir != "" && outputDir != "" && NumFormats(keys, chosen) > 0
  {
    if inputDir == "" || outputDir == "" then Some("Please select input and output directories.")
    else if NoneChosen(keys, chosen) then Some("Please select at least one output format.")
    else None
  }

  /** `not any(f.get() for f in self.formats.values())`. */
  function NoneChosen(keys: seq<Format>, chosen: Format -> bool): (r: bool)
    ensures r <==> NumFormats(keys, chosen) == 0
  {
    if keys == [] then true else !chosen(keys[0]) && NoneChosen(keys[1..], chosen)
  }

  // ---------------------------------------------------------------------------
  // The processing loops.

  class Session {
    /** `processed[0]`. */
    var processed: nat
    /** What has been saved so far, in order. */
    var saved: seq<(Path, Image)>

    constructor ()
      ensures processed == 0 && saved == []
    {
      processed := 0;
      saved := [];
    }

    /** The loop over `self.formats.items()` for one file, `out` giving the
        image each format's branch produces. It stops at the first format that
        raises; with `perFormat` (version 0.5.4) every save advances the
        counter. */
    method SaveFormats(keys: seq<Format>, out: Format -> Option<Image>, pathOf: Format -> Path, chosen: Format -> bool, perFormat: bool)
      returns (completed: bool)
      modifies this
      ensures saved == old(saved) + Rendered(Select(keys, chosen), out, pathOf)
      ensures processed == old(processed) + if perFormat then |Rendered(Select(keys, chosen), out, pathOf)| else 0
      ensures completed <==> forall f :: f in keys && chosen(f) ==> out(f).Some?
    {
      var k := 0;
      while k < |keys|
        invariant 0 <= k <= |keys|
        invariant |Rendered(Select(keys[..k], chosen), out, pathOf)| == |Select(keys[..k], chosen)|
        invariant saved == old(saved) + Rendered(Select(keys[..k], chosen), out, pathOf)
        invariant processed == old(processed) + if perFormat then |Select(keys[..k], chosen)| else 0
      {
        var fmt := keys[k];
        SelectStep(keys, k, chosen);
        if !chosen(fmt) {
          k := k + 1;
          continue;
        }
        var img := out(fmt);
        if img.None? {
          RenderedStops(keys, k, chosen, out, pathOf);
          return false;
        }
        RenderedSnoc(Select(keys[..k], chosen), fmt, out, pathOf);
        SeqAssoc(old(saved), Rendered(Select(keys[..k], chosen), out, pathOf), [(pathOf(fmt), img.value)]);
        saved := saved + [(pathOf(fmt), img.value)];
        if perFormat {
          processed := processed + 1;
        }
        k := k + 1;
      }
      assert keys[..k] == keys;
      RenderedAll(keys, chosen, out, pathOf);
      completed := true;
    }

    /** `process_mpo` of version 0.5.4. */
    method ProcessMpoPerFormat(file: MpoFile, dir: Path, keys: seq<Format>, chosen: Format -> bool, n: Naming)
      requires WellFormed(file)
      modifies this
      ensures saved == old(saved) + FileOutputs(file, dir, keys, chosen, n)
      ensures processed == old(processed) + |FileOutputs(file, dir, keys, chosen, n)|
    {
      if |file.frames| < 2 {
        return;
      }
      var _ := SaveFormats(keys, Outcomes(file.frames[0], file.frames[1]), OutputPaths(dir, Stem(file.name), n), chosen, true);
    }

    /** `process_mpo` of version 0.4.1: the counter moves once, after the last
        format. */
    method ProcessMpoPerFile(file: MpoFile, dir: Path, keys: seq<Format>, chosen: Format -> bool, n: Naming)
      requires WellFormed(file)
      modifies this
      ensures saved == old(saved) + FileOutputs(file, dir, keys, chosen, n)
      ensures processed == old(processed) + if Completes(file, keys, chosen) then 1 else 0
    {
      if |file.frames| < 2 {
        return;
      }
      var completed := SaveFormats(keys, Outcomes(file.frames[0], file.frames[1]), OutputPaths(dir, Stem(file.name), n), chosen, false);
      CompletesIff(file, keys, chosen);
      if completed {
        processed := processed + 1;
      }
    }

    /** The loop of `task` in version 0.5.4 over the files found. */
    method ProcessAllPerFormat(files: seq<MpoFile>, outputDir: Path, includeSubdirs: bool, saveInRoot: bool, keys: seq<Format>, chosen: Format -> bool, n: Naming)
      requires AllWellFormed(files) && saved == [] && processed == 0
      modifies this
      ensures saved == AllOutputs(files, outputDir, includeSubdirs, saveInRoot, keys, chosen, n)
      ensures processed == |saved|
    {
      var k := 0;
      while k < |files|
        invariant 0 <= k <= |files|
        invariant AllWellFormed(files[..k])
        invariant saved == AllOutputs(files[..k], outputDir, includeSubdirs, saveInRoot, keys, chosen, n)
        invariant processed == |saved|
      {
        AllOutputsStep(files, k, outputDir, includeSubdirs, saveInRoot, keys, chosen, n);
        var dir := TargetDir(outputDir, files[k], includeSubdirs, saveInRoot);
        ProcessMpoPerFormat(files[k], dir, keys, chosen, n);
        k := k + 1;
      }
      assert files[..k] == files;
    }

    /** The loop of `task` in version 0.4.1 over the files found. */
    method ProcessAllPerFile(files: seq<MpoFile>, outputDir: Path, includeSubdirs: bool, saveInRoot: bool, keys: seq<Format>, chosen: Format -> bool, n: Naming)
      requires AllWellFormed(files) && saved == [] && processed == 0
      modifies this
      ensures saved == AllOutputs(files, outputDir, includeSubdirs, saveInRoot, keys, chosen, n)
      ensures processed == CompletedFiles(files, keys, chosen)
    {
      var k := 0;
      while k < |files|
        invariant 0 <= k <= |files|
        invariant AllWellFormed(files[..k])
        invariant saved == AllOutputs(files[..k], outputDir, includeSubdirs, saveInRoot, keys, chosen, n)
        invariant processed == CompletedFiles(files[..k], keys, chosen)
      {
        ProcessNextPerFile(files, k, outputDir, includeSubdirs, saveInRoot, keys, chosen, n);
        k := k + 1;
      }
      assert files[..k] == files;
    }

    /** One turn of the file loop of version 0.4.1: file `k` after the files
        before it. */
    method ProcessNextPerFile(files: seq<MpoFile>, k: nat, outputDir: Path, includeSubdirs: bool, saveInRoot: bool, keys: seq<Format>, chosen: Format -> bool, n: Naming)
      requires AllWellFormed(files) && k < |files|
      requires AllWellFormed(files[..k])
      requires saved == AllOutputs(files[..k], outputDir, includeSubdirs, saveInRoot, keys, chosen, n)
      requires processed == CompletedFiles(files[..k], keys, chosen)
      modifies this
      ensures AllWellFormed(files[..k + 1])
      ensures saved == AllOutputs(files[..k + 1], outputDir, includeSubdirs, saveInRoot, keys, chosen, n)
      ensures processed == CompletedFiles(files[..k + 1], keys, chosen)
    {
      AllOutputsStep(files, k, outputDir, includeSubdirs, saveInRoot, keys, chosen, n);
      CompletedFilesStep(files, k, keys, chosen);
      var dir := TargetDir(outputDir, files[k], includeSubdirs, saveInRoot);
      ProcessMpoPerFile(files[k], dir, keys, chosen, n);
    }
  }

  /** `task` of version 0.5.4: list the `.mpo` files, compute the expected
      total, and process the files in order over `self.formats`. The counter
      never passes the total, and reaches it exactly when every file completes
      or nothing is selected. */
  method TaskPerFormat(listing: seq<MpoFile>, outputDir: Path, includeSubdirs: bool, saveInRoot: bool, chosen: Format -> bool, n: Naming)
    returns (s: Session, total: nat)
    requires AllWellFormed(listing)
    ensures fresh(s)
    ensures total == ExpectedOutputs(MpoFiles(listing), Formats, chosen)
    ensures s.saved == AllOutputs(MpoFiles(listing), outputDir, includeSubdirs, saveInRoot, Formats, chosen, n)
    ensures s.processed == |s.saved|
    ensures s.processed <= total
    ensures s.processed == total
      <==> NumFormats(Formats, chosen) == 0 || CompletedFiles(MpoFiles(listing), Formats, chosen) == |MpoFiles(listing)|
  {
    var files := MpoFiles(listing);
    MpoFilesWellFormed(listing);
    var m := NumFormats(Formats, chosen);
    total := if m > 0 then |files| * m else 0;
    s := new Session();
    s.ProcessAllPerFormat(files, outputDir, includeSubdirs, saveInRoot, Formats, chosen, n);
    FormatsAnaglyphFirst();
    ReachesTotalIff(files, outputDir, includeSubdirs, saveInRoot, Formats, chosen, n);
  }

  /** `task` of version 0.4.1: the expected total is the number of files, and
      the counter reaches it exactly when every file completes. */
  method TaskPerFile(listing: seq<MpoFile>, outputDir: Path, includeSubdirs: bool, saveInRoot: bool, chosen: Format -> bool, n: Naming)
    returns (s: Session, total: nat)
    requires AllWellFormed(listing)
    ensures fresh(s)
    ensures total == |MpoFiles(listing)|
    ensures s.saved == AllOutputs(MpoFiles(listing), outputDir, includeSubdirs, saveInRoot, Formats, chosen, n)
    ensures s.processed == CompletedFiles(MpoFiles(listing), Formats, chosen)
    ensures s.processed <= total
  {
    var files := MpoFiles(listing);
    MpoFilesWellFormed(listing);
    total := |files|;
    s := new Session();
    s.ProcessAllPerFile(files, outputDir, includeSubdirs, saveInRoot, Formats, chosen, n);
    FormatsAnaglyphFirst();
    OutputCount(files, outputDir, includeSubdirs, saveInRoot, Formats, chosen, n);
  }
}
