/** The `gulp-rename` callback built by `renameForStructure`: every optimised
    image `<group>/.../<name><ext>` (relative to the glob base `image/`) is
    moved to `<firstWord>/<firstWord>-<group><rest><ext>`. */
module Rename {
  import opened Segmenter
  import opened JsString

  /** `file.dirname.split(path.sep)[0]`: the top-level folder under the
      glob base. `sep` stands for Node's `path.sep`. */
  function SourceFolder(dirname: string, sep: char): (r: string)
    ensures r <= dirname
    ensures sep !in r
    ensures |r| < |dirname| ==> dirname[|r|] == sep
  {
    SplitFirstPiece(dirname, sep);
    Split(dirname, sep)[0]
  }

  /** Where the hyphen-before-digit search ends: at the first `@`, or at the
      end of the name when it has none. */
  function AtBound(basename: string): (a: nat)
    ensures a <= |basename|
    ensures '@' !in basename[..a]
    ensures a < |basename| ==> basename[a] == '@'
  {
    if '@' in basename then IndexOf(basename, '@') else |basename|
  }

  /** The `firstWord` and `rest` the callback computes from the basename:
      with an `@`, the part before the first `@` is split and everything
      from the `@` on is appended to `rest`; without, the whole basename is
      split. */
  function SplitBasename(basename: string): (r: Parts)
    ensures r.head + r.tail == basename
    ensures '@' !in r.head
  {
    if '@' in basename then
      var atIndex := IndexOf(basename, '@');
      var beforeAt := basename[..atIndex];
      var afterAt := basename[atIndex..];
      var p := SplitAtDashBeforeDigit(beforeAt);
      Regroup(p.head, p.tail, afterAt);
      SliceJoin(basename, atIndex);
      AbsentFromPrefix(p.head, p.tail, '@');
      Parts(p.head, p.tail + afterAt)
    else
      var p := SplitAtDashBeforeDigit(basename);
      AbsentFromPrefix(p.head, p.tail, '@');
      p
  }

  /** What `firstWord` is, without reference to the branches: the name up
      to the first hyphen-before-digit that lies before the first `@`, when
      that part has one and no line terminator; otherwise the name up to the
      first `@` (or all of it). */
  lemma {:induction false} FirstWordSpec(basename: string)
    ensures var r := SplitBasename(basename);
      var a := AtBound(basename);
      && |r.head| <= a
      && (|r.head| < a <==> NoLineTerminator(basename[..a]) && HasDashDigit(basename[..a]))
      && (|r.head| < a ==> IsFirstDashDigit(basename[..a], |r.head|))
      && (|r.head| == a ==> r.head == basename[..a])
  {
    FirstWordFromPrefix(basename);
    HeadCharacterised(basename[..AtBound(basename)]);
  }

  /** In both branches `firstWord` is the helper's head of the part before
      the first `@`. */
  lemma FirstWordFromPrefix(basename: string)
    ensures SplitBasename(basename).head == SplitAtDashBeforeDigit(basename[..AtBound(basename)]).head
  {
    if '@' !in basename {
      assert basename[..AtBound(basename)] == basename;
    }
  }

  /** The variant marker (from the first `@` on) ends `rest` verbatim. */
  lemma VariantMarkerKept(basename: string)
    requires '@' in basename
    ensures var r := SplitBasename(basename);
      var marker := basename[IndexOf(basename, '@')..];
      && |marker| <= |r.tail|
      && r.tail[|r.tail| - |marker|..] == marker
  {
  }

  /** Nothing after the first `@` affects `firstWord`: two names that agree
      up to their first `@` get the same first word, digits after the `@`
      notwithstanding. */
  lemma MarkerDoesNotMoveCut(b1: string, b2: string)
    requires '@' in b1 && '@' in b2
    requires b1[..IndexOf(b1, '@')] == b2[..IndexOf(b2, '@')]
    ensures SplitBasename(b1).head == SplitBasename(b2).head
  {
  }

  /** Without an `@` the whole basename goes to the helper. */
  lemma NoMarkerSplitsWhole(basename: string)
    requires '@' !in basename
    ensures SplitBasename(basename) == SplitAtDashBeforeDigit(basename)
  {
  }

  /** A line terminator before the first `@` (or anywhere, without an `@`)
      means no cut: `firstWord` is all of the part before the `@`, and `rest`
      is the `@` suffix, or "" without an `@`. So `a\n-5@2x` gives `a\n-5`
      and `@2x`. */
  lemma {:induction false} LineTerminatorPreventsCut(basename: string)
    requires !NoLineTerminator(basename[..AtBound(basename)])
    ensures var a := AtBound(basename);
      SplitBasename(basename) == Parts(basename[..a], basename[a..])
  {
    var a := AtBound(basename);
    FirstWordFromPrefix(basename);
    NoMatchKeepsName(basename[..a]);
    var r := SplitBasename(basename);
    assert r.head == basename[..a];
    CutAt(r.head, r.tail);
  }

  // LogoMarkerAt, LogoPieces, PromoFacts and BackgroundFacts model nothing
  // of their own: they gather facts about the example strings in small
  // separate proofs so that the solver does not unfold the definitions on
  // those literals all at once.

  lemma LogoMarkerAt()
    ensures AtBound("logo@2x") == 4
  {
    assert IndexOf("logo@2x", '@') == 4;
  }

  lemma LogoPieces()
    ensures "logo@2x"[..4] == "logo" && "logo@2x"[4..] == "@2x"
  {
  }

  /** `logo@2x`: no cut before the `@`, and the marker is carried whole. */
  lemma DensityMarkerKept()
    ensures SplitBasename("logo@2x") == Parts("logo", "@2x")
  {
    LogoMarkerAt();
    LogoPieces();
    FirstWordFromPrefix("logo@2x");
    NoMatchKeepsName("logo");
  }

  /** `a@x-2`: the hyphen-before-digit after the `@` is not a cut. */
  lemma DigitAfterMarkerIgnored()
    ensures SplitBasename("a@x-2") == Parts("a", "@x-2")
  {
    assert IndexOf("a@x-2", '@') == 1;
    assert "a@x-2"[..1] == "a";
    NoMatchKeepsName("a");
  }

  lemma PromoFacts()
    ensures '@' !in "promo-200" && NoLineTerminator("promo-200")
    ensures !HasDashDigit("promo") && DashDigitAt("-200", 0) && "promo" + "-200" == "promo-200"
  {
  }

  /** `promo-200` is cut into `promo` and `-200`. */
  lemma DigitSuffixMoved()
    ensures SplitBasename("promo-200") == Parts("promo", "-200")
  {
    PromoFacts();
    NoMarkerSplitsWhole("promo-200");
    FirstCutIsUnique("promo-200", "promo", "-200");
  }

  lemma BackgroundFacts()
    ensures '@' !in "bg-desktop-4k" && NoLineTerminator("bg-desktop-4k")
    ensures !HasDashDigit("bg-desktop") && DashDigitAt("-4k", 0)
    ensures "bg-desktop" + "-4k" == "bg-desktop-4k"
  {
  }

  /** `bg-desktop-4k`: `-desktop` is not digit-led, so the cut is at `-4k`. */
  lemma FirstDigitLedHyphen()
    ensures SplitBasename("bg-desktop-4k") == Parts("bg-desktop", "-4k")
  {
    BackgroundFacts();
    NoMarkerSplitsWhole("bg-desktop-4k");
    FirstCutIsUnique("bg-desktop-4k", "bg-desktop", "-4k");
  }

  /** A folder path without a separator is its own source folder. */
  lemma SourceFolderOfFlatPath(dirname: string, sep: char)
    requires sep !in dirname
    ensures SourceFolder(dirname, sep) == dirname
  {
  }

  /** The source folder of `top<sep>more` is `top`, whatever `more` holds. */
  lemma SourceFolderOfNestedPath(top: string, more: string, sep: char)
    requires sep !in top
    ensures SourceFolder(top + [sep] + more, sep) == top
  {
    var d := top + [sep] + more;
    var r := SourceFolder(d, sep);
    assert d[|top|] == sep;
    assert d[..|top|] == top;
  }

  /** The rename is one-way: the new basename is always longer than the old
      one (by the `-` and the source folder), so renaming an output again never
      gives it back. */
  lemma RenameLengthens(basename: string, dirname: string, sep: char)
    ensures var p := SplitBasename(basename);
      |p.head + "-" + SourceFolder(dirname, sep) + p.tail| > |basename|
  {
  }

  /** The path record `gulp-rename` hands to the callback. */
  class FileRecord {
    var dirname: string
    var basename: string
    var extname: string

    constructor (dirname: string, basename: string, extname: string)
      ensures this.dirname == dirname && this.basename == basename && this.extname == extname
    {
      this.dirname := dirname;
      this.basename := basename;
      this.extname := extname;
    }

    /** The rename callback: the folder becomes `firstWord`, and the basename
        gets `-<sourceFolder>` inserted right after `firstWord`; the
        extension is left alone. */
    method RenameForStructure(sep: char)
      modifies this
      ensures dirname == SplitBasename(old(basename)).head
      ensures basename == dirname + "-" + SourceFolder(old(dirname), sep)
                          + SplitBasename(old(basename)).tail
      ensures basename == old(basename)[..|dirname|] + "-" + SourceFolder(old(dirname), sep)
                          + old(basename)[|dirname|..]
      ensures extname == old(extname)
    {
      var sourceFolder := Split(dirname, sep)[0];
      var basename := this.basename;

      var firstWord := "";
      var rest := "";

      if '@' in basename {
        var atIndex := IndexOf(basename, '@');
        var beforeAt := basename[..atIndex];
        var afterAt := basename[atIndex..];

        var p := SplitAtDashBeforeDigit(beforeAt);
        firstWord, rest := p.head, p.tail;
        rest := rest + afterAt;
        assert Parts(firstWord, rest) == SplitBasename(basename);
      } else {
        var p := SplitAtDashBeforeDigit(basename);
        firstWord, rest := p.head, p.tail;
        assert Parts(firstWord, rest) == SplitBasename(basename);
      }

      CutAt(firstWord, rest);
      this.dirname := firstWord;
      this.basename := firstWord + "-" + sourceFolder + rest;
    }
  }

  // Three example renames, run through the record end to end. The lemmas
  // just below gather the facts about the example folders and the joined
  // names in small proofs of their own, for the same reason as LogoMarkerAt
  // and the others above.

  lemma BannersFolder()
    ensures SourceFolder("banners", '/') == "banners"
  {
    SourceFolderOfFlatPath("banners", '/');
  }

  lemma IconsFolder()
    ensures SourceFolder("icons", '/') == "icons"
  {
    SourceFolderOfFlatPath("icons", '/');
  }

  lemma HeroFolder()
    ensures SourceFolder("hero/wide", '/') == "hero"
  {
    SourceFolderOfNestedPath("hero", "wide", '/');
    assert "hero" + ['/'] + "wide" == "hero/wide";
  }

  lemma PromoJoined()
    ensures "promo" + "-" + "banners" + "-200" == "promo-banners-200"
  {
  }

  lemma LogoJoined()
    ensures "logo" + "-" + "icons" + "@2x" == "logo-icons@2x"
  {
  }

  lemma HeroJoined()
    ensures "bg-desktop" + "-" + "hero" + "-4k" == "bg-desktop-hero-4k"
  {
  }

  /** `banners/promo-200.png` is written to `promo/promo-banners-200.png`. */
  method ExamplePromo() {
    var f := new FileRecord("banners", "promo-200", ".png");
    f.RenameForStructure('/');
    DigitSuffixMoved();
    BannersFolder();
    PromoJoined();
    assert f.dirname == "promo" && f.basename == "promo-banners-200" && f.extname == ".png";
  }

  /** `icons/logo@2x.png` is written to `logo/logo-icons@2x.png`. */
  method ExampleLogo() {
    var f := new FileRecord("icons", "logo@2x", ".png");
    f.RenameForStructure('/');
    DensityMarkerKept();
    IconsFolder();
    LogoJoined();
    assert f.dirname == "logo" && f.basename == "logo-icons@2x" && f.extname == ".png";
  }

  /** `hero/wide/bg-desktop-4k.jpg` is written to
      `bg-desktop/bg-desktop-hero-4k.jpg`. */
  method ExampleHero() {
    var f := new FileRecord("hero/wide", "bg-desktop-4k", ".jpg");
    f.RenameForStructure('/');
    FirstDigitLedHyphen();
    HeroFolder();
    HeroJoined();
    assert f.dirname == "bg-desktop" && f.basename == "bg-desktop-hero-4k" && f.extname == ".jpg";
  }

  // Sequence facts the definitions above lean on. They model nothing of
  // their own; stating them apart keeps the solver steady on the
  // concatenations in SplitBasename and RenameForStructure.

  lemma Regroup(h: string, t: string, u: string)
    ensures h + (t + u) == (h + t) + u
  {
  }

  lemma SliceJoin(s: string, i: nat)
    requires i <= |s|
    ensures s[..i] + s[i..] == s
  {
  }

  lemma AbsentFromPrefix(h: string, t: string, c: char)
    requires c !in h + t
    ensures c !in h
  {
  }

  lemma CutAt(h: string, t: string)
    ensures (h + t)[..|h|] == h && (h + t)[|h|..] == t
  {
  }
}
