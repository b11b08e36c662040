# Image restructuring rename of the asset build pipeline

The build pipeline optimises every raster image under `image/` and writes it
to `dist/`, renaming it on the way with `renameForStructure`
(`gulpfile.js`). That rename is the only logic the pipeline owns, and it is
what this project models and proves things about.

For a file `<group>/.../<name><ext>` relative to the glob base `image/`:

- the source folder is the first segment of the folder path, `dirname.split(path.sep)[0]`;
- the basename is cut into `firstWord` and `rest`. The cut is made by the
  regular expression `^(.*?)-(\d.*)$` at the first hyphen that is
  immediately followed by an ASCII digit. When the name contains an `@`, only
  the part before the first `@` is searched, and the part from the `@` on is
  appended to `rest` unchanged;
- the file moves to folder `firstWord` and is named
  `firstWord-<sourceFolder><rest>`; the extension is left alone.

So `banners/promo-200.png` becomes `promo/promo-banners-200.png`,
`icons/logo@2x.png` becomes `logo/logo-icons@2x.png`, and
`hero/bg-desktop-4k.jpg` becomes `bg-desktop/bg-desktop-hero-4k.jpg`.

Files:

- `segmenter.dfy`, module `Segmenter`: the inner helper
  `splitAtDashBeforeDigit`. `LazyMatch` models how a JavaScript engine
  searches for the lazy group `(.*?)`. The group grows one character at a
  time and never over a line terminator. At each length the engine tries the
  rest of the pattern, `-(\d.*)$`. The lemmas relate the result to a
  declarative definition: the first hyphen-before-digit of a name with no
  line terminator.
- `jsstring.dfy`, module `JsString`: the JavaScript string operations the
  callback uses. These are `indexOf` of one character and `split` on a
  one-character separator. Joining the pieces of `Split` gives back the
  string, and splitting a join of separator-free pieces gives back the pieces.
- `rename.dfy`, module `Rename`: the callback. `SplitBasename` is the
  specification of the `firstWord`/`rest` pair. The class `FileRecord` is the
  path record that `gulp-rename` hands to the callback. Its method
  `RenameForStructure` updates `dirname` and `basename` in place, as the
  callback does. The methods `ExamplePromo`, `ExampleLogo` and `ExampleHero`
  build a record for each of the three examples above, apply the rename and
  assert the resulting folder, name and extension. The hero record sits one
  folder deeper, `hero/wide/bg-desktop-4k.jpg`, so that a nested folder path
  is exercised; its source folder is still `hero` and the result is the same.

The regular expression has no flags, so `.` does not match a line
terminator (`\n`, `\r`, U+2028, U+2029). A hyphen-before-digit is therefore a
cut only when the searched part holds no line terminator. When the part
before the first `@` (all of the name, if it has no `@`) holds one, that
part is not cut at a hyphen: `firstWord` is all of it, and `rest` is the
`@` suffix, or "" without an `@`. So `a\n-5@2x` gives `a\n-5` and `@2x`.
`LazyMatch`, `HeadCharacterised` and `LineTerminatorPreventsCut` state this.

## Model

| member | source | states |
|---|---|---|
| `Segmenter.LazyMatch` | gulpfile.js:33-34 | The engine's lazy search succeeds with length k exactly when the rest of the name has no line terminator, k is a hyphen-before-digit and none comes earlier. When it fails, the name has a line terminator or no hyphen-before-digit. |
| `Segmenter.SplitAtDashBeforeDigit` | gulpfile.js:32-39 | Head and tail always concatenate to the name. The tail is non-empty exactly when the name has no line terminator and has a hyphen-before-digit. On a match the head ends at the first hyphen-before-digit. |
| `Segmenter.NoMatchKeepsName` | gulpfile.js:38 | Without a hyphen-before-digit, or with a line terminator, the result is the whole name and "". |
| `Segmenter.HeadCharacterised` | gulpfile.js:33-38 | The head is the name up to its first hyphen-before-digit when the pattern matches, and the whole name when it does not (both directions). |
| `Segmenter.MatchCutsAtFirstDashDigit` | gulpfile.js:33-36 | On a match the tail starts with '-' and an ASCII digit, and the head holds no hyphen-before-digit. |
| `Segmenter.FirstCutIsUnique` | gulpfile.js:33-36 | The converse: any cut whose tail starts with a hyphen-before-digit and whose head holds none is the helper's result, when the name has no line terminator. So `A-123B` gives `A` and `-123B` when `A` has no hyphen-before-digit and the name has no line terminator. |
| `JsString.IndexOf` | gulpfile.js:41-42 | The result is -1 exactly when the character is absent. Otherwise it is an index holding the character with no earlier occurrence. |
| `JsString.Split` | gulpfile.js:26 | There is always at least one piece, no piece holds the separator, and joining the pieces with the separator gives back the input. |
| `JsString.SplitFirstPiece` | gulpfile.js:26 | Piece 0 is the text before the first separator, or the whole string when there is none. |
| `JsString.SplitOfPiece` | gulpfile.js:26 | A string without the separator splits into one piece, itself. |
| `JsString.SplitAfterPiece` | gulpfile.js:26 | Splitting `a<sep>rest`, with `a` free of the separator, gives `a` followed by the pieces of `rest`. |
| `JsString.SplitOfJoin` | gulpfile.js:26 | Splitting the join of separator-free pieces gives back those pieces, so `Split` and `Join` are inverse both ways on such pieces. |
| `Rename.SourceFolder` | gulpfile.js:26 | `sourceFolder` is a prefix of `dirname` that holds no separator and is followed by a separator or by the end of `dirname`. |
| `Rename.SourceFolderOfFlatPath` | gulpfile.js:26 | A folder path without a separator is its own source folder. |
| `Rename.SourceFolderOfNestedPath` | gulpfile.js:26 | The source folder of `top<sep>more` is `top`, whatever `more` holds. |
| `Rename.AtBound` | gulpfile.js:41-43 | The end of the searched part is the index of the first `@`, or the length of the name when there is no `@`. |
| `Rename.SplitBasename` | gulpfile.js:41-50 | In both branches `firstWord + rest == basename`, and `firstWord` never contains `@`. |
| `Rename.FirstWordSpec` | gulpfile.js:41-50 | `firstWord` is the part before the first `@` cut at its first hyphen-before-digit when that part matches the pattern. Otherwise it is that whole part (both directions). |
| `Rename.FirstWordFromPrefix` | gulpfile.js:41-50 | In both branches `firstWord` is the helper's head of the text before the first `@` (all of the name when there is none). |
| `Rename.LineTerminatorPreventsCut` | gulpfile.js:33-50 | When the part before the first `@` holds a line terminator, `firstWord` is all of that part and `rest` is the rest of the name. |
| `Rename.VariantMarkerKept` | gulpfile.js:44-47 | With an `@`, the text from the first `@` on is a verbatim suffix of `rest`. |
| `Rename.MarkerDoesNotMoveCut` | gulpfile.js:42-46 | Two names that agree up to their first `@` get the same `firstWord`, whatever follows the `@`. |
| `Rename.NoMarkerSplitsWhole` | gulpfile.js:48-49 | Without an `@` the whole basename is handed to the helper. |
| `Rename.DigitAfterMarkerIgnored` | gulpfile.js:41-47 | `a@x-2` gives `firstWord = "a"` and `rest = "@x-2"`. |
| `Rename.DensityMarkerKept` | gulpfile.js:41-47 | `logo@2x` gives `logo` and `@2x`. |
| `Rename.DigitSuffixMoved` | gulpfile.js:32-38 | `promo-200` gives `promo` and `-200`. |
| `Rename.FirstDigitLedHyphen` | gulpfile.js:33-36 | `bg-desktop-4k` gives `bg-desktop` and `-4k`. The first hyphen is not digit-led, so the cut is at the second. |
| `Rename.FileRecord.RenameForStructure` | gulpfile.js:25-55 | The callback sets `dirname` to `firstWord` and `basename` to `firstWord-<sourceFolder><rest>`. Equivalently, `-<sourceFolder>` is inserted into the old basename right after `firstWord`. `extname` is unchanged. |
| `Rename.RenameLengthens` | gulpfile.js:52-53 | The new basename is strictly longer than the old one, so the rename is one-way. |

## Left out

- `clean` (gulpfile.js:19-21): a dynamic import of `del` and an asynchronous recursive deletion of `dist/`. This is filesystem I/O through a foreign library.
- Image recompression in `optimizeImages` (gulpfile.js:59-67): `imagemin`, `mozjpeg` (quality 70, progressive) and `optipng` (level 3) are opaque codecs. Only the rename step of that stage is modelled.
- Font conversions `otf2ttf`, `ttf2woffTask` and `ttf2woff2Task` (gulpfile.js:70-88): thin wrappers over binary font converters.
- The task graph built with `gulp.series` and `gulp.parallel`, and the exports (gulpfile.js:91-109): library-driven concurrency with no logic of its own.
- `gulp.src` and `gulp.dest`, and the path constants (gulpfile.js:11-16): file discovery and writing. The model takes the record's `dirname`, `basename` and `extname` as `gulp-rename` computes them. How `gulp-rename` derives them from the file path, and how it applies the changed record, is not part of this model.
- Node's `path` module: `path.sep` is a `char` parameter. On every platform it is a single character (`/` or `\`). `split` with an empty separator therefore cannot occur and is not modelled.
- JavaScript strings are sequences of UTF-16 code units, while a Dafny `char` is a Unicode scalar value. The regular expression has no `u` flag, so `.` matches each half of a surrogate pair. Neither half is a line terminator, a digit, `-` or `@`. So the cut falls at the same characters under either view, and the model works on scalar values. A string holding an unpaired surrogate has no `char` sequence in Dafny and is outside the model, although the cut would be the same for it, for the same reason.
