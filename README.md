# regions — a verified model of the region engine

`regions` is a small command-line tool. It reads geographic regions given as
`-R xmin/xmax/ymin/ymax`, or as the shorthands `d` (-180/180/-90/90) and `g`
(0/360/-90/90). It can merge them into one envelope (`-m`). It then prints each region
that was valid before buffering; only those are buffered by the margin of `-b`, so a
negative margin can print an inverted box. Each one is printed in one of three ways:
- as a `-R` string (`-e`);
- as a tile name such as `n45x00_w125x00` (`-n`);
- as a GMT polygon feature (the default).

This project models the region engine of `src/regions.c` in Dafny:
- the region record;
- `region_p`, `region_center`, `region_extend` and `region_merge`;
- `region_parse` with its strtok tokenizer;
- the `d`/`g` shorthands;
- the value and letter selection of `region_name` and `region_format`;
- the per-region loop at the end of `main`.

The model is split into four modules:

- `Regions` (`regions.dfy`): the `Region` and `Point` records and validity.
  - `Center` and `Extended` are functions.
  - `MergeRegions` is a method that updates `regions[0]` of an array in place, field by field.
  - `ExtendAt` is the in-place `region_extend` of one array entry.
- `RegionParse` (`parse.dfy`):
  - strtok's splitting on `/` (`Tokens`), and one strtok call over an explicit scan state (`Strtok`).
  - `Parse`, the four-step loop of `region_parse`, proved equal to the positional reading `Parsed`.
  - The text strtok leaves in a buffer it has cut (`AfterStrtok`).
  - The shorthand expansion.
- `RegionOutput` (`output.dfy`):
  - C's truncating `(int)` cast and `%`.
  - The hemisphere letters and the degree and hundredth parts of `region_name`.
  - The vertex ring and header flag of `region_format`.
- `RegionsMain` (`main.dfy`):
  - collecting the `-R` regions;
  - the optional merge;
  - the loop that checks validity, buffers in place and picks the output mode.

  The loop returns its output as a trace of values (`EchoLine`, `NameLine`, `FeatureBlock`).

Coordinates are exact `real`s. The C library's `atof` is a parameter `atof: string -> real`.
`region_parse` leaves some bounds of its local `region_t` unwritten. Those bounds read as the
fields of a parameter `uninit: Region`, which stands for that indeterminate memory.

## Model

| member | source | states |
|---|---|---|
| Regions.RegionP | src/regions.c:78-84 | The result is 0 or 1, and it is 1 exactly when xmin < xmax and ymin < ymax; equal bounds are invalid |
| Regions.ValidIffInterior | src/regions.c:78-84 | A region is valid exactly when some point lies strictly inside it |
| Regions.Center | src/regions.c:152-159 | The centre is equidistant from the west and east bounds and from the south and north bounds; for a valid region it lies strictly inside |
| Regions.Extended | src/regions.c:143-150 | Buffering by v grows the width and the height by 2v each and keeps the centre |
| Regions.ExtendedByZero | src/regions.c:146-149 | Buffering by 0 is the identity |
| Regions.ExtendedRoundTrip | src/regions.c:146-149 | Buffering by v and then by -v restores the region |
| Regions.ExtendedCompose | src/regions.c:146-149 | Buffering by a and then by b is buffering by a + b |
| Regions.ExtendedContains | src/regions.c:146-149 | A non-negative buffer gives a box containing the original; a non-positive one gives a box inside it |
| Regions.ExtendedValidity | src/regions.c:146-149 | A buffered box is valid exactly when the original width and height, each plus 2v, are positive |
| Regions.ExtendAt | src/regions.c:143-150 | Extending entry i through a pointer leaves the buffered region in entry i and changes no other entry |
| Regions.Hull | src/regions.c:129-139 | One pass of the merge body gives a box that contains both boxes and lies inside every box that contains both |
| Regions.Envelope | src/regions.c:126-140 | The envelope of regions[0..n) contains every input box |
| Regions.EnvelopeAttained | src/regions.c:126-140 | Each bound of the envelope is the bound of some input box: xmin and ymin are minima, xmax and ymax maxima |
| Regions.EnvelopeUnique | src/regions.c:126-140 | Two boxes that both contain all inputs and attain their bounds from the inputs are equal |
| Regions.EnvelopeOrderIndependent | src/regions.c:129-139 | Any permutation of the regions gives the same envelope |
| Regions.EnvelopeLeast | src/regions.c:129-139 | The envelope lies inside every box that contains all the inputs |
| Regions.EnvelopeSingle | src/regions.c:126-127 | Merging one region gives that region |
| Regions.MergeRegions | src/regions.c:122-141 | For n >= 1, regions[0] becomes the envelope of the original regions[0..n); entries 1.. are untouched; with n <= 1 the array is unchanged |
| RegionParse.FieldsSlashFree | src/regions.c:168 | No field between delimiters contains a '/' |
| RegionParse.JoinFields | src/regions.c:168 | Joining the '/'-separated fields with '/' gives the string back |
| RegionParse.FieldsJoin | src/regions.c:168 | Splitting '/'-free fields joined with '/' gives the same fields back |
| RegionParse.NonEmptyKeeps | src/regions.c:168 | The entries kept by the empty-field filter are non-empty entries of the input |
| RegionParse.TokensShape | src/regions.c:168-177 | Every token of Tokens, the sequence of strtok's results, is non-empty and contains no '/' |
| RegionParse.TokensSlashes | src/regions.c:168-177 | A run of leading slashes yields no token |
| RegionParse.TokensJoin | src/regions.c:168-177 | Non-empty '/'-free tokens joined with '/' tokenize back to the same tokens |
| RegionParse.TokensConcat | src/regions.c:168-177 | The tokens of s + "/" + t are the tokens of s followed by those of t |
| RegionParse.SkipSlashes | src/regions.c:168-177 | strtok's skip of leading delimiters never lengthens the scan state (its exact shape is SkipSlashesShape) |
| RegionParse.SkipSlashesShape | src/regions.c:168-177 | strtok's skip removes exactly a run of leading slashes and stops at a non-slash or at the end |
| RegionParse.TokenEnd | src/regions.c:168-177 | strtok's scan for the end of a token stops within the string (its exact shape is TokenEndShape) |
| RegionParse.TokenEndShape | src/regions.c:168-177 | A token runs up to the first '/' or the end, and is non-empty after a non-slash |
| RegionParse.Strtok | src/regions.c:168-177 | A call that returns a token leaves a strictly shorter scan state |
| RegionParse.StrtokTokens | src/regions.c:168-177 | A strtok call returns NULL exactly when no token is left; otherwise it returns the first token and leaves the remaining tokens |
| RegionParse.AfterStrtok | src/regions.c:168-177 | The text a cut buffer still shows, up to its first NUL, is a prefix of the buffer |
| RegionParse.AfterStrtokTokens | src/regions.c:168-177 | A buffer that strtok has cut in place still shows only its first token |
| RegionParse.Parsed | src/regions.c:161-179 | Token k (k < 4), converted by atof, becomes bound k; a bound with no token keeps its unwritten value |
| RegionParse.Parse | src/regions.c:161-179 | The four-step strtok loop returns exactly the positional reading of the region string |
| RegionParse.ParsedFour | src/regions.c:168-177 | Four tokens a/b/c/d parse to xmin, xmax, ymin, ymax = atof(a), atof(b), atof(c), atof(d) |
| RegionParse.ParsedIgnoresExtra | src/regions.c:169 | Tokens after the fourth do not change the parsed region |
| RegionParse.ParsedSkipsEmpty | src/regions.c:168-177 | "1//2" sets only xmin and xmax: consecutive slashes make no empty field |
| RegionParse.ShorthandD | src/regions.c:242-244 | The "d" shorthand parses to -180/180/-90/90 |
| RegionParse.ShorthandG | src/regions.c:242-244 | The "g" shorthand parses to 0/360/-90/90 |
| RegionParse.ExpandCases | src/regions.c:242-244 | Expand maps exactly "d" to the REGION_D preset and "g" to the REGION_G preset; any other argument is parsed as it stands |
| RegionOutput.CTrunc | src/regions.c:103-104 | The (int) cast truncates toward zero: its magnitude is the whole part of the magnitude, and it keeps the sign |
| RegionOutput.CRem | src/regions.c:103-104 | C's % completes C's truncating quotient, is smaller than the divisor in magnitude and takes the sign of the dividend |
| RegionOutput.NameOf | src/regions.c:93-105 | 's' when ymax < 0, else 'n'; 'w' when xmin < 0, else 's' (never 'e'); the whole degrees and the hundredths (< 100) of abs(ymax) and abs(xmin) |
| RegionOutput.FormatOf | src/regions.c:107-120 | The header is emitted exactly when aflag is 0; the ring has five vertices, starting and ending at (xmin, ymax) |
| RegionOutput.FormatRing | src/regions.c:115-119 | The first four vertices are the four corners of the box, and every edge is parallel to an axis |
| RegionOutput.FormatClockwise | src/regions.c:115-119 | The ring's shoelace sum is -2 × width × height, so the ring of a valid region is clockwise |
| RegionsMain.Render | src/regions.c:296-301 | Echo wins over name and name over polygon; an echo line carries the region it is given and drops its "-R" prefix only when -e was given exactly twice; a name line carries NameOf of it; a feature is FormatOf it at its index, with a header only at index 0 |
| RegionsMain.Pending | src/regions.c:285-291 | After a merge exactly one region is walked, and it contains every parsed region; without a merge all parsed regions are walked |
| RegionsMain.BufferedGeometry | src/regions.c:294-295 | The region handed to the output keeps its centre; with -b its width and height grow by twice the margin, without -b they stay |
| RegionsMain.WalkRegions | src/regions.c:291-302 | Over the first rflag entries, the loop emits exactly the reference trace EmitFrom; each walked entry is buffered in place only if it was valid; later entries are unchanged |
| RegionsMain.ProcessRegions | src/regions.c:284-302 | The merge (when asked) followed by the loop emits the reference trace Emitted and leaves the array as Final describes |
| RegionsMain.ReadOne | src/regions.c:240-249 | One -R argument is expanded and parsed; in the corrected reading of Findings each shorthand gets a fresh copy of its preset |
| RegionsMain.ReadRegions | src/regions.c:237-251 | In the corrected reading of Findings (a fresh preset for every shorthand use), the collected regions are the parses of each argument or preset, in argument order |
| RegionsMain.RunMain | src/regions.c:237-302 | With no -R the run ends in the usage text; otherwise it emits the trace of the regions read in the corrected reading of Findings |
| RegionsMain.EmittedMembership | src/regions.c:291-302 | A line is emitted exactly when some walked region was valid before buffering and the line is that region, buffered, rendered at its own index |
| RegionsMain.EmitFromLength | src/regions.c:291-302 | The loop emits exactly as many lines as there are walked regions valid before buffering (CountValid), so at most one per walked region |
| RegionsMain.MergeEmitsEnvelope | src/regions.c:285-288 | After a merge only the envelope is walked: one line if the envelope is valid, none otherwise |
| RegionsMain.HeaderOnlyFirst | src/regions.c:291-301 | A header appears only on the first line, and only when index 0 is valid; in polygon mode a valid index 0 puts it first |
| RegionsMain.ZeroBuffer | src/regions.c:294-295 | Buffering by 0 emits the same trace as no buffering |
| RegionsMain.BufferedAfterCheck | src/regions.c:292-295 | Validity is checked before buffering: 0/1/0/1 buffered by -1 is still echoed, as the invalid 1/0/1/0 |
| RegionsMain.DegenerateSilent | src/regions.c:292 | A region with equal west and east bounds produces no output |
| RegionsMain.MergeExample | src/regions.c:285-297 | Merging -10/10/-5/5 with 0/20/0/10 and echoing gives -10/20/-5/10 |
| RegionsMain.BufferExample | src/regions.c:294-297 | Buffering -10/10/-5/5 by 2 and echoing gives -12/12/-7/7 |
| RegionsMain.ReadAsWritten | src/regions.c:242-249 | As written, every use of a shorthand parses main's preset buffer as earlier strtok calls left it |
| RegionsMain.CutPresetD | src/regions.c:168-177 | Once cut by strtok, the "d" preset reads as xmin = atof("-180") with the other three bounds unwritten |
| RegionsMain.RepeatedShorthandAsWritten | src/regions.c:242-249 | As written, "-R d -R d" gives the whole world first, and then a region whose only set bound is xmin = -180 |
| RegionsMain.RepeatedShorthandFixed | src/regions.c:242-249 | With a fresh preset for each use, every "d" parses to -180/180/-90/90 |

## Left out

- Option parsing is not modelled. This covers `getopt_long`, `--help`, `--version`, `--verbose`, `usage`, `print_version`, the `case 0` echo of a long option, the `?` and `default` branches, and the exit codes. The per-region loop receives an `Options` value instead. It holds the counts of -m, -b, -e and -n and the value of the last -b.
- The printf text is not modelled. This covers the `%f` digits, the `%02d`/`%03d` padding and the GMT header strings. The model keeps only the values and letters that go into them.
- `atof` is a parameter, not a model of the C library's conversion.
- `malloc`, `realloc` and `free` are not modelled. The regions are a sequence that grows and then an array.
- IEEE double rounding is not modelled. `ExtendedRoundTrip`, `ExtendedCompose` and the centre's equidistance hold only in exact arithmetic. The same goes for the hundredths of `NameOf`: C truncates the double product `x*100`, so a rounding error can change the printed digit. For example `0.29*100` is 28.999999999999996 in doubles, so C prints 28 where the model gives 29; `0.57` and `1.15` behave the same way.
- RegionOutput.NameOf: the `(int)` cast of a coordinate times 100 is unbounded in the model. Values outside the range of `int`, where C's behaviour is undefined, are not modelled.
- RegionParse.Parsed: the bounds that region_parse leaves unwritten are modelled as the fields of the `uninit` parameter. In C they are indeterminate, and may differ from call to call.
- strtok's hidden static scan pointer is modelled as an explicit scan state. The state is threaded through the calls of one `region_parse`.
- Regions.RegionP, Regions.EnvelopeOrderIndependent: NaN and infinite bounds are not modelled, because coordinates are exact reals. `atof` returns them for input such as "nan" or "inf". In C, `region_p` accepts a region with a NaN bound, since every comparison with NaN is false, so such a region is buffered and printed. `region_merge` then keeps a NaN already in `regions[0]` and skips a NaN in a later entry, so its result depends on the order of the regions.
- RegionsMain.ReadRegions, RegionsMain.RunMain: these follow the corrected shorthand reading of Findings, where each `d` or `g` parses a fresh copy of its preset. main as written parses its one preset buffer, which strtok has already cut after the first use; that reading is RegionsMain.ReadAsWritten.
- RegionParse.Tokens carries no contract of its own, because a quantified one on it made the proofs about strtok too costly. Its properties are stated by RegionParse.TokensShape, RegionParse.StrtokTokens and the other lemmas about it.
- `bval` is uninitialised when -b is absent. It is only read when -b was given, so the model takes it as a plain parameter.

## Findings

| source | as written | input that shows it | evidently intended | confidence | as-written member | corrected member |
|---|---|---|---|---|---|---|
| src/regions.c:242-249 | `-R d` and `-R g` pass main's own `REGION_D`/`REGION_G` arrays to `region_parse`, whose strtok overwrites each '/' that ends a token with NUL, so the preset is cut to "-180" (or "0") after its first use | `regions -R d -R d -e`: the second region has xmin = -180 and three indeterminate bounds | each shorthand parses to its whole preset every time (-180/180/-90/90 or 0/360/-90/90) | high; not executed | RegionsMain.ReadAsWritten (RegionsMain.RepeatedShorthandAsWritten) | RegionsMain.ReadRegions (RegionsMain.RepeatedShorthandFixed) |
