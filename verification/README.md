# Plant Passport core, modelled in Dafny

Plant Passport catalogues plant specimens. Each specimen has a unique
identifier (PUID) and a record of taxonomic attributes. This project models
three pieces of its sequential logic as pure functions over sequences and
insertion-ordered dictionaries, and proves what each piece promises.

1. **Printed labels** (`pdf/services.py`).
   - `Label.extract_data` normalises a record's fields.
   - `_generate_text_lines` builds one to three text lines, or the
     placeholder `empty`.
   - `LabelsBuilder` tiles the labels onto A4 pages in two columns of eight.
     Its cursor `(cur_x, cur_y, cur_column, cur_lable_num)` is a record, and
     each method is a state-transition function on it. The FPDF document is
     abstracted to its current position, its page counter and the list of
     elements drawn.
2. **Plant filtering and the filter form** (`plants/services.py`).
   - `filter_plants` is the match-count filter.
   - `get_filtered_attr_values_from_post` parses posted `checkbox-<attr>-<value>` keys.
   - `get_filteraible_attr_values` builds the offered values per attribute.
   - `filter_data_update` re-checks those values against a post.
   - `get_matrix_position_clarification` places each decoded Data Matrix
     in a 3×3 grid of the photo and relative to the other matrices.
   - The string clean-up loop at the start of `create_log`.
3. **The semicolon CSV importer** (`shell_scripts/create_multiple_plants.py`).
   - `read_header` and `str_to_dic`.
   - The `owner` override and logging in `create_objects`.

Modules:

| module | file | models |
|---|---|---|
| `Wrappers` | `wrappers.dfy` | `Option` and `Result`, the error paths of the Python code |
| `Seqs` | `seqs.dfy` | counting, first occurrences, and the order-keeping de-duplication of a Python dict's keys |
| `Text` | `text.dfy` | the `str` methods the code uses: `lower`, `upper`, `title`, `strip`, `replace`, `split`, `join`; the case mappings cover ASCII letters only |
| `Dict` | `dict.dfy` | a Python `dict` as an insertion-ordered association list |
| `Label` | `label.dfy` | `Label.extract_data` and `_generate_text_lines` |
| `Layout` | `layout.dfy` | `LabelsBuilder` and the abstract FPDF document |
| `LayoutProperties` | `layout_properties.dfy` | whole runs of `generate_labels`, and the closed form of the positions under the code's constants |
| `PlantFilters` | `filters.dfy` | `filter_plants` |
| `AttributeFilters` | `attributes.dfy` | the post parser, the offered values and `filter_data_update` |
| `MatrixPositions` | `positions.dfy` | `get_matrix_position_clarification` |
| `LogData` | `log_data.dfy` | the value clean-up loop of `create_log` |
| `PlantImport` | `csv_import.dfy` | `PlantCreator.read_header`, `str_to_dic` and `create_objects` |

Parameters stand in for things the model cannot see:
- Plants are values of any type with equality, as `RichPlant` objects are.
- `getattr(plant.attrs, name)` is a function parameter `attrOf`.
- The attribute key list is a parameter, and so is the database lookup behind
  `check_is_attr_filterable`. It gives the attribute's `filterable` flag, or
  nothing when no attribute has that key; `Attribute.objects.get` then raises
  `DoesNotExist`.
- The user's id is an integer parameter.

Python's exceptions are `Failure` results:
- `encode('ASCII')` on a non-ASCII PUID;
- an `IndexError` or `KeyError` from a lookup;
- `DoesNotExist` from the attribute lookup;
- a `ZeroDivisionError` from a zero image side.

Arithmetic is exact:
- Millimetre coordinates are `real`.
- `math.trunc(a / (b/3))` is integer division truncated toward zero, with no float rounding.
- Python's negative list indices are modelled exactly.

Points where the code behaves in a way that is easy to misread:
- A record with a non-ASCII PUID makes `generate_labels` raise. The record is
  not skipped.
- The fit test `v_space_left - label_heigh > 10` is strict. A label that
  leaves exactly 10 mm does not stay in the column.
- The fit test takes `get_width()`, the code side in pixels (30). It does not
  take the side in millimetres (11).
- `not label.get_lines_number == 0` compares the bound method with 0, so it is
  always true. The text lines are therefore always placed.

## Model

| member | source | states |
|---|---|---|
| Label.Normalize | pdf/services.py:35-48 | a field becomes `None` exactly when it is falsy; a kept field is non-empty |
| Label.ExtractData | pdf/services.py:32-51 | building a label succeeds exactly when the PUID is ASCII; the label keeps the PUID and has one to three text lines |
| Label.ExtractDataCasing | pdf/services.py:35-48 | each field follows its own rule: genus is one capital letter (the record's first letter) then `.`; species, subspecies and variety are lower-cased; cultivar, affinity and ex are title-cased; number is upper-cased; each is `None` exactly when the raw field is falsy and otherwise spells the raw text up to case |
| Label.NormalizeCasing | pdf/services.py:39-48 | a normalised field is `None` exactly when the raw one is falsy, and otherwise has the same letters in the casing's form |
| Label.LowerCasing | pdf/services.py:39 | `lower()` keeps the text up to case and leaves no upper-case letter |
| Label.UpperCasing | pdf/services.py:35 | `upper()` keeps the text up to case and leaves no lower-case letter |
| Label.TitleCasing | pdf/services.py:44 | `title()` keeps the text up to case; each word starts with a non-lower-case letter and continues without upper-case letters |
| Label.TextLines | pdf/services.py:60-89 | one to three lines; the result is `['empty']` exactly when all three candidate lines are empty, and otherwise it is the non-empty candidates in order |
| Label.LinesNumberCounts | pdf/services.py:53-89 | `get_lines_number` counts the lines the record feeds: line 1 for a genus, a species or (under the subspecies gate) a subspecies, line 2 for a variety or cultivar, line 3 for an affinity or ex; it is 1 when none is fed |
| Label.TextLinesCount | pdf/services.py:57-89 | `_generate_text_lines` gives one line per non-empty candidate line, or the single placeholder when all three are empty |
| Label.CandidateHasSpace | pdf/services.py:63-85 | no generated line equals `empty`, so the placeholder cannot be confused with a real line |
| Label.LineOneFullTriple | pdf/services.py:63-64 | with genus, species and subspecies present, line 1 is `G. species  ssp. subspecies` with two spaces before `ssp.` |
| Label.LineOneEmpty | pdf/services.py:65-69 | line 1 is empty exactly when genus and species are absent and, under the corrected gate, the subspecies is absent too |
| Label.LineTwoFragments | pdf/services.py:74-78 | line 2 has a `v. ` fragment exactly when variety is set and a `cv. ` fragment exactly when cultivar is set, in that order; it is empty, `v. <variety> `, `cv. <cultivar> ` or `v. <variety> cv. <cultivar> ` |
| Label.LineThreeFragments | pdf/services.py:81-85 | line 3 has an `aff. ` fragment exactly when affinity is set and an `ex. ` fragment exactly when ex is set, in that order; it is empty, `aff. <affinity> `, `ex. <ex> ` or `aff. <affinity> ex. <ex> ` |
| Label.EmptyPlaceholderExactly | pdf/services.py:60-89 | the placeholder is used exactly when the record has none of the fields any line reads |
| Label.SubspeciesNonePrinted | pdf/services.py:69 | as written, a record with genus and species but no subspecies prints `L. lesliei ssp. None ` |
| Label.IntendedLineOneOmitsAbsent | pdf/services.py:65-69 | with the fragment gated on the subspecies, an absent subspecies contributes nothing to line 1 |
| Layout.SideMm | pdf/services.py:27-29 | `DATA_MATRIX_SIZE // ppmm` is a whole number of mm, the floor of the pixel side over the pixels per mm |
| Layout.SourceSide | pdf/services.py:27-29 | under the code's constants the code side is 11 mm |
| Layout.StartPosition | pdf/services.py:126-141 | a label that fits keeps `cur_y`, column and page; one that does not goes back to `start_y`, from column 2 on a new page in column 1 and from column 1 to column 2 on the same page; column 1 resets `cur_x`, column 2 as written leaves it |
| Layout.StackHeight | pdf/services.py:184-189 | `n` text lines of height `side / n`, for `n` from 1 to 3, fill exactly the code side |
| Layout.TextStackAt | pdf/services.py:187-190 | text line `k` is drawn at row `k` of the stack |
| Layout.PlaceLinesEffect | pdf/services.py:187-190 | the line loop draws the stack top-down, keeps the page, and ends at the bottom of the stack |
| Layout.PlaceTextLines | pdf/services.py:175-190 | the text block moves `cur_x` by the field-number width, and `cur_y` goes up by the code side and comes back down to where it was |
| Layout.PlaceLabel | pdf/services.py:192-206 | one label is counted, drawn at its start position, and leaves the cursor one code side plus the label gap below its top |
| Layout.Step | pdf/services.py:194-203 | a record is placed exactly when its PUID is ASCII |
| Layout.ImagesOfLabel | pdf/services.py:150-153 | each label draws exactly one code image, at its start position, carrying its PUID |
| LayoutProperties.PlaceLabelShape | pdf/services.py:192-206 | placing a label counts it, keeps the column in 1 or 2 and never removes a page |
| LayoutProperties.GenerateLabelsShape | pdf/services.py:192-206 | the build succeeds exactly when every PUID is ASCII, and then counts every record, keeps the column in 1 or 2, has at least one page and draws one code per record, in order |
| LayoutProperties.StartOf | pdf/services.py:126-141 | under the code's constants label `n` starts at row `n % 8` of column 1 or 2, on page `n / 16 + 1` |
| LayoutProperties.LabelPositions | pdf/services.py:192-206 | under the code's constants the code of every label is drawn at its closed-form page, x and y |
| LayoutProperties.ColumnTwoDrift | pdf/services.py:137-141 | as written, column 2 starts at x = 27 mm, its eighth label runs past the page edge, and page 2 starts at x = 163 mm |
| LayoutProperties.IntendedColumns | pdf/services.py:137-141 | with the column origin reset, every code is drawn at x = 10 or 100 mm and every label lies within the page |
| PlantFilters.GradeTableShape | plants/services.py:79-87 | the grade table holds each distinct plant once, in first-occurrence order, with its number of matching values |
| PlantFilters.PassingKeeps | plants/services.py:90-93 | the second loop keeps, in table order, the plants whose grade equals the number of filtered attributes |
| PlantFilters.FilterPlantsSpec | plants/services.py:77-95 | `filter_plants` keeps the distinct plants in first-occurrence order whose grade equals the number of filtered attributes |
| PlantFilters.FilterPlantsEmptyFilter | plants/services.py:77-95 | with an empty filter every distinct plant is kept, in first-occurrence order |
| PlantFilters.FilterPlantsMembers | plants/services.py:82-93 | the result never repeats a plant, and a plant is in it exactly when it is an input whose grade equals the number of filtered attributes |
| PlantFilters.GradeFull | plants/services.py:84-87 | with no value listed twice, the grade is at most the number of filtered attributes and reaches it exactly when every filtered attribute matches a listed value |
| PlantFilters.FilterPlantsMatchAll | plants/services.py:84-93 | with no value listed twice, a plant is kept exactly when every filtered attribute equals one of its listed values |
| PlantFilters.RepeatedValueCountsTwice | plants/services.py:84-92 | a value listed twice counts twice, so a plant whose species does not match still passes |
| AttributeFilters.ParsePostSpec | plants/services.py:235-256 | parsing fails exactly when some check-box key has fewer than three `-` parts; otherwise the result groups the values of the check-box keys per attribute, attributes in first-seen order and values in post order |
| AttributeFilters.ValueCutAtDash | plants/services.py:248-250 | only the first three `-` parts are read, so a value containing `-` is cut at it |
| AttributeFilters.GroupedSnoc | plants/services.py:252-255 | appending a value keeps the dictionary grouped |
| AttributeFilters.BlankShape | plants/services.py:277-279 | the blank structure has one empty list per distinct key, in key order |
| AttributeFilters.VisitStep | plants/services.py:285-292 | one attribute of one plant keeps the loop invariant, and raises exactly for an attribute the lookup does not find or a filterable attribute that is not a key |
| AttributeFilters.VisitAllSpec | plants/services.py:284-292 | the attribute loop raises exactly when some attribute is unknown to the lookup or is filterable and not a key, and otherwise keeps the invariant |
| AttributeFilters.FillFlat | plants/services.py:284-285 | the nested loops visit every plant's attributes in order |
| AttributeFilters.FilterableValuesSpec | plants/services.py:258-293 | the result has one list per key, in key order; a filterable attribute lists each value of its column once, in first-seen order, with `checked == 1`; others list nothing; it raises exactly when some attribute name is unknown to the lookup, or is filterable and not a key |
| AttributeFilters.FilterableValuesOverKeys | plants/services.py:284-311 | with the database's lookup, which finds exactly the listed keys, the function raises `DoesNotExist` exactly when some plant has an attribute name that is not a key, and never `KeyError` |
| AttributeFilters.MarkAllSpec | plants/services.py:303-306 | after the posted values of an attribute, an entry is checked when it was or its value was posted |
| AttributeFilters.MarkSpec | plants/services.py:302-306 | the marking loop raises exactly when a posted attribute with values is not a key, and otherwise checks exactly the posted values |
| AttributeFilters.FilterDataUpdateSpec | plants/services.py:295-308 | the update raises exactly when a posted attribute with values is not a key; otherwise every entry keeps its value and position, and `checked` is 1 exactly when its value was posted for its attribute |
| AttributeFilters.FilterDataUpdateIdempotent | plants/services.py:295-308 | updating again with the same post changes nothing |
| MatrixPositions.Trunc | plants/services.py:175-176 | `math.trunc(a / b)` is the quotient rounded toward zero |
| MatrixPositions.PyIndex | plants/services.py:178 | a Python index into a list of length `n` is valid exactly in `-n .. n-1`, and a negative one counts from the end |
| MatrixPositions.TruncIndexRange | plants/services.py:175-178 | a truncated quotient indexes a 3-element list exactly when `-4b < a < 3b` |
| MatrixPositions.GridCellSuccess | plants/services.py:175-178 | the grid cell exists exactly when both sides are non-zero, `0 < 3·top < 7·H` and `-4·W < 3·left < 3·W`; a zero side raises `ZeroDivisionError` |
| MatrixPositions.GridCellOnPhoto | plants/services.py:175-187 | for a point on the photo the cell is the third of `H - top` and of `left` it lies in, and the centre sentence is chosen exactly for the middle third both ways |
| MatrixPositions.TopZeroRaises | plants/services.py:175-178 | a matrix with `top == 0` makes the code raise `IndexError` |
| MatrixPositions.AbovePhotoWrapsToLower | plants/services.py:175-186 | a point above the photo gets index -1, which Python reads as the last row: `lower left` |
| MatrixPositions.RelativeToSpec | plants/services.py:191-212 | `higher than j` is added exactly when the tops differ by more than a tenth of the height and `i` has the larger top; likewise lower, right and left; at most two sentences per pair |
| MatrixPositions.RelativeToSelf | plants/services.py:191-212 | comparing a matrix with itself adds nothing |
| MatrixPositions.RelativeToAntisymmetric | plants/services.py:191-212 | `i` is higher than `j` exactly when `j` is lower than `i`, and right of exactly when left of |
| MatrixPositions.RelativeMember | plants/services.py:191-212 | the inner loop's sentences are exactly those of the pairs with every matrix |
| MatrixPositions.LocateEachSpec | plants/services.py:172-215 | the loop raises exactly when some matrix has no grid cell; otherwise every matrix keeps its place and gets its grid sentence followed by its relative sentences |
| MatrixPositions.ClarifySpec | plants/services.py:154-217 | the function raises exactly when some matrix has no grid cell; otherwise each matrix gets a non-empty list that starts with the centre or area sentence of its cell |
| LogData.CleanTrimmed | plants/services.py:373-374 | a cleaned string has no whitespace at either end |
| LogData.CleanKeepsVisible | plants/services.py:373-374 | cleaning removes only whitespace; the other characters stay, in order |
| LogData.CleanFixedPoint | plants/services.py:373-374 | a string with no edge whitespace and no double space is kept as it is |
| LogData.CleanNotIdempotent | plants/services.py:374 | one `replace('  ', ' ')` pass turns three spaces into two, so cleaning twice differs from cleaning once |
| LogData.CleanDataKeepsText | plants/services.py:368-374 | the loop keeps every key in place, keeps numbers and `None`, and turns each string or date into a string with the same non-whitespace characters in order |
| LogData.CleanDataTrimmed | plants/services.py:368-374 | after the loop no date is left and every string is trimmed |
| LogData.CleanDataGet | plants/services.py:368-374 | looking a key up after the loop gives the cleaned value |
| Text.StripKeepsVisible | plants/services.py:374 | `strip()` removes only whitespace |
| Text.JoinSplit | shell_scripts/create_multiple_plants.py:60 | `split(';')` loses nothing: joining the parts with `;` gives the line back |
| Text.SplitJoin | shell_scripts/create_multiple_plants.py:34 | splitting a join of parts free of `;` gives the parts back |
| PlantImport.ReadHeaderRoundTrip | shell_scripts/create_multiple_plants.py:33-37 | a header line written from names free of `;` and line breaks is read back as those names, empty ones kept, and is removed from the data |
| PlantImport.StrToDicSpec | shell_scripts/create_multiple_plants.py:58-64 | `str_to_dic` raises exactly when the line has more fields than the header has names; otherwise its keys are the names whose name and field are both non-empty, a name maps to its last such field, and no value holds `;` or a line break |
| PlantImport.StrToDicRoundTrip | shell_scripts/create_multiple_plants.py:58-64 | a line written from non-empty values under distinct non-empty names is parsed back to the name-to-value dict in column order |
| PlantImport.LaterColumnWins | shell_scripts/create_multiple_plants.py:61-63 | when two columns share a name, the later column's value wins |
| PlantImport.LogOfSpec | shell_scripts/create_multiple_plants.py:45-46 | the logged data always maps `owner` to the user id; every other key is a parsed column with its cleaned text |
| PlantImport.OwnerColumnOverridden | shell_scripts/create_multiple_plants.py:45-46 | an `owner` column in the file is overridden by the user id |
| PlantImport.CreateObjectsSpec | shell_scripts/create_multiple_plants.py:39-56 | a run stops at the first line with too many fields; the lines before it are logged in order, one plant is created per line reached, and a run without error logs every line |
| Seqs.DedupOrder | plants/services.py:91 | iterating a dict's keys follows the first insertion of each key |
| Seqs.DedupDistinct | plants/services.py:91 | inserting keys that never repeat gives a dict whose keys are those keys in insertion order |

## Left out

- Data Matrix encoding and imaging are left out: `_generate_datamatrix` and
  `detect_data_matrix` are foreign libraries with pixel-level numerics. A
  label's image is its PUID, and the only thing kept of `encode` is its
  failure on a non-ASCII PUID.
- FPDF drawing is reduced to positions, a page counter and a list of elements.
  Fonts, rotation, borders and file output are left out.
- `add_page` resetting the position is not modelled. It is called at
  pdf/services.py:133 whenever column 2 overflows, for example on the 17th
  label. The reset has no effect, because the `set_xy` of `_place_dmtx`
  (pdf/services.py:148, 152) sets the position before anything is drawn.
- FPDF's automatic page break is not modelled. Under the code's constants
  every label ends above the 277 mm break line, so it is never reached.
- Floating point is not modelled. Coordinates are exact reals, and
  `math.trunc` of a float quotient is exact truncated division. A quotient
  within rounding error of an integer could come out differently in the code.
- `attrOf` is total. The `AttributeError` that `getattr` raises for an unknown
  attribute name is not modelled.
- The Django ORM is not modelled: user and plant queries, `create_new_plant`,
  `check_is_attr_filterable` and `Log.save`. The attribute lookup and the key
  list are parameters, and a created plant is only counted.
- `isoformat()` is not modelled. A date in the log data is given by its ISO text.
- The log's other fields, the action type and the action time are not modelled.
- Reading the CSV file, the module-level script run and the debug `print`s are
  left out.
- Label.ExtractDataCasing: the casing rules cover ASCII letters only. Python's `lower`, `upper`, `capitalize` and `title` also map other letters, for example Cyrillic, and `'ß'.upper()` is `'SS'`, which changes the length. A non-ASCII letter is kept unchanged and is not counted as cased, so it ends a word.
- Label.NormalizeCasing: "same letters in the casing's form" is stated for the ASCII-only case mapping, for the reason given above.
- Label.LowerCasing: models `lower()` on ASCII letters only; every other character is kept.
- Label.UpperCasing: models `upper()` on ASCII letters only; every other character is kept, and the length never changes.
- Label.TitleCasing: models `title()` with only ASCII letters counted as cased, so in `müller` the `l` after `ü` is taken to start a word.
- `get_date_from_exif`, UID generation and the ownership checks are not part
  of this model.

## Findings

| source | as written | input that shows it | evidently intended | confidence | as-written member | corrected member |
|---|---|---|---|---|---|---|
| pdf/services.py:69 | the `ssp.` fragment of line 1 is gated on `self.species` | genus `lithops`, species `Lesliei`, no subspecies: line 1 is `L. lesliei ssp. None ` | gate on `self.subspecies`, so an absent subspecies adds nothing | high; not executed | Label.SubspeciesNonePrinted | Label.IntendedLineOneOmitsAbsent |
| pdf/services.py:137-141 | column 2 assigns the misspelt `cru_x`, and the column switch assigns no x at all | nine labels: the ninth, the first of column 2, is drawn at x = 27 mm; the sixteenth at 146 mm ends at 227 mm, past the 210 mm page | `cur_x = start_x + column_shift` whenever column 2 is entered or continued | high; not executed | LayoutProperties.ColumnTwoDrift | LayoutProperties.IntendedColumns |
