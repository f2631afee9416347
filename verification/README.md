# Colombian invoice scraper: a Dafny model

The system reads a folder of supplier invoices (PDF files and photographs).
For each document it produces one record per invoice and appends the records
to a 19-column spreadsheet. A document whose companion UBL 2.1 XML file (the
DIAN electronic invoice, sometimes wrapped in an `AttachedDocument`) yields an
invoice is read structurally. Every other document, including one whose XML
fails to parse or yields nothing, is sent to a vision model and its JSON
answer is mapped onto the record. Every successful record then goes
through `normalize_data`, which applies the Colombian conventions:

- `33.613,45` amounts;
- `DD/MM/YYYY` dates;
- NITs without dots, split at the hyphen, with a modulo-11 check digit.

Three maintenance scripts work on the written spreadsheet:

- `fix_values` multiplies suspiciously small totals by 1000;
- `fix_nits` re-cleans the NITs and recomputes their check digits;
- `clean_duplicates` keeps the most complete row per file name.

The model is a set of pure functions over immutable values:

- A record (a Python `dict`) is a `map<string, Value>`. A `Value` is `Null`, text or an exact real.
- A spreadsheet is a sequence of 19-cell rows.
- A pandas frame is a column list plus a sequence of records.
- An XML document is an abstract element tree.

Python's `str()` of a float is a parameter, `show`. So are the XML and JSON
parsers, the vision model's answers, the upload's state sequence and the
wall clock. The modules follow the program:

| module | file | models |
|---|---|---|
| `Wrappers`, `Text` | `text.dfy` | `Option`/`Result`; Python `strip`, `lower`, `replace`, digits |
| `Values` | `values.dfy` | record values, truthiness, `dict.get`, counting over rows |
| `Paths` | `paths.dfy` | `os.path.basename`, `os.path.splitext` |
| `Amounts` | `amounts.dfy` | `clean_colombian_number`, `correct_suspicious_low_total` |
| `Dates` | `dates.dfy` | `format_date_colombian` |
| `Nit` | `nit.dfy` | `clean_nit`, the NIT split, `calculate_nit_verification_digit` |
| `Normalize` | `normalize.dfy` | `normalize_data` |
| `Dedup` | `dedup.dfy` | `deduplicate_invoice_rows` (pandas sort + `drop_duplicates`) |
| `Store` | `store.dfy` | the 19-column projection and append of `save_to_excel` |
| `Xml` | `xml.dfy` | `XmlSkill.extract_data` and its helpers |
| `Vision` | `vision.dfy` | `VisionSkill.extract_data`, `_get_mime_type` |
| `Processor` | `processor.dfy` | `InvoiceProcessor.process_file` |
| `Run` | `run.dfy` | `main`: key, file filter, skip set, batches of five |
| `FixValues`, `FixNits`, `CleanDuplicates` | `fix_values.dfy`, `fix_nits.dfy`, `clean_duplicates.dfy` | the three scripts |

## Model

| member | source | states |
|---|---|---|
| Amounts.KeepAmountChars | utils.py:86-87 | only digits, `.`, `,` and `-` survive the filter, and text made only of those characters passes through unchanged |
| Amounts.RewriteSeparators | utils.py:92-103 | after the separator heuristic no comma is left; only digits, points and minus signs remain |
| Amounts.RewriteKeepsDigits | utils.py:94-103 | the heuristic only moves separators: every comma becomes the decimal point, and dropping all separators gives the same digits before and after |
| Amounts.ParseAmount | utils.py:78-82 | `None` parses as 0.0 and a number is returned as it is |
| Amounts.NoDigitsNoAmount | utils.py:84-108 | text without a digit (empty, a bare currency sign, words) parses as 0.0 |
| Amounts.GroupedRoundTrip | utils.py:92-108 | an integer written with `.` as the thousands separator parses back to that integer |
| Amounts.GroupedCentsRoundTrip | utils.py:92-108 | an integer written with thousands points and two cents after a comma parses to the integer plus cents/100 |
| Amounts.IgnoredPrefix | utils.py:84-87 | a leading currency code or sign made of non-amount characters does not change the parsed value |
| Amounts.CurrencyCodeIgnored | utils.py:71-87 | `COP 20.000,00` parses like `20.000,00` |
| Amounts.CurrencySignIgnored | utils.py:71-87 | `$ 50.000` parses like `50.000` |
| Amounts.AmountVectorCents | utils.py:75-75 | `33.613,45` parses to 33613.45 |
| Amounts.AmountVectorThousands | utils.py:76-76 | `40.000` parses to 40000 |
| Amounts.AmountVectorSmallThousands | utils.py:97-99 | `1.500` is read as fifteen hundred, not one and a half |
| Amounts.AmountVectorDecimalComma | utils.py:101-103 | `1,50` parses to 1.5 |
| Amounts.AmountVectorZeroCents | utils.py:93-95 | `40.000,00` parses to 40000 |
| Amounts.AmountVectorCurrencyCode | utils.py:71-87 | `COP 20.000,00` parses to 20000 |
| Amounts.AmountVectorCurrencySign | utils.py:71-87 | `$ 50.000` parses to 50000 |
| Amounts.AmountVectorPlain | utils.py:78-108 | `100` parses to 100, a number is kept, and `None` and `""` give 0 |
| Amounts.CorrectLowTotal | utils.py:203-216 | non-numbers are returned untouched; a number strictly between 0 and 500 is multiplied by 1000; every other number is unchanged |
| Amounts.LowTotalTwiceIff | utils.py:203-216 | correcting twice equals correcting once exactly when the value is not strictly between 0 and 0.5 |
| Amounts.LowTotalNotIdempotent | utils.py:212-213 | 0.1 becomes 100 and then 100000: the correction is not idempotent |
| Amounts.LowTotalVectors | fix_values.py:11-15 | 6.8 becomes 6800, 11.9 becomes 11900, and 50000 is left alone |
| Nit.CleanNit | utils.py:135-152 | a falsy value cleans to `""`; the result has no dots or spaces and is never longer than the value's text |
| Nit.CleanNitKeeps | utils.py:147-150 | every character other than `.` and space occurs in the result exactly as often as in the stripped text |
| Nit.CleanNitFixed | utils.py:147-150 | a NIT already without dots, spaces or surrounding blanks is returned unchanged |
| Nit.CleanNitIdempotent | utils.py:135-152 | when the cleaned NIT has no leading or trailing whitespace, cleaning it again changes nothing |
| Nit.CleanNitVectorDotted | test_formats.py:60 | `900.123.456-1` cleans to `900123456-1` |
| Nit.CleanNitVectorGroups | test_formats.py:61 | `1.032.443.194` cleans to `1032443194` |
| Nit.CleanNitVectorPlain | test_formats.py:62 | `901464705` is returned unchanged |
| Nit.CleanNitVectorBlanks | test_formats.py:63 | `800 123 456` cleans to `800123456` |
| Nit.CleanNitVectorPadded | test_formats.py:64 | ` 123.456 ` cleans to `123456` |
| Nit.CleanNitVectorEmpty | test_formats.py:65-66 | `None` and the empty text clean to the empty text |
| Nit.CleanNitVectorTab | utils.py:146-150 | a tab inside the text is kept: `12\t-3` is returned unchanged |
| Nit.SplitNit | utils.py:264-285 | the number is the hyphen-free text before the first hyphen; a digit is extracted exactly when there is a hyphen, and it is the text after the last one |
| Nit.SplitJoined | utils.py:264-269 | `number-digit` splits into that number and that digit |
| Nit.SplitUnhyphenated | utils.py:284-285 | without a hyphen the whole text is the number and no digit is extracted |
| Nit.SplitDropsMiddle | utils.py:265-269 | `123-456-1` splits into `123` and `1`, losing the middle group |
| Nit.CheckDigit | utils.py:154-201 | `""` exactly for empty or non-digit input, `"?"` exactly for more than 15 digits, otherwise one decimal digit |
| Nit.ComputeCheckDigit | utils.py:174-201 | the weighted-sum loop returns the check digit |
| Nit.WeightedTotal | utils.py:189-193 | the loop's total is the digits weighted by the last n primes of the table |
| Nit.CheckDigitIsRightToLeft | utils.py:172-187 | taking the last n weights of the table is the same as applying 3, 7, 13, 17, ... from the rightmost digit leftwards |
| Nit.AuthoritySum | utils.py:183-193 | the program's weighted sum equals the right-to-left weighted sum of the DIAN rule |
| Nit.CheckDigitVectorBancolombia | utils.py:195-201 | NIT 890903938 has check digit 8 |
| Nit.CheckDigitVectorStandardTest | utils.py:195-201 | NIT 860000001 has check digit 8 |
| Nit.CheckDigitVectorEnvigado | utils.py:195-201 | NIT 800220154 has check digit 1 |
| Nit.CheckDigitVectorAuthority | utils.py:195-201 | NIT 800197268 has check digit 4 |
| Nit.CheckDigitVectorShort | utils.py:183-201 | a three-digit number uses the last three weights: 123 has check digit 8 |
| Dates.FormatText | utils.py:118-133 | a `YYYY-MM-DD` or `YYYY/MM/DD` prefix is rewritten to `DD/MM/YYYY`; otherwise a `DD-MM-YYYY` or `DD/MM/YYYY` prefix is rewritten with slashes; any other text is returned as it is |
| Dates.FormatDate | utils.py:110-133 | a falsy value formats to `""`; otherwise the result is canonical or no longer than the value's text |
| Dates.FormatDateIdempotent | utils.py:110-133 | formatting an already formatted date changes nothing |
| Dates.CanonicalFixed | utils.py:127-131 | a `DD/MM/YYYY` date is kept |
| Dates.IsoRendered | utils.py:121-124 | an ISO date (with anything after it, such as a time) renders as its day, month and year in that order |
| Dates.DmyRendered | utils.py:128-131 | a day-first date renders with slashes, its parts unchanged |
| Dates.DateVectorIso | utils.py:120-124 | `2026-02-08` and `2026/02/08` become `08/02/2026` |
| Dates.DateVectorDayFirst | utils.py:126-131 | `08/02/2026` is kept |
| Dates.DateVectorTimestamp | utils.py:120-124 | `2026-02-11T00:00:00-05:00` becomes `11/02/2026` |
| Dates.DateVectorEmpty | utils.py:115-116 | `None` and `""` become `""` |
| Normalize.BackfillGet | utils.py:239-241 | `fecha` takes `fecha_emision` exactly when `fecha` is falsy and `fecha_emision` is not; all else is kept |
| Normalize.CleanAmountsGet | utils.py:243-246 | each present amount field is parsed and stored as a number; other fields are kept |
| Normalize.CorrectTotalGet | utils.py:248-250 | a present non-null total is corrected; other fields are kept |
| Normalize.FormatDatesGet | utils.py:252-255 | each present date field is formatted; other fields are kept |
| Normalize.SplitNitFieldsGet | utils.py:257-294 | with a truthy `nit`, the three NIT fields come from the cleaned and split NIT; other fields are kept |
| Normalize.ComputedDigit | utils.py:290-294 | a number that is not all digits, or longer than 15 digits, gets `?` |
| Normalize.NormalizeData | utils.py:236-237 | the result is empty exactly when the input record is empty |
| Normalize.NormalizeKeys | utils.py:239-294 | normalization adds `fecha` only when it backfills it, and adds the three NIT fields only when `nit` is truthy |
| Normalize.NormalizeFrame | utils.py:232-296 | every field outside the amount, date and NIT fields is left unchanged |
| Normalize.NormalizeAmount | utils.py:243-250 | an amount field holds the parsed number, and the total also gets the low-value correction |
| Normalize.NormalizeBackfilledDate | utils.py:239-255 | a backfilled `fecha` is the formatted `fecha_emision`, and both fields end up equal |
| Normalize.NormalizeDate | utils.py:252-255 | without backfill each present date field holds its formatted value |
| Normalize.NormalizeNit | utils.py:257-294 | `nit` holds the split number, the extracted digit is the split digit (or null), and the computed digit belongs to the number |
| Normalize.NormalizeNitJoined | utils.py:264-292 | `n-d` normalizes to number `n`, extracted digit `d`, and the check digit of `n` |
| Normalize.NormalizeNitUnhyphenated | utils.py:284-288 | a NIT without a hyphen keeps the whole cleaned text as number and extracts no digit |
| Dedup.KeyTotal | utils.py:227-227 | any two different keys are ordered one way or the other: numbers by value, text by code points, missing keys last |
| Dedup.KeyTransitive | utils.py:227-227 | the sort key order is transitive |
| Dedup.DropDuplicates | utils.py:226-228 | rows come from the input, sorted and one per key; every input key survives, and with a row at least as complete; keys sort numbers first, then text, then missing keys, so a column mixing numbers and text is still deduplicated |
| Dedup.KeptIsFirstBest | utils.py:226-228 | the kept row of a key is the most complete, and the earliest among equally complete ones |
| Dedup.DropColumnGet | utils.py:229-229 | dropping a column clears that cell only |
| Dedup.DropDuplicatesWith | utils.py:225-229 | the helper column is gone afterwards, and no row is removed exactly when no key repeats |
| Dedup.DropDuplicatesWithRows | utils.py:225-229 | the result is the deduplicated rows minus the helper cell, still sorted and covering every key |
| Dedup.DropDuplicatesWithSettles | utils.py:225-229 | a deduplicated table has no repeated key: deduplicating it again removes nothing |
| Dedup.DeduplicateInvoiceRows | utils.py:219-229 | an empty frame, or one without the key column, is returned as it is; otherwise duplicates are dropped by key using a `_completeness` helper |
| Store.ColumnsDistinct | utils.py:22-28 | the sheet has 19 distinct columns |
| Store.Project | utils.py:29-33 | every record becomes a row of exactly the 19 columns |
| Store.UnprojectProject | utils.py:29-33 | reading a written row back gives the record's value in every sheet column and null in every other field |
| Store.ProjectUnproject | utils.py:29-33 | writing a row read from the sheet gives the same row |
| Store.SaveToExcel | utils.py:12-66 | an empty batch changes nothing; otherwise the old rows are kept and followed by one projected row per record, in order |
| Store.SaveTwice | utils.py:12-66 | two appends equal one append of both batches |
| FixValues.FixRow | fix_values.py:18-28 | only `total` may change, and it gets the low-value correction |
| FixValues.FixRowChanges | fix_values.py:19-28 | a row changes exactly when its total is a number strictly between 0 and 500 |
| FixValues.FixValues | fix_values.py:7-34 | every row is corrected, and the reported count is the number of rows that changed |
| FixValues.CountLowIsChanged | fix_values.py:18-28 | the rows counted low are exactly the rows the correction changes |
| FixValues.SecondRunOnlyTiny | fix_values.py:18-28 | after one run, a second run changes only rows whose total was below 0.5 |
| FixNits.NitNumber | fix_nits.py:16-30 | the number taken from the cell has no hyphen, dot or space |
| FixNits.ExtractedAfter | fix_nits.py:36-38 | the extracted-digit cell changes only when it was empty and a digit was found, and then it holds that digit |
| FixNits.SelectedIsRewritten | fix_nits.py:19-33 | a NIT cell with a hyphen or a dot always differs from its cleaned number, so it is rewritten and counted |
| FixNits.FirstPassWrites | fix_nits.py:19-46 | a selected row gets the cleaned number, the extracted digit if it was missing, and the number's check digit |
| FixNits.FirstPassFrame | fix_nits.py:11-51 | the first pass touches no field outside the three NIT fields |
| FixNits.FirstPassSettles | fix_nits.py:19-19 | after the first pass no NIT cell is selected again |
| FixNits.SecondPassWrites | fix_nits.py:56-73 | a row with NIT text gets the check digit of its cleaned number, and no other field changes |
| FixNits.SecondPassSettles | fix_nits.py:56-73 | the second pass keeps `nit` and is idempotent |
| FixNits.FixRowOnlyNitFields | fix_nits.py:4-81 | the script changes nothing outside the three NIT fields |
| FixNits.FixRowIdempotent | fix_nits.py:4-81 | running the script on its own output changes nothing |
| FixNits.FixRowSelected | fix_nits.py:19-73 | when the cleaned number is non-empty and has no whitespace at its ends, a selected row ends with that number, the filled digit and the number's check digit |
| FixNits.FixRowSelectedStripped | fix_nits.py:19-73 | every selected row ends with the cleaned number and the filled digit; its computed digit is the check digit of that number with the whitespace at its ends stripped, as pass 2 reads it back |
| FixNits.FixRowTabBeforeHyphen | fix_nits.py:19-73 | the cell `12\t-3` ends as `12\t`, yet its computed digit is that of `12`, not the empty digit of `12\t` |
| FixNits.FixRowJoined | fix_nits.py:19-73 | a cell `n-d` ends as `n` with the check digit of `n`, and `d` fills the extracted digit only if that was empty |
| FixNits.AgreesWithNormalize | fix_nits.py:20-46 | for an all-digit number the script writes the same `nit` and computed digit that normalization does |
| FixNits.FirstPassTable | fix_nits.py:11-51 | the first pass maps every row, and counts the selected ones |
| FixNits.SecondPassTable | fix_nits.py:56-74 | the second pass maps every row, and counts those with NIT text |
| FixNits.CountsPositive | fix_nits.py:40-76 | the combined count is positive exactly when some row is touched by either pass |
| FixNits.FixNitsTable | fix_nits.py:4-81 | every row is fixed, and the table is saved exactly when some row was touched |
| CleanDuplicates.Clean | clean_duplicates.py:3-33 | the script fails exactly when there is no `archivo` column; otherwise removed = initial - final, and the cleaned table is written exactly when a file name repeats |
| CleanDuplicates.CleanSettles | clean_duplicates.py:13-33 | running the script on its written table removes nothing and writes nothing |
| Xml.StripTag | xml_skill.py:53-54 | a tag without `{` is kept; a `{` tag with no `}` is an error; a stripped tag is never longer |
| Xml.StripClark | xml_skill.py:53-54 | `{namespace}local` strips to `local` |
| Xml.StripNamespaces | xml_skill.py:51-56 | every element's tag is stripped, its text and child count are kept, and the whole fails exactly when some tag fails |
| Xml.StripFixed | xml_skill.py:51-56 | stripping leaves a tree unchanged exactly when no tag starts with `{` |
| Xml.FindChild | xml_skill.py:88-90 | `./T` finds the first child tagged T, and nothing exactly when no child has that tag |
| Xml.FindAnywhere | xml_skill.py:88-90 | `.//T` finds the first descendant in document order tagged T, and nothing exactly when there is none |
| Xml.PreorderCloses | xml_skill.py:88-90 | the descendants searched by `.//` include the children of every element found |
| Xml.GetText | xml_skill.py:88-90 | a missing element or empty text gives null; otherwise the stripped text |
| Xml.GetFloat | xml_skill.py:92-99 | empty or missing text gives 0.0, and unparsable text also gives 0.0 |
| Xml.SchemaDistinct | xml_skill.py:60-80 | the invoice has fourteen distinct extracted fields |
| Xml.Cells | xml_skill.py:63-79 | each schema field holds its own lookup result |
| Xml.ParseInvoice | xml_skill.py:58-86 | the record is named after the file, marked `EXITOSO (XML)`, has exactly the schema fields, and always has a description |
| Xml.ParseInvoiceFields | xml_skill.py:60-84 | each field holds its lookup; the description falls back to `Factura de Venta` when empty |
| Xml.ParseInvoiceAmounts | xml_skill.py:76-78 | base, taxes and total are always numbers, and 0.0 when their element is missing or empty |
| Xml.Payload | xml_skill.py:28-32 | the embedded invoice text is the stripped `Description` text; there is none exactly when the element is missing or empty |
| Xml.KindOf | xml_skill.py:24-41 | a tag ending in `AttachedDocument` is a wrapper, else one ending in `Invoice` is an invoice |
| Xml.ExtractData | xml_skill.py:10-49 | the result is empty or a record for this file marked `EXITOSO (XML)`; an unreadable file gives an empty result |
| Xml.ExtractWrapper | xml_skill.py:24-40 | a wrapper yields its embedded invoice, or an empty result when that is missing or malformed |
| Xml.InnerFound | xml_skill.py:28-34 | an embedded invoice is found exactly when the description exists, has text, parses, and strips |
| Xml.ExtractInvoice | xml_skill.py:41-42 | a bare invoice root is parsed directly |
| Xml.ExtractOther | xml_skill.py:44-49 | any other root, or a malformed tag, yields an empty result |
| Xml.ExtractNonEmpty | xml_skill.py:10-49 | a non-empty result is always the parse of some invoice element |
| Processor.Companion | processor.py:22-23 | the companion path ends in `.xml`, and its file name is the document's name without extension plus `.xml` |
| Processor.CompanionOf | processor.py:22-23 | `dir/name.ext` has companion `dir/name.xml` |
| Processor.MappingDistinct | processor.py:59-76 | the vision mapping fills fourteen distinct fields |
| Processor.Renamed | processor.py:62-75 | each mapped field holds the vision answer's value under its source name, or null |
| Processor.MapVision | processor.py:59-76 | the mapped record is named after the document and marked `EXITOSO` |
| Processor.MapVisionField | processor.py:62-75 | every mapped field holds the answer's value under its own source name |
| Processor.Failed | processor.py:52-56 | a failure record has the file name, `FALLIDO` and a note, and nothing else |
| Processor.ViaVision | processor.py:41-86 | an exception gives a failure with its message; an empty answer gives a failure with the no-JSON note; otherwise the mapped answer is normalized |
| Processor.ProcessFile | processor.py:11-86 | the record is never empty; a non-empty companion result is normalized, and everything else goes to the vision strategy |
| Processor.XmlFirst | processor.py:25-37 | when the companion yields data, the vision extractor cannot influence the record |
| Processor.Fallback | processor.py:25-48 | a missing companion, an XML exception or an empty XML result leads to the vision strategy |
| Processor.VisionRecord | processor.py:59-79 | a vision record keeps its name and `EXITOSO`, and each unnormalized field holds the answer's value |
| Processor.ThreeStates | processor.py:11-86 | every record's state is `EXITOSO`, `FALLIDO` or `EXITOSO (XML)` |
| Processor.XmlNamesCompanion | processor.py:22-37 | an XML record is named after the companion `.xml` file and marked `EXITOSO (XML)` |
| Vision.MimeOf | vision_skill.py:160-164 | each of the five extensions maps to its MIME type, exactly; anything else is `application/octet-stream` |
| Vision.MimeExtension | vision_skill.py:158-159 | the looked-up extension is the lower-cased text after the last dot of the file name |
| Vision.MimeCaseInsensitive | vision_skill.py:158-160 | `NAME.PDF` and `name.Pdf` are PDFs too |
| Vision.MimeHidden | vision_skill.py:158-164 | a hidden file `.png` has no extension and so gets the generic type |
| Vision.Poll | vision_skill.py:73-80 | the upload is ready at the first state after the processing run; it fails exactly when that state is `FAILED`; it waits forever exactly when every state is processing |
| Vision.Delay | vision_skill.py:103-103 | the k-th pause is 10 times 2^k seconds plus under one second of jitter |
| Vision.RetryFrom | vision_skill.py:84-107 | at most three attempts; every attempt before the last was rate-limited and followed by its pause; the last attempt's answer or error is the result, and a rate limit on it means all three were used |
| Vision.Generate | vision_skill.py:84-107 | the retry loop computes the retry outcome from the first attempt |
| Vision.ResumeStep | vision_skill.py:98-105 | a rate-limited attempt before the last is followed by its pause and the next attempt |
| Vision.AttemptsSettled | vision_skill.py:88-107 | if attempt n is the first not rate-limited, exactly n+1 attempts are made |
| Vision.Unwrap | vision_skill.py:126-148 | an object is returned as it is; a list gives its first element or an empty result; unparsable text gives an empty result |
| Vision.Answer | vision_skill.py:113-148 | an error is passed on, empty text gives an empty result, and other text is stripped, decoded and unwrapped |
| Vision.ExtractData | vision_skill.py:25-80 | no key gives an empty result; a failed upload raises; polling forever never returns; a failed upload state raises |
| Vision.ExtractReady | vision_skill.py:82-148 | once the upload is ready, the answer comes from the retry outcome |
| Run.ResolveKey | main.py:22-31 | a non-empty environment key wins; otherwise the typed key, stripped |
| Run.InputIgnoresCase | main.py:45-45 | the extension check ignores case |
| Run.Inputs | main.py:42-46 | exactly the listed paths whose name ends in `.pdf`, `.png`, `.jpg` or `.jpeg`, in any case, are inputs |
| Run.SkipSet | main.py:57-71 | no file, an unreadable file or no `archivo` column skips nothing; otherwise the names of rows with state exactly `EXITOSO` (every row if there is no state column) are skipped |
| Run.ToProcess | main.py:73-77 | exactly the inputs whose file name is not skipped are processed |
| Run.Existing | main.py:35-37 | `--reset` discards the existing spreadsheet |
| Run.Begin | main.py:22-85 | no key stops first; no input stops next; all inputs skipped stops with the count found; otherwise the documents to process are the unskipped inputs, and the skipped count is the difference |
| Run.ResetProcessesAll | main.py:35-85 | after a reset every input is processed and none is skipped |
| Run.NothingSkipped | main.py:73-77 | an empty skip set keeps every input, in order |
| Run.SavedSuccessSkipped | main.py:57-68 | a record saved with state `EXITOSO` is skipped when the run resumes from the written sheet |
| Run.XmlRowsRedone | main.py:63-65 | a document whose rows are all marked `EXITOSO (XML)` is not skipped, so it is processed again |
| Run.SaveAllConcat | main.py:114-126 | saving the batches one after another equals one append of all of them |
| Run.FinishedOrder | main.py:104-126 | the flushed batches hold exactly the non-empty records, in completion order |
| Run.FinishedBatches | main.py:114-126 | all batches but the last hold five records, the last holds one to five, and there are ceil(records/5) of them |
| Run.Drain | main.py:104-126 | the loop saves every non-empty result once, in order, in batches of five plus a final partial batch; it flushes after exactly the results that complete a batch of five; it reports progress 1..n |
| Run.EveryDocumentSaved | main.py:114-126 | when every result is non-empty, each one adds a row to the sheet |
| Run.Completed | main.py:101-109 | the results are the resolver applied to each document, in completion order |
| Run.ResolvedAllSaved | main.py:94-126 | since a processed document never yields an empty record, every completed document adds exactly one row |

## Left out

- Reading and writing files (`pd.read_excel`, `to_excel`, `ET.parse`, uploads) is left out. The spreadsheet is a value passed in and returned.
- `save_to_excel` has three write paths: create, append through `openpyxl`, and read–concat–write as a fallback. All three are modelled as one append of projected rows. Its error handling is not modelled.
- `setup_directories` and the directory walk are left out. `os.walk` is modelled as a listing of paths.
- `asyncio`, the semaphore, the 15-second pause and `time.sleep` are left out. The order in which documents complete is a parameter.
- The elapsed-time and percentage messages, and every `print`, are left out. The progress counter is modelled.
- `main` resolves each document through `process_file`, because the processor has no `process_file_with_retry`. The retry-script variant is not part of this model.
- Skip set: the code skips only rows whose state is exactly `EXITOSO`. Documents that were read from XML, marked `EXITOSO (XML)`, are therefore processed again on every resumed run (`Run.XmlRowsRedone`).
- The API key prompt is a parameter. So is the environment variable.
- The genai client is a parameter: the upload's state sequence and the answer of each generation attempt.
- The JSON decoding chain (regular expression, `json.loads`, stripping markdown fences, `ast.literal_eval`) is left out. It is modelled as one abstract decoder returning an object, a list of objects or nothing.
- Non-object list elements and scalar JSON answers are left out.
- JSON booleans and nested list or object values inside a record are left out: `Value` holds only null, text and numbers. For example, `clean_colombian_number` turns `True` into `1.0` (utils.py:81), and the model cannot express that input.
- Python integers and floats of equal value print differently (`5` against `5.0`). The model renders every number through one `show` function, so the `.` test that selects rows in fix_nits.py:19 depends on how `show` is chosen.
- `Vision.ExtractData`: an upload that never leaves `PROCESSING` loops forever in the program. The model returns no outcome there.
- `Vision.ExtractData`: the MIME type is computed but never used by the request. It is modelled separately.
- Floats are exact reals; IEEE rounding is not modelled.
- Python's `str()` of a float is a parameter.
- `isdigit`, `\d` and `lower()` cover ASCII only.
- Pandas represents a missing cell as NaN; it is modelled as `Null`. An XML element with text `None` and one with empty text are merged, because the program treats them alike.
- Dedup.DropDuplicatesWithRows: assumes the key column is not the helper column. The pandas corner case of a key column itself named `_completeness` is not described.
- The `Surtiplaza` diagnostic print in `clean_duplicates` is left out.
