# PDF generator: a Dafny model of the rendering and batch core

`pdf_generator.py` is an interactive command-line tool. It reads an HTML
template, chosen from every `*.html` file it finds (only the stems `act`
and `certificate` render), and a CSV table of records that carry an
`id` column. For one chosen id, or for every distinct id in turn, it fills
the template and has a PDF backend write `output/<template>_<csv>_id<id>.pdf`.

This project models the part of that program that decides what gets
written:

- **Table** (`table.dfy`). A CSV row is a `Row` datatype holding the id and
  the columns both templates read. `Group` is the filter
  `data_df[data_df['id'] == id]`. `UniqueIds` is
  `sorted(data_df['id'].unique())`.
- **Numerals** (`numerals.dfy`). Python's `str()` of an integer, `int()` of
  a typed answer, and `float()` of a `total` cell, limited to plain decimal
  notation and computed over exact reals.
- **Markup** (`markup.dfy`). The exact text of one positions-table row: the
  f-string with its newlines and indentation. It also defines a reader that
  parses that text back into cells, and a count of `<tr>` tags.
- **Render** (`render.dfy`). Three operations:
  - `render_act_template`: a loop that builds `positions_rows` and
    `total_amount`; the header comes from the group's first row.
  - `render_certificate_template`: three columns of one row.
  - `render_template`: filters the table by id, then dispatches on the
    template's stem.

  A successful render is the keyword map given to
  `string.Template.safe_substitute`.
- **Controller** (`controller.dfy`). The rest of the driver:
  - `get_choice`, the menu prompt loop, over a finite sequence of answers;
  - the output file name;
  - mode 1, which renders one id;
  - mode 2, the batch loop that fills `created_files` and `errors`.

  The PDF backend is a parameter `emit: (Keywords, string) -> bool`. It
  stands for `generate_pdf` answering on the keywords and the file name it
  is asked to write.

Imperative code stays imperative. `get_choice`, the act loop and the batch
loop are Dafny methods with `while` loops. `GetChoice`'s contract states
directly which answer it returns. The act loop and the batch loop are
proved against specification functions (`ActKeywords`, `Keep`/`Drop`,
`FileNames`, `ErrorLabels`), and lemmas state the program's promises about
those functions.

## Model

| member | source | states |
|---|---|---|
| Controller.GetChoice | pdf_generator.py:80-91 | Returns the first answer that parses as an integer in [1, max], and how many answers were read. Every earlier answer is rejected, whether it did not parse or was out of range. When the answers run out first (EOF), the result is None. |
| Numerals.ParseInt | pdf_generator.py:85 | `int(text)` succeeds exactly on a non-empty digit string with an optional leading `+` or `-`; a negative result needs a leading minus sign. |
| Numerals.ParseDigits | pdf_generator.py:85 | Every digit string, with no sign, with `+` or with `-`, parses to the value its digits spell (negated after `-`), leading zeros included. |
| Numerals.NonCanonicalNumerals | pdf_generator.py:85-86 | Answers that are not in canonical form are still accepted as numbers: `"02"` and `"+2"` give 2, and `"-0"` gives 0. |
| Numerals.ParseIntRoundTrip | pdf_generator.py:85 | `int(str(i)) == i` for every integer: a printed number reads back as itself. |
| Numerals.IntToStringInjective | pdf_generator.py:352 | Distinct ids print as distinct text in `f"..._id{selected_id}.pdf"`. |
| Numerals.ParseDecimalOfInt | pdf_generator.py:150 | `float()` of an integer's text is that integer. |
| Numerals.IntToString | pdf_generator.py:325 | `str(i)` is canonical: a `-` exactly when i is negative, then a non-empty run of digits with no leading zero. ParseIntRoundTrip gives its value. |
| Numerals.ParseDecimal | pdf_generator.py:150 | `float(text)` succeeds exactly on plain decimal text (digits, or digits around one point with at least one digit), optionally after one `+` or `-`. Anything else, such as `1500,50` or `1.2.3`, is rejected. ParseDecimalOfInt and ParseDecimalOfParts give its value. |
| Numerals.CommaTotal | pdf_generator.py:149-153 | `"1500,50"` does not parse, so it falls into the `except` branch. |
| Numerals.TwoPointTotal | pdf_generator.py:149-153 | `"1.2.3"` does not parse, so it falls into the `except` branch. |
| Numerals.ParseDecimalOfParts | pdf_generator.py:150 | `float("w.f")`, for digit strings w and f not both empty, is w plus f scaled by 10 to the power of f's length. A total with cents is parsed exactly. |
| Numerals.ParseDecimalSigned | pdf_generator.py:150 | A leading `-` negates the value of an unsigned decimal, and a leading `+` keeps it. |
| Numerals.TotalWithCents | pdf_generator.py:150-151 | `float("20.5")` is 20.5. |
| Numerals.FractionOnly | pdf_generator.py:150 | `float("-.5")` is -0.5: the whole part may be empty. |
| Numerals.NatToString | pdf_generator.py:157 | The row number `{idx}` prints as a non-empty run of digits with no leading zero. |
| Table.Group | pdf_generator.py:195 | The filtered rows are exactly the table's rows with that id; the group is empty iff no row has that id. |
| Table.GroupAppend | pdf_generator.py:195 | Filtering commutes with concatenation of tables, so the group keeps table order. |
| Table.GroupHeadIsFirstMatch | pdf_generator.py:195-208 | `filtered_df.iloc[0]` is the earliest row of the table with the id. |
| Table.Insert | pdf_generator.py:309 | Inserting an id into a strictly increasing list keeps it strictly increasing and adds exactly that id. |
| Table.UniqueIds | pdf_generator.py:309 | `sorted(unique())` is strictly increasing and holds exactly the ids that occur in the table. |
| Table.UniqueIdHasRows | pdf_generator.py:316-346 | Every id offered by the menu or walked by the batch selects a non-empty group. |
| Markup.ReadRowRoundTrip | pdf_generator.py:155-163 | A rendered `<tr>` row whose cells hold no `<` parses back to exactly its cells, in order. |
| Markup.ReadCellsRoundTrip | pdf_generator.py:156-162 | A run of `<td>` cells whose contents hold no `<` parses back to exactly those contents. |
| Markup.CountTrRow | pdf_generator.py:155-163 | One rendered row holds exactly one `<tr>` tag. |
| Render.RenderActTemplate | pdf_generator.py:135-178 | The loop's result is `ActKeywords(g)`: None for an empty group. Otherwise the eight act keywords, with the header from row 0, the concatenated position rows numbered from 1, and the sum of the parsable totals. |
| Render.ActKeywords | pdf_generator.py:137-176 | The act's keywords are absent exactly for an empty group; otherwise they have exactly the eight act keys. |
| Render.ActLoopStep | pdf_generator.py:148-163 | One turn of the loop appends row idx's fragment, numbered idx + 1, and adds that row's parsed total. |
| Render.RenderTemplate | pdf_generator.py:192-211 | Fails with "no data" iff no row has the id. With rows present and a stem other than `act`/`certificate` it fails as an unknown type. On success the stem is known, the group is non-empty, and the key set is the act's eight keys or the certificate's three. |
| Render.PositionsRowsCount | pdf_generator.py:145-163 | For N rows with plain cells, `positions_rows` holds exactly N `<tr>` tags. |
| Render.PositionPlacement | pdf_generator.py:148-163 | With plain cells, row k of the group is rendered as row number k + 1, after exactly k earlier rows: rows appear in group order. |
| Render.PositionRowReadBack | pdf_generator.py:155-163 | A rendered position row with plain cells reads back as six cells: its number, then work name, quantity, unit, unit price and total. |
| Render.PositionsRowsPrefix | pdf_generator.py:155 | The text built from a prefix of the group is a prefix of the full `positions_rows`: the loop only appends. |
| Render.TotalAmountAppend | pdf_generator.py:146-151 | The grand total over two concatenated row runs is the sum of their totals. |
| Render.TotalAmountSkipsUnparsable | pdf_generator.py:149-153 | A row whose `total` cell does not parse adds nothing to the grand total, wherever it stands. |
| Render.ActHeaderFromFirstRow | pdf_generator.py:141-176 | Two groups with equal position columns render the same act once their first rows agree on the header. Later rows' header cells are never read. |
| Render.ActFromFirstMatch | pdf_generator.py:195-205 | The act for an id takes its header from the earliest table row with that id, and its rows and total from the whole group. |
| Render.CertificateKeywords | pdf_generator.py:181-189 | A certificate has exactly the keys `student_name`, `course_name` and `cert_date`, and each maps to text. CertificateFromFirstMatch says which row fills them. |
| Render.CertificateFromFirstMatch | pdf_generator.py:181-208 | The certificate for an id is filled from the earliest table row with that id. |
| Render.ActRowsPerId | pdf_generator.py:195-205 | In an act whose group has plain cells, the number of `<tr>` tags in `positions_rows` is the number of table rows with the id. |
| Render.TwoLineItems | pdf_generator.py:135-178 | Two line items with totals 20 and 5 render two rows and a grand total of 25. |
| Controller.EmptyTableRejectsEveryAnswer | pdf_generator.py:309-316 | On a table with no rows, mode 1's `get_choice` bound is 0, so every answer is rejected. |
| Controller.IdMenu | pdf_generator.py:313-317 | The id menu as intended: absent iff the table has no rows; otherwise bounded by the number of ids, with answer "1" accepted. |
| Controller.OutputFilename | pdf_generator.py:325 | The name is the template stem, `_`, the CSV stem and `_id`, followed by the id and ending in `.pdf`. |
| Controller.ErrorLabel | pdf_generator.py:348 | An error entry is `ID ` followed by text that reads back as the failed id. |
| Controller.OutputFilenameId | pdf_generator.py:325 | The id inside `<template>_<csv>_id<id>.pdf` reads back as the id, and the name ends in `.pdf`. |
| Controller.OutputFilenameInjective | pdf_generator.py:352 | For one template and one CSV file, different ids never get the same output name. |
| Controller.SingleMode | pdf_generator.py:311-333 | Mode 1 reports a created file iff the chosen id renders and the backend accepts it. The reported name is the one built from that id. |
| Controller.Keep | pdf_generator.py:343-356 | The ids that succeed; membership is exactly "in the list and succeeds", and the result ascends when the ids ascend (KeepAscending). |
| Controller.Drop | pdf_generator.py:343-360 | The ids that fail; membership is exactly "in the list and fails", and the result ascends when the ids ascend (DropAscending). |
| Controller.KeptStep | pdf_generator.py:355-357 | A turn on a succeeding id appends its output name to the created files and leaves the failed ids unchanged. |
| Controller.DroppedStep | pdf_generator.py:346-360 | A turn on a failing id appends its `"ID <id>"` entry to the errors and leaves the kept ids unchanged. |
| Controller.KeptNameListed | pdf_generator.py:352-356 | The output name of an id the batch keeps is among its created files. |
| Controller.DroppedNameAbsent | pdf_generator.py:346-360 | The output name of an id the batch drops is not among its created files. |
| Controller.RunBatch | pdf_generator.py:336-360 | `created_files` are the names of the succeeding ids, and `errors` are `"ID <id>"` for the failing ids, both in ascending id order. |
| Controller.BatchPartition | pdf_generator.py:340-360 | Created files plus errors number exactly the distinct ids. |
| Controller.KeepAscending | pdf_generator.py:343 | The created ids keep the ascending order of `unique_ids`. |
| Controller.ErrorLabelsAt | pdf_generator.py:348-359 | Entry i of the error list is `ErrorLabel` of the i-th failed id. |
| Controller.DropAscending | pdf_generator.py:343-360 | The failed ids, and so the error entries, keep the ascending order of `unique_ids`. |
| Controller.FileNamesDistinct | pdf_generator.py:352-356 | Files named after strictly increasing ids are pairwise distinct: no PDF of a batch overwrites another. |
| Controller.BatchSummary | pdf_generator.py:340-362 | For any table and backend: files plus errors equal the number of ids, the created ids and the failed ids each ascend, and no two created names coincide. |
| Controller.BatchExactlyOne | pdf_generator.py:346-360 | An id is among the created files iff it succeeds, and among the errors iff it fails. |
| Controller.UnknownStemFailsAll | pdf_generator.py:346-350 | With a template stem other than `act` or `certificate`, every id is an error and no file is created. |
| Controller.KnownStemFailsOnlyInBackend | pdf_generator.py:346-360 | With a known stem every listed id renders, so an id is an error iff the backend refuses its PDF. |
| Controller.SingleAgreesWithBatch | pdf_generator.py:325-356 | Mode 1 reports a created file for an id iff mode 2 would list a file of that name in `created_files`. |

## Left out

- File discovery is I/O outside the model: `get_html_templates`, `get_csv_files`, `read_html_template`, `load_csv_data`, the `None` early returns in `main`, and creating `output/`.
- The table is taken as already loaded: pandas' CSV parsing, dtype inference and NaN cells are not modelled. Ids are Python integers.
- A row lacking a column one of the templates reads makes the source raise AttributeError, which aborts the whole run and not just that id. Every `Row` here has every column, so that path is not modelled.
- `string.Template.safe_substitute` is not modelled. A render is its keyword map; how the template text uses the keywords is outside the model.
- Render.RenderActTemplate: `total_amount` is an exact real, not a binary float, and its two-decimal formatting `f"{total_amount:.2f}"` is left out (the value is kept as `Amount(real)`).
- Numerals.ParseDecimal: accepts only `[sign]digits[.digits]`, `[sign].digits` and `[sign]digits.` with ASCII digits. Python's `float()` also accepts exponents, `inf`/`nan`, surrounding whitespace, digit-group underscores and any Unicode decimal digit; the model rejects all of these.
- Numerals.ParseInt: accepts only ASCII digits `0`-`9`. Python's `int()` also accepts surrounding whitespace, digit-group underscores and any Unicode decimal digit (Arabic-Indic `٣`, full-width `３`), so some answers `get_choice` takes are rejected by `Controller.GetChoice`.
- Controller.GetChoice: EOF on standard input becomes `None`. In the source, `input()` raises EOFError; the `except Exception` around `main()` (lines 380-382) catches it, prints the error and exits with status 1. KeyboardInterrupt (exit 0) and the printed error messages are left out.
- `generate_pdf` (WeasyPrint, or xhtml2pdf when WeasyPrint fails to import, lines 32-50 and 214-241) is an oracle `emit`: a pure function of the keywords and the file name. Its exception handling, file writing and backend probing are outside the model. On the xhtml2pdf path the output file is opened (line 226) before the conversion runs, so a refused conversion can still leave a file at the output path. In the model, "created" therefore means "listed as created", not "present on disk". A real backend can fail on one run and succeed on another, so Controller.SingleAgreesWithBatch holds only under that purity assumption.
- `open_pdf`, `clear_screen`, `print_menu_header`, `print_menu`, the progress and summary prints (lines 337-338, 344, 362-371) and the Windows console encoding setup are terminal I/O and are not modelled.
- The mode menu (`get_choice(..., 2)` at line 306) and the top-level `try` in `__main__` are not modelled as their own members. `Controller.SingleMode` and `Controller.RunBatch` are the two branches it selects.
- The `<tr>` count and the row read-back hold only for cells without `<`. The source puts cell text into the HTML unescaped, so a cell holding markup changes the row structure.
- The empty-group branch of `render_act_template` (lines 137-139) is modelled as `None`. Through `render_template` it is never reached, because an empty group fails before dispatch.

## Findings

| source | as written | input that shows it | evidently intended | confidence | as-written member | corrected member |
|---|---|---|---|---|---|---|
| pdf_generator.py:309-317 | In mode 1, `get_choice` is called with bound `len(unique_ids)`. When the CSV has a header but no rows, that bound is 0, no integer lies in [1, 0], and the prompt repeats until input ends. | a CSV file with only a header line, then mode 1 | report that there are no ids and offer no menu; otherwise bound the choice by the number of ids | not executed | Controller.EmptyTableRejectsEveryAnswer | Controller.IdMenu |

`Controller.SingleMode` and `Controller.SingleAgreesWithBatch` model mode 1
as written. They require a choice in [1, |ids|], which `Controller.GetChoice`
guarantees for the bound `len(unique_ids)`. On an empty table no choice meets
that range, which is the finding above.
